/** The edge while the external exception is raised: the free list is reset, the committed
    maps are not. */
module RenameException {

  import opened CoreConfig
  import opened PriorityEncoder
  import opened FiniteSets
  import opened FreeList
  import opened MapTables
  import opened RenameMachine
  import opened RenameClock
  import opened RenameTheorems
  import opened RenameReset

  /** The edge while `exception_i` is high: the free list goes back to its reset
      content, the queues are emptied, but the committed maps only take their
      retirements. */
  ghost function ExceptionClock(cfg: Config, s: State, inp: Input): State
    requires cfg.Valid() && RetiresOwn(cfg, s, inp)
  {
    State(ResetEntries(cfg), cfg.FlEntries(),
          seq(|s.threads|, t requires 0 <= t < |s.threads| =>
            var ws := RobToAmt(s.threads[t].rob, cfg.rtNum, inp.rtNum[t]);
            Thread(Overwritten(s.threads[t].amt, ws, |ws|), AmtOut(s.threads[t].amt, true, ws), [])))
  }

  lemma ExceptionHolders(cfg: Config, s: State, inp: Input, x: nat)
    requires cfg.Valid() && RetiresOwn(cfg, s, inp)
    ensures Holders(ExceptionClock(cfg, s, inp), x)
         == One(cfg.Committed() < x < cfg.phys) + Committed(ExceptionClock(cfg, s, inp).threads, x, cfg.threads)
  {
    ResetHeld(cfg, x, cfg.FlEntries());
  }

  lemma ExceptionThreads(cfg: Config, s: State, inp: Input)
    requires Inv(cfg, s) && RetiresOwn(cfg, s, inp)
    ensures ThreadsOk(cfg, ExceptionClock(cfg, s, inp).threads)
  {
    StepsAre(cfg, s, inp.(brMis := seq(cfg.threads, _ => true)), cfg.threads);
    var r := ThreadSteps(s, inp.(brMis := seq(cfg.threads, _ => true)), cfg.threads);
    forall t | 0 <= t < |s.threads|
      ensures ThreadOk(cfg.Arch(), ExceptionClock(cfg, s, inp).threads[t])
    {
      assert ThreadOk(cfg.Arch(), r.threads[t]);
    }
  }

  lemma ExceptionFlights(cfg: Config, s: State, inp: Input)
    requires cfg.Valid() && RetiresOwn(cfg, s, inp)
    ensures FlightsOk(ExceptionClock(cfg, s, inp)) && AvailOk(ExceptionClock(cfg, s, inp))
  {
    var r := ExceptionClock(cfg, s, inp);
    ResetAvailable(cfg, cfg.FlEntries());
    forall t, x: nat | 0 <= t < |r.threads|
      ensures Flying(r.fl, t, x, |r.fl|) == Taken(r.threads[t].rob, x)
    {
      ResetFlying(cfg, t, x, |r.fl|);
    }
  }

  /** The committed maps hold the tags they held after reset, in some order. */
  ghost predicate CommittedAsAtReset(cfg: Config, threads: seq<Thread>)
    requires |threads| == cfg.threads
  {
    forall x: nat :: Committed(threads, x, cfg.threads) == One(1 <= x <= cfg.Committed())
  }

  /** An exception keeps the tags in order exactly when the committed maps hold the
      tags they held after reset. */
  lemma ExceptionSafeByMaps(cfg: Config, s: State, inp: Input)
    requires Inv(cfg, s) && RetiresOwn(cfg, s, inp)
    ensures Inv(cfg, ExceptionClock(cfg, s, inp))
       <==> CommittedAsAtReset(cfg, ExceptionClock(cfg, s, inp).threads)
  {
    var r := ExceptionClock(cfg, s, inp);
    ExceptionThreads(cfg, s, inp);
    ExceptionFlights(cfg, s, inp);
    assert Conserved(cfg, r) <==> CommittedAsAtReset(cfg, r.threads) by {
      forall x: nat
        ensures Holders(r, x) == One(1 <= x < cfg.phys)
           <==> Committed(r.threads, x, cfg.threads) == One(1 <= x <= cfg.Committed())
      {
        ExceptionHolders(cfg, s, inp, x);
      }
    }
    assert EntriesOk(cfg, r.fl);
  }

  /** The tag of free list entry `i` once the retirements of the cycle are done. */
  function TagAfter(cfg: Config, s: State, inp: Input, i: nat): nat
    requires EntriesOk(cfg, s.fl) && RetiresOwn(cfg, s, inp) && i < |s.fl|
  {
    var e := s.fl[i];
    if e.valid then e.tag else Retired(e, FlInputs(cfg, s, inp)[e.thread], cfg.rtNum).tag
  }

  /** No entry is left with a tag below the range in which the free list starts. */
  ghost predicate EntriesInStartRange(cfg: Config, s: State, inp: Input)
    requires EntriesOk(cfg, s.fl) && RetiresOwn(cfg, s, inp)
  {
    forall i :: 0 <= i < |s.fl| ==> TagAfter(cfg, s, inp, i) >= cfg.FlStart()
  }

  /** The state after the retirements alone, with all queues flushed. */
  ghost function Flushed(cfg: Config, s: State, inp: Input): State
    requires RetiresOwn(cfg, s, inp)
  {
    ThreadSteps(s, inp.(brMis := seq(cfg.threads, _ => true)), cfg.threads)
  }

  lemma FlushedIs(cfg: Config, s: State, inp: Input)
    requires Inv(cfg, s) && RetiresOwn(cfg, s, inp)
    ensures var r := Flushed(cfg, s, inp);
            && Inv(cfg, r) && |r.fl| == |s.fl|
            && (forall i :: 0 <= i < |s.fl| ==> r.fl[i].tag == TagAfter(cfg, s, inp, i))
            && |r.threads| == |ExceptionClock(cfg, s, inp).threads|
            && forall t :: 0 <= t < |r.threads| ==> r.threads[t].amt == ExceptionClock(cfg, s, inp).threads[t].amt
  {
    hide Retired, Overwritten, Gathered, RobToFl, RobToAmt, Conserved, FlightsOk;
    var all := inp.(brMis := seq(cfg.threads, _ => true));
    StepsAre(cfg, s, all, cfg.threads);
    assert FlInputs(cfg, s, all) == FlInputs(cfg, s, inp);
  }

  lemma {:induction false} CommittedSame(a: seq<Thread>, b: seq<Thread>, x: nat, k: nat)
    requires k <= |a| == |b| && forall t :: 0 <= t < k ==> a[t].amt == b[t].amt
    ensures Committed(a, x, k) == Committed(b, x, k)
  {
    if k > 0 {
      CommittedSame(a, b, x, k - 1);
    }
  }

  lemma {:induction false} HeldNowhere(fl: seq<FlEntry>, x: nat, m: nat)
    requires m <= |fl| && forall i :: 0 <= i < m ==> fl[i].tag != x
    ensures Held(fl, x, m) == 0
  {
    if m > 0 {
      HeldNowhere(fl, x, m - 1);
    }
  }

  /** Pigeonholes: if all entries carry tags of the start range, they carry all of them. */
  lemma StartRangeIsFull(cfg: Config, r: State, x: nat)
    requires Inv(cfg, r) && cfg.Committed() < x < cfg.phys
    requires forall i :: 0 <= i < |r.fl| ==> r.fl[i].tag > cfg.Committed()
    ensures exists i :: 0 <= i < |r.fl| && r.fl[i].tag == x
  {
    var tags := seq(|r.fl|, i requires 0 <= i < |r.fl| => r.fl[i].tag);
    forall i, j | 0 <= i < j < |tags| ensures tags[i] != tags[j] {
      TagsDistinct(cfg, r, i, j);
    }
    DistinctCount(tags);
    if x !in tags {
      var range := Range(cfg.Committed() + 1, cfg.phys);
      forall y | y in Elements(tags) + {x} ensures y in range {
        if y != x {
          var i :| 0 <= i < |tags| && tags[i] == y;
          TagsDistinct(cfg, r, i, i);
        }
      }
      SubsetSize(Elements(tags) + {x}, range);
    }
    var i :| 0 <= i < |tags| && tags[i] == x;
    assert r.fl[i].tag == x;
  }

  lemma StartRangeMeansReset(cfg: Config, r: State, x: nat)
    requires Inv(cfg, r) && forall i :: 0 <= i < |r.fl| ==> r.fl[i].tag > cfg.Committed()
    ensures Committed(r.threads, x, cfg.threads) == One(1 <= x <= cfg.Committed())
  {
    assert Holders(r, x) == One(1 <= x < cfg.phys);
    if 1 <= x <= cfg.Committed() {
      HeldNowhere(r.fl, x, |r.fl|);
    } else if cfg.Committed() < x < cfg.phys {
      StartRangeIsFull(cfg, r, x);
      var i :| 0 <= i < |r.fl| && r.fl[i].tag == x;
      HeldAtLeast(r.fl, i, i, |r.fl|);
    }
  }

  lemma ResetMeansStartRange(cfg: Config, r: State, i: nat)
    requires Inv(cfg, r) && CommittedAsAtReset(cfg, r.threads) && i < |r.fl|
    ensures r.fl[i].tag > cfg.Committed()
  {
    TagsDistinct(cfg, r, i, i);
    HeldAtLeast(r.fl, i, i, |r.fl|);
    assert Holders(r, r.fl[i].tag) == 1;
    assert Committed(r.threads, r.fl[i].tag, cfg.threads) == One(1 <= r.fl[i].tag <= cfg.Committed());
  }

  lemma MapsIffEntries(cfg: Config, r: State)
    requires Inv(cfg, r)
    ensures CommittedAsAtReset(cfg, r.threads) <==> forall i :: 0 <= i < |r.fl| ==> r.fl[i].tag > cfg.Committed()
  {
    if CommittedAsAtReset(cfg, r.threads) {
      forall i | 0 <= i < |r.fl| ensures r.fl[i].tag > cfg.Committed() {
        ResetMeansStartRange(cfg, r, i);
      }
    }
    if forall i :: 0 <= i < |r.fl| ==> r.fl[i].tag > cfg.Committed() {
      forall x: nat ensures Committed(r.threads, x, cfg.threads) == One(1 <= x <= cfg.Committed()) {
        StartRangeMeansReset(cfg, r, x);
      }
    }
  }

  /** An exception keeps the tags in order exactly when, counting the retirements of its
      own cycle, no free list entry holds a tag from below the free list's start range. */
  lemma ExceptionSafeIff(cfg: Config, s: State, inp: Input)
    requires Inv(cfg, s) && RetiresOwn(cfg, s, inp)
    ensures Inv(cfg, ExceptionClock(cfg, s, inp)) <==> EntriesInStartRange(cfg, s, inp)
  {
    var r, x := Flushed(cfg, s, inp), ExceptionClock(cfg, s, inp);
    FlushedIs(cfg, s, inp);
    MapsIffEntries(cfg, r);
    ResetStart(cfg);
    ExceptionSafeByMaps(cfg, s, inp);
    forall y: nat ensures Committed(r.threads, y, cfg.threads) == Committed(x.threads, y, cfg.threads) {
      CommittedSame(r.threads, x.threads, y, cfg.threads);
    }
    assert EntriesInStartRange(cfg, s, inp) <==> forall i :: 0 <= i < |r.fl| ==> r.fl[i].tag > cfg.Committed();
  }

  lemma {:induction false} MappedAtLeast(map_: seq<nat>, a: nat, m: nat)
    requires 0 < a <= m < |map_|
    ensures Mapped(map_, map_[a], m) > 0
  {
    if a < m {
      MappedAtLeast(map_, a, m - 1);
    }
  }

  lemma {:induction false} CommittedAtLeast(threads: seq<Thread>, t: nat, a: nat, k: nat)
    requires t < k <= |threads| && 0 < a < |threads[t].amt|
    ensures Committed(threads, threads[t].amt[a], k) > 0
  {
    if t < k - 1 {
      CommittedAtLeast(threads, t, a, k - 1);
    } else {
      MappedAtLeast(threads[t].amt, a, |threads[t].amt| - 1);
    }
  }

  /** A committed tag from the free list's reset range is held twice after an exception. */
  lemma ExceptionDuplicates(cfg: Config, s: State, x: nat)
    requires cfg.Valid() && |s.threads| == cfg.threads && 1 < |s.threads[0].amt|
    requires s.threads[0].amt[1] == x && cfg.Committed() < x < cfg.phys
    ensures RetiresOwn(cfg, s, Quiet(cfg, 0, 0, []))
    ensures Holders(ExceptionClock(cfg, s, Quiet(cfg, 0, 0, [])), x) > 1
  {
    var third := Quiet(cfg, 0, 0, []);
    var none := RobToAmt(s.threads[0].rob, cfg.rtNum, 0);
    LatestPrefix(x, 1, none, none, 0, |none|);
    CommittedAtLeast(ExceptionClock(cfg, s, third).threads, 0, 1, cfg.threads);
    ExceptionHolders(cfg, s, third, x);
  }

  /** They are not always in order.  In every configuration, renaming register 1 once
      and retiring it already leaves a tag committed that an exception then makes
      available as well. */
  lemma ExceptionCanDuplicate(cfg: Config) returns (s: State)
    requires cfg.Valid()
    ensures Runs(cfg, ResetState(cfg), RenameOnce(cfg, 0), s)
    ensures RetiresOwn(cfg, s, Quiet(cfg, 0, 0, []))
    ensures Holders(ExceptionClock(cfg, s, Quiet(cfg, 0, 0, [])), cfg.Committed() + 1) > 1
  {
    s := FirstCommit(cfg, 0);
    assert s.threads[0].amt[1] == cfg.Committed() + 1;
    ExceptionDuplicates(cfg, s, cfg.Committed() + 1);
  }
}
