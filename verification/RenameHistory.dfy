/** What renaming is for: over every run, the maps of the core name the youngest writers of the
    registers.  The statements speak of the instructions that were dispatched and of the cycles in
    which they retired or were squashed, not of the tables. */
module RenameHistory {

  import opened CoreConfig
  import opened FreeList
  import opened MapTables
  import opened RenameMachine
  import opened RenameClock
  import opened RenameTheorems

  /** A dispatched instruction: its destination register and the tag that the free list offered. */
  datatype Write = Write(rd: nat, tag: nat)

  /** The instructions of a thread that retired, and those still on their way, both in program order. */
  datatype Program = Program(retired: seq<Write>, queued: seq<Write>) {
    function All(): seq<Write> { retired + queued }
  }

  /** None of the instructions from `i` on writes register `a`. */
  ghost predicate NoWriter(ws: seq<Write>, i: nat, a: nat) {
    forall j :: i <= j < |ws| ==> ws[j].rd != a
  }

  /** Register `a` has the tag of its youngest writer, or without one the tag `first`. */
  ghost predicate HasTag(ws: seq<Write>, a: nat, first: nat, tag: nat) {
    && (forall i :: 0 <= i < |ws| && ws[i].rd == a && NoWriter(ws, i + 1, a) ==> tag == ws[i].tag)
    && (NoWriter(ws, 0, a) ==> tag == first)
  }

  // ---- the program of a run -------------------------------------------------------------

  /** What a cycle adds to the program of thread `t`. */
  function Dispatches(s: State, inp: Input, t: nat): seq<Write> {
    if t == inp.dpThread
    then seq(|inp.rds|, c requires 0 <= c < |inp.rds| => Write(inp.rds[c], DispatchTag(s.fl, inp.rds, c)))
    else []
  }

  /** The program of thread `t` after a cycle: the oldest instructions retire; then a misprediction
      squashes the others, or the dispatched ones follow. */
  function AfterCycle(s: State, inp: Input, t: nat, p: Program): Program
    requires t < |inp.brMis| == |inp.rtNum| && inp.rtNum[t] <= |p.queued|
  {
    var n := inp.rtNum[t];
    Program(p.retired + p.queued[..n],
            if inp.brMis[t] then [] else p.queued[n..] + Dispatches(s, inp, t))
  }

  /** Starting with `p`, the cycles make `q` the program of thread `t`. */
  ghost predicate Executes(cfg: Config, s: State, inputs: seq<Input>, t: nat, p: Program, q: Program)
    decreases |inputs|
  {
    if inputs == [] then q == p
    else
      && WellFormed(cfg, s, inputs[0])
      && t < |inputs[0].brMis| == |inputs[0].rtNum| && inputs[0].rtNum[t] <= |p.queued|
      && Executes(cfg, Clock(cfg, s, inputs[0]), inputs[1..], t, AfterCycle(s, inputs[0], t, p), q)
  }

  // ---- what every cycle keeps -------------------------------------------------------------

  /** The committed map and the queue of a thread are what its program says. */
  ghost predicate Agrees(first: seq<nat>, th: Thread, p: Program) {
    && |th.amt| == |first| && |th.rob| == |p.queued|
    && (forall a :: 0 <= a < |first| ==> HasTag(p.retired, a, first[a], th.amt[a]))
    && (forall k :: 0 <= k < |th.rob| ==> th.rob[k].rd == p.queued[k].rd && th.rob[k].tag == p.queued[k].tag)
  }

  lemma HasTagAppend(ws: seq<Write>, w: Write, a: nat, first: nat, tag: nat)
    requires HasTag(ws, a, first, tag)
    ensures HasTag(ws + [w], a, first, if w.rd == a then w.tag else tag)
  {
    var more := ws + [w];
    assert more[|ws|] == w;
    assert forall j :: 0 <= j < |ws| ==> more[j] == ws[j];
    if NoWriter(more, 0, a) {
      assert NoWriter(ws, 0, a);
    }
    forall i | 0 <= i < |more| && more[i].rd == a && NoWriter(more, i + 1, a)
      ensures (if w.rd == a then w.tag else tag) == more[i].tag
    {
      if i < |ws| {
        forall j | i + 1 <= j < |ws| ensures ws[j].rd != a {
          assert more[j].rd != a;
        }
        assert NoWriter(ws, i + 1, a);
        assert more[|ws|].rd != a;
      }
    }
  }

  /** The retire channels write what the retiring instructions wrote. */
  lemma {:induction false} RetiredTag(ws: seq<Write>, rob: seq<RobEntry>, q: seq<Write>, rtNum: nat, m: nat, n: nat,
                                      a: nat, first: nat, tag: nat)
    requires n <= m <= rtNum && m <= |rob| == |q| && HasTag(ws, a, first, tag)
    requires forall k :: 0 <= k < |rob| ==> rob[k].rd == q[k].rd && rob[k].tag == q[k].tag
    ensures HasTag(ws + q[..n], a, first, Latest(tag, a, RobToAmt(rob, rtNum, m), n))
  {
    if n == 0 {
      assert ws + q[..0] == ws;
    } else {
      RetiredTag(ws, rob, q, rtNum, m, n - 1, a, first, tag);
      HasTagAppend(ws + q[..n - 1], q[n - 1], a, first, Latest(tag, a, RobToAmt(rob, rtNum, m), n - 1));
      assert ws + q[..n] == (ws + q[..n - 1]) + [q[n - 1]];
    }
  }

  lemma CommittedTag(first: seq<nat>, th: Thread, p: Program, rtNum: nat, n: nat, a: nat)
    requires Agrees(first, th, p) && n <= |th.rob| && n <= rtNum && a < |first|
    ensures var ws := RobToAmt(th.rob, rtNum, n);
            HasTag(p.retired + p.queued[..n], a, first[a], Latest(th.amt[a], a, ws, |ws|))
  {
    var ws := RobToAmt(th.rob, rtNum, n);
    RetiredTag(p.retired, th.rob, p.queued, rtNum, n, n, a, first[a], th.amt[a]);
    LatestPrefix(th.amt[a], a, ws, ws, n, |ws|);
  }

  lemma CycleAgrees(cfg: Config, s: State, inp: Input, t: nat, first: seq<nat>, p: Program)
    requires WellFormed(cfg, s, inp) && t < cfg.threads && Agrees(first, s.threads[t], p)
    ensures Agrees(first, Clock(cfg, s, inp).threads[t], AfterCycle(s, inp, t, p))
  {
    hide HasTag, RobToAmt, Latest;
    var th, n := s.threads[t], inp.rtNum[t];
    var r, q := Clock(cfg, s, inp).threads[t], AfterCycle(s, inp, t, p);
    forall a | 0 <= a < |first| ensures HasTag(q.retired, a, first[a], r.amt[a]) {
      CommittedTag(first, th, p, cfg.rtNum, n, a);
    }
  }

  lemma {:induction false} ReplayedTag(first: seq<nat>, th: Thread, p: Program, k: nat, a: nat)
    requires Agrees(first, th, p) && RobOk(|th.amt|, th.rob) && k <= |th.rob| && a < |first|
    ensures HasTag(p.retired + p.queued[..k], a, first[a], Replay(th.amt, th.rob[..k])[a])
  {
    if k == 0 {
      assert p.retired + p.queued[..0] == p.retired;
    } else {
      ReplayedTag(first, th, p, k - 1, a);
      assert th.rob[..k] == th.rob[..k - 1] + [th.rob[k - 1]];
      ReplayAppend(th.amt, th.rob[..k - 1], th.rob[k - 1]);
      HasTagAppend(p.retired + p.queued[..k - 1], p.queued[k - 1], a, first[a], Replay(th.amt, th.rob[..k - 1])[a]);
      assert p.retired + p.queued[..k] == (p.retired + p.queued[..k - 1]) + [p.queued[k - 1]];
    }
  }

  // ---- whole runs ---------------------------------------------------------------------------

  lemma AgreesLength(first: seq<nat>, th: Thread, p: Program)
    requires Agrees(first, th, p)
    ensures |p.queued| == |th.rob|
  {
  }

  lemma ClockThreads(cfg: Config, s: State, inp: Input)
    requires WellFormed(cfg, s, inp)
    ensures |Clock(cfg, s, inp).threads| == |s.threads|
  {
  }

  lemma {:induction false} RunAgrees(cfg: Config, s: State, inputs: seq<Input>, r: State, t: nat,
                                     first: seq<nat>, p: Program) returns (q: Program)
    requires Runs(cfg, s, inputs, r) && t < cfg.threads == |s.threads| && Agrees(first, s.threads[t], p)
    ensures Executes(cfg, s, inputs, t, p, q) && |r.threads| == cfg.threads && Agrees(first, r.threads[t], q)
    decreases |inputs|
  {
    hide Agrees, Clock, AfterCycle;
    if inputs == [] {
      q := p;
    } else {
      AgreesLength(first, s.threads[t], p);
      CycleAgrees(cfg, s, inputs[0], t, first, p);
      ClockThreads(cfg, s, inputs[0]);
      q := RunAgrees(cfg, Clock(cfg, s, inputs[0]), inputs[1..], r, t, first, AfterCycle(s, inputs[0], t, p));
    }
  }

  lemma ResetAgrees(cfg: Config, t: nat)
    requires cfg.Valid() && t < cfg.threads
    ensures Agrees(ResetMap(cfg, t), ResetState(cfg).threads[t], Program([], []))
  {
  }

  /** In every run from reset the queue of a thread holds the instructions on their way, in order.  The
      committed map names the youngest retired writer of every register and the speculative map the
      youngest writer of all, and each queue entry remembers the youngest writer before it. */
  lemma MapsNameYoungestWriters(cfg: Config, inputs: seq<Input>, r: State, t: nat) returns (p: Program)
    requires cfg.Valid() && SameResets(cfg) && Runs(cfg, ResetState(cfg), inputs, r) && t < cfg.threads
    ensures Executes(cfg, ResetState(cfg), inputs, t, Program([], []), p) && |r.threads| == cfg.threads
    ensures var th, first := r.threads[t], ResetMap(cfg, t);
      && |th.amt| == |th.mt| == |first| && |th.rob| == |p.queued|
      && (forall a :: 0 <= a < |first| ==> HasTag(p.retired, a, first[a], th.amt[a]))
      && (forall a :: 0 <= a < |first| ==> HasTag(p.All(), a, first[a], th.mt[a]))
      && (forall k :: 0 <= k < |th.rob| ==>
            th.rob[k].rd == p.queued[k].rd < |first| && th.rob[k].tag == p.queued[k].tag
            && HasTag(p.retired + p.queued[..k], th.rob[k].rd, first[th.rob[k].rd], th.rob[k].tagOld))
  {
    hide HasTag, Executes, Runs;
    var first := ResetMap(cfg, t);
    ResetAgrees(cfg, t);
    p := RunAgrees(cfg, ResetState(cfg), inputs, r, t, first, Program([], []));
    SpeculativeMapIsReplay(cfg, inputs, r, t, 0);
    var th := r.threads[t];
    assert th.rob[..|th.rob|] == th.rob && p.queued[..|th.rob|] == p.queued;
    forall a | 0 <= a < |first| ensures HasTag(p.All(), a, first[a], th.mt[a]) {
      ReplayedTag(first, th, p, |th.rob|, a);
    }
    forall k | 0 <= k < |th.rob|
      ensures HasTag(p.retired + p.queued[..k], th.rob[k].rd, first[th.rob[k].rd], th.rob[k].tagOld)
    {
      SpeculativeMapIsReplay(cfg, inputs, r, t, k);
      ReplayedTag(first, th, p, k, th.rob[k].rd);
    }
  }

  lemma ReadTagStart(mt: seq<nat>, ws: seq<MapWrite>, a: nat)
    requires a < |mt|
    ensures ReadTag(mt, ws, 0, a) == mt[a]
  {
  }

  lemma ReadTagNext(fl: seq<FlEntry>, rds: seq<nat>, mt: seq<nat>, c: nat, a: nat)
    requires 0 < c <= |rds| && a < |mt| && mt[0] == 0
    ensures ReadTag(mt, DispatchWrites(fl, rds), c, a)
         == if rds[c - 1] == a then DispatchTag(fl, rds, c - 1) else ReadTag(mt, DispatchWrites(fl, rds), c - 1, a)
  {
  }

  /** Also within a group: the tag that channel `c` reads for a register is that of its youngest writer
      among all instructions before, including the older ones of the group. */
  lemma {:induction false} SourceNamesYoungestWriter(s: State, inp: Input, t: nat, mt: seq<nat>, ws: seq<Write>,
                                                     c: nat, a: nat, first: nat)
    requires t == inp.dpThread && c <= |inp.rds| && a < |mt| && mt[0] == 0
    requires HasTag(ws, a, first, mt[a])
    ensures HasTag(ws + Dispatches(s, inp, t)[..c], a, first, ReadTag(mt, DispatchWrites(s.fl, inp.rds), c, a))
  {
    hide HasTag, ReadTag, DispatchTag, DispatchWrites;
    var more := Dispatches(s, inp, t);
    if c == 0 {
      ReadTagStart(mt, DispatchWrites(s.fl, inp.rds), a);
      assert ws + more[..0] == ws;
    } else {
      SourceNamesYoungestWriter(s, inp, t, mt, ws, c - 1, a, first);
      HasTagAppend(ws + more[..c - 1], more[c - 1], a, first,
                   ReadTag(mt, DispatchWrites(s.fl, inp.rds), c - 1, a));
      ReadTagNext(s.fl, inp.rds, mt, c, a);
      assert ws + more[..c] == (ws + more[..c - 1]) + [more[c - 1]];
    }
  }
}
