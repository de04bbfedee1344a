/** What a single cycle does to the tags: which ones dispatch hands out, what a
    misprediction gives back, and the two situations in which the hardware depends on
    its environment. */
module RenameCycle {

  import opened CoreConfig
  import opened PriorityEncoder
  import opened FreeList
  import opened MapTables
  import opened RenameMachine
  import opened RenameClock
  import opened RenameTheorems

  // ---- dispatch ------------------------------------------------------------------

  lemma {:induction false} RouteMono(rds: seq<nat>, a: nat, b: nat)
    requires a <= b <= |rds|
    ensures Route(rds, a) <= Route(rds, b)
  {
    if a < b {
      RouteMono(rds, a, b - 1);
    }
  }

  lemma {:induction false} RouteHits(rds: seq<nat>, k: nat, m: nat) returns (c: nat)
    requires m <= |rds| && k < Route(rds, m)
    ensures c < m && rds[c] != 0 && Route(rds, c) == k
  {
    if k < Route(rds, m - 1) {
      c := RouteHits(rds, k, m - 1);
    } else {
      c := m - 1;
    }
  }

  /** The free list entry whose tag instruction `c` gets. */
  lemma DispatchIndex(s: State, rds: seq<nat>, c: nat) returns (i: nat)
    requires AvailOk(s) && c < |rds| && rds[c] != 0 && Route(rds, |rds|) <= s.avail
    ensures i < |s.fl| && s.fl[i].valid && Count(Valids(s.fl), i) == Route(rds, c) < Route(rds, |rds|)
    ensures DispatchTag(s.fl, rds, c) == s.fl[i].tag
  {
    RouteMono(rds, c + 1, |rds|);
    ChainIsNth(Valids(s.fl), Route(rds, c));
    i := Nth(Valids(s.fl), Route(rds, c));
  }

  /** Each dispatched instruction with a destination gets an available tag, which the
      edge turns into an in-flight tag of the dispatching thread. */
  lemma DispatchTakesFresh(cfg: Config, s: State, inp: Input, c: nat) returns (i: nat)
    requires Inv(cfg, s) && Allowed(cfg, s, inp) && c < |inp.rds| && inp.rds[c] != 0
    ensures i < |s.fl| && s.fl[i].valid && Count(Valids(s.fl), i) == Route(inp.rds, c)
    ensures DispatchTag(s.fl, inp.rds, c) == s.fl[i].tag
    ensures WellFormed(cfg, s, inp)
    ensures Clock(cfg, s, inp).fl[i] == FlEntry(s.fl[i].tag, false, inp.dpThread)
  {
    InvIsWellFormed(cfg, s, inp);
    i := DispatchIndex(s, inp.rds, c);
  }

  /** Two instructions of a group never share a tag. */
  lemma DispatchTagsDiffer(cfg: Config, s: State, inp: Input, b: nat, c: nat)
    requires Inv(cfg, s) && Allowed(cfg, s, inp) && b < c < |inp.rds|
    requires inp.rds[b] != 0 && inp.rds[c] != 0
    ensures DispatchTag(s.fl, inp.rds, b) != DispatchTag(s.fl, inp.rds, c)
  {
    var i := DispatchIndex(s, inp.rds, b);
    var j := DispatchIndex(s, inp.rds, c);
    RouteMono(inp.rds, b + 1, c);
    TagsDistinct(cfg, s, i, j);
  }

  /** Only tags that were handed out become in-flight. */
  lemma NewFlightsWereDispatched(cfg: Config, s: State, inp: Input, i: nat) returns (c: nat)
    requires Inv(cfg, s) && Allowed(cfg, s, inp) && WellFormed(cfg, s, inp)
    requires i < |s.fl| && s.fl[i].valid && !Clock(cfg, s, inp).fl[i].valid
    ensures c < |inp.rds| && inp.rds[c] != 0 && DispatchTag(s.fl, inp.rds, c) == s.fl[i].tag
  {
    c := RouteHits(inp.rds, Count(Valids(s.fl), i), |inp.rds|);
    var j := DispatchIndex(s, inp.rds, c);
    NthUnique(Valids(s.fl), i, j);
  }

  // ---- in-flight tags ------------------------------------------------------------

  lemma {:induction false} TakenSplit(a: seq<RobEntry>, b: seq<RobEntry>, x: nat)
    ensures Taken(a + b, x) == Taken(a, x) + Taken(b, x)
  {
    if a == [] {
      assert a + b == b;
    } else {
      assert (a + b)[1..] == a[1..] + b;
      TakenSplit(a[1..], b, x);
    }
  }

  /** How a thread's real tags change when `n` instructions leave its queue and `new` enter. */
  lemma QueueAccount(rob: seq<RobEntry>, n: nat, new_: seq<RobEntry>, x: nat)
    requires n <= |rob|
    ensures Taken(rob[n..] + new_, x) + Taken(rob[..n], x) == Taken(rob, x) + Taken(new_, x)
  {
    TakenSplit(rob[..n], rob[n..], x);
    assert rob[..n] + rob[n..] == rob;
    TakenSplit(rob[n..], new_, x);
  }

  /** Exact account of a thread's in-flight tags over a cycle in which it does not
      mispredict: minus what it retires, plus what is dispatched for it.  Other
      threads, mispredicting or not, do not matter. */
  lemma FlightAccount(cfg: Config, s: State, inp: Input, t: nat, x: nat)
    requires Inv(cfg, s) && Allowed(cfg, s, inp) && t < cfg.threads && !inp.brMis[t]
    ensures WellFormed(cfg, s, inp)
    ensures var rds := if t == inp.dpThread then inp.rds else [];
            Flying(Clock(cfg, s, inp).fl, t, x, |s.fl|) + Taken(s.threads[t].rob[..inp.rtNum[t]], x)
            == Flying(s.fl, t, x, |s.fl|) + Taken(DispatchRobs(s.fl, s.threads[t].mt, rds, |rds|), x)
  {
    InvIsWellFormed(cfg, s, inp);
    ClockIsSequential(cfg, s, inp);
    var rds := if t == inp.dpThread then inp.rds else [];
    assert FlightOk(s, t);
    assert FlightOk(Clock(cfg, s, inp), t);
    QueueAccount(s.threads[t].rob, inp.rtNum[t], DispatchRobs(s.fl, s.threads[t].mt, rds, |rds|), x);
  }

  lemma {:induction false} FlyingAtLeast(fl: seq<FlEntry>, t: nat, i: nat, m: nat)
    requires i < m <= |fl| && !fl[i].valid && fl[i].thread == t
    ensures Flying(fl, t, fl[i].tag, m) > 0
  {
    if i < m - 1 {
      FlyingAtLeast(fl, t, i, m - 1);
    }
  }

  lemma EmptyQueueNoFlight(s: State, t: nat, i: nat)
    requires t < |s.threads| && FlightOk(s, t) && s.threads[t].rob == [] && i < |s.fl|
    ensures s.fl[i].valid || s.fl[i].thread != t
  {
    if !s.fl[i].valid && s.fl[i].thread == t {
      FlyingAtLeast(s.fl, t, i, |s.fl|);
    }
  }

  /** After a misprediction the thread owns nothing in flight, its speculative map is
      its committed map, and the bypassed `amt_o` of the cycle is the committed map
      after the edge. */
  lemma SquashGivesBack(cfg: Config, s: State, inp: Input, t: nat)
    requires Inv(cfg, s) && Allowed(cfg, s, inp) && t < cfg.threads && inp.brMis[t]
    ensures WellFormed(cfg, s, inp)
    ensures var r := Clock(cfg, s, inp);
            && (forall i :: 0 <= i < |r.fl| ==> r.fl[i].valid || r.fl[i].thread != t)
            && r.threads[t].rob == [] && r.threads[t].mt == r.threads[t].amt
            && r.threads[t].amt ==
                 AmtOut(s.threads[t].amt, true, RobToAmt(s.threads[t].rob, cfg.rtNum, inp.rtNum[t]))
  {
    ClockIsSequential(cfg, s, inp);
    var r := Clock(cfg, s, inp);
    forall i | 0 <= i < |r.fl| ensures r.fl[i].valid || r.fl[i].thread != t {
      EmptyQueueNoFlight(r, t, i);
    }
  }

  // ---- dispatch for a thread that mispredicts --------------------------------------

  lemma {:induction false} RouteZero(rds: seq<nat>, m: nat)
    requires m <= |rds|
    ensures Route(rds, m) == 0 <==> forall c :: 0 <= c < m ==> rds[c] == 0
  {
    if m > 0 {
      RouteZero(rds, m - 1);
    }
  }

  lemma DropIdleGroup(cfg: Config, s: State, inp: Input)
    requires WellFormed(cfg, s, inp) && inp.brMis[inp.dpThread] && Route(inp.rds, |inp.rds|) == 0
    ensures WellFormed(cfg, s, inp.(rds := [])) && Allowed(cfg, s, inp.(rds := []))
    ensures Clock(cfg, s, inp) == Clock(cfg, s, inp.(rds := []))
  {
    var idle := inp.(rds := []);
    assert FlInputs(cfg, s, inp) == FlInputs(cfg, s, idle);
    assert DpInput(cfg, inp) == DpInput(cfg, idle);
    assert Clock(cfg, s, inp).threads == Clock(cfg, s, idle).threads;
  }

  lemma LeakedEntry(cfg: Config, s: State, inp: Input)
    requires Inv(cfg, s) && WellFormed(cfg, s, inp)
    requires inp.brMis[inp.dpThread] && Route(inp.rds, |inp.rds|) > 0
    ensures !Inv(cfg, Clock(cfg, s, inp))
  {
    var r := Clock(cfg, s, inp);
    var i := Nth(Valids(s.fl), 0);
    assert r.fl[i] == FlEntry(s.fl[i].tag, false, inp.dpThread);
    assert r.threads[inp.dpThread].rob == [];
    if FlightsOk(r) {
      EmptyQueueNoFlight(r, inp.dpThread, i);
    }
  }

  /** The free list alone would leak such tags.  The invariant survives a cycle if and
      only if no tag is taken for a mispredicting thread; the fetch queue's zero
      `avail_num` for that thread is what guarantees it. */
  lemma SafeIffNoTagForSquashed(cfg: Config, s: State, inp: Input)
    requires Inv(cfg, s) && Offered(cfg, s, inp)
    ensures WellFormed(cfg, s, inp)
    ensures Inv(cfg, Clock(cfg, s, inp))
       <==> !(inp.brMis[inp.dpThread] && exists c :: 0 <= c < |inp.rds| && inp.rds[c] != 0)
  {
    InvIsWellFormed(cfg, s, inp);
    RouteZero(inp.rds, |inp.rds|);
    if !inp.brMis[inp.dpThread] {
      ClockIsSequential(cfg, s, inp);
    } else if Route(inp.rds, |inp.rds|) == 0 {
      DropIdleGroup(cfg, s, inp);
      ClockIsSequential(cfg, s, inp.(rds := []));
    } else {
      LeakedEntry(cfg, s, inp);
    }
  }
}
