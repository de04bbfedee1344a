/** What the renaming hardware guarantees: the clock edge equals single-instruction
    steps, and no run ever loses or duplicates a physical tag. */
module RenameTheorems {

  import opened CoreConfig
  import opened PriorityEncoder
  import opened FreeList
  import opened MapTables
  import opened RenameMachine
  import opened RenameClock

  // ---- the edge equals the steps -------------------------------------------------

  /** After dispatch: the intermediate state of the sequential cycle. */
  function Dispatched(s: State, inp: Input): State {
    RenameGroup(s, inp.dpThread, inp.rds, |inp.rds|)
  }

  ghost predicate DispatchedOk(cfg: Config, s: State, d: State, inp: Input) {
    && Allowed(cfg, s, inp) && EntriesOk(cfg, s.fl) && s.avail >= 0
    && GroupEffect(s, d, inp.dpThread, inp.rds, |inp.rds|)
    && d.avail == s.avail - Route(inp.rds, |inp.rds|)
  }

  lemma DispatchKeepsQueues(cfg: Config, s: State, d: State, inp: Input)
    requires DispatchedOk(cfg, s, d, inp)
    ensures RetiresOwn(cfg, d, inp)
    ensures forall t, k :: 0 <= t < |s.threads| && 0 <= k < inp.rtNum[t] ==>
      RobSlot(d.threads[t].rob, k) == RobSlot(s.threads[t].rob, k)
  {
  }

  /** New queue entries do not disturb what the free list is told. */
  lemma SameRetires(cfg: Config, s: State, d: State, inp: Input, t: nat, e: FlEntry)
    requires DispatchedOk(cfg, s, d, inp) && t < |s.threads|
    ensures Retired(e, FlInputs(cfg, d, inp)[t], cfg.rtNum) == Retired(e, FlInputs(cfg, s, inp)[t], cfg.rtNum)
    ensures RealRetires(FlInputs(cfg, d, inp)[t], cfg.rtNum) == RealRetires(FlInputs(cfg, s, inp)[t], cfg.rtNum)
  {
    DispatchKeepsQueues(cfg, s, d, inp);
    var a, b := FlInputs(cfg, d, inp)[t], FlInputs(cfg, s, inp)[t];
    RetiredPrefix(e, a, a, inp.rtNum[t], cfg.rtNum);
    RetiredPrefix(e, a, b, inp.rtNum[t], cfg.rtNum);
  }

  lemma {:induction false} TakenCounts(rob: seq<RobEntry>, k: nat)
    requires k < |rob| && rob[k].tag != 0
    ensures Taken(rob, rob[k].tag) > 0
  {
    if k > 0 {
      TakenCounts(rob[1..], k - 1);
    }
  }

  lemma QueueTagNotFree(cfg: Config, s: State, t: nat, k: nat, i: nat)
    requires Inv(cfg, s) && t < |s.threads| && k < |s.threads[t].rob|
    requires i < |s.fl| && s.fl[i].valid
    ensures s.threads[t].rob[k].tag != s.fl[i].tag
  {
    var x := s.threads[t].rob[k].tag;
    TagsDistinct(cfg, s, i, i);
    if x == s.fl[i].tag {
      TakenCounts(s.threads[t].rob, k);
      assert FlightOk(s, t);
      var j := FindFlying(s.fl, t, x, |s.fl|);
      TagsDistinct(cfg, s, i, j);
    }
  }

  /** No retiring instruction carries the tag of an available entry. */
  lemma {:induction false} FreshNotRetired(cfg: Config, s: State, t: nat, n: nat, i: nat, e: FlEntry, m: nat)
    requires Inv(cfg, s) && t < |s.threads| && n <= |s.threads[t].rob| && m <= cfg.rtNum
    requires i < |s.fl| && s.fl[i].valid && e.tag == s.fl[i].tag
    ensures Retired(e, RobToFl(s.threads[t].rob, cfg.rtNum, n), m) == e
  {
    if m > 0 {
      FreshNotRetired(cfg, s, t, n, i, e, m - 1);
      if m - 1 < n {
        QueueTagNotFree(cfg, s, t, m - 1, i);
      }
    }
  }

  lemma EntryAgrees(cfg: Config, s: State, d: State, inp: Input, i: nat)
    requires Inv(cfg, s) && DispatchedOk(cfg, s, d, inp) && i < |s.fl|
    ensures StepsEntry(d.fl[i], inp.brMis, FlInputs(cfg, d, inp), cfg.threads)
         == NextEntry(s.fl[i], inp.brMis, FlInputs(cfg, s, inp),
                      Selected(cfg, s.fl, DpInput(cfg, inp), i), inp.dpThread)
  {
    var e := d.fl[i];
    SameRetires(cfg, s, d, inp, e.thread, e);
    if s.fl[i].valid && !e.valid {
      FreshNotRetired(cfg, s, inp.dpThread, inp.rtNum[inp.dpThread], i, e, cfg.rtNum);
    }
  }

  lemma CommitAgrees(cfg: Config, s: State, d: State, inp: Input, t: nat)
    requires DispatchedOk(cfg, s, d, inp) && t < |s.threads|
    ensures d.threads[t].amt == s.threads[t].amt
    ensures var a := RobToAmt(d.threads[t].rob, cfg.rtNum, inp.rtNum[t]);
            var b := RobToAmt(s.threads[t].rob, cfg.rtNum, inp.rtNum[t]);
            Overwritten(s.threads[t].amt, a, cfg.rtNum) == Overwritten(s.threads[t].amt, b, cfg.rtNum)
  {
    DispatchKeepsQueues(cfg, s, d, inp);
    var a := RobToAmt(d.threads[t].rob, cfg.rtNum, inp.rtNum[t]);
    var b := RobToAmt(s.threads[t].rob, cfg.rtNum, inp.rtNum[t]);
    var amt := s.threads[t].amt;
    forall r | 0 <= r < |amt|
      ensures Latest(amt[r], r, a, cfg.rtNum) == Latest(amt[r], r, b, cfg.rtNum)
    {
      LatestPrefix(amt[r], r, a, a, inp.rtNum[t], cfg.rtNum);
      LatestPrefix(amt[r], r, a, b, inp.rtNum[t], cfg.rtNum);
    }
  }

  /** Register 0 is never renamed, so fixing it makes no difference. */
  lemma MapAgrees(mt: seq<nat>, fl: seq<FlEntry>, rds: seq<nat>)
    requires 0 < |mt| && mt[0] == 0
    ensures NextMt(mt, DispatchWrites(fl, rds)) == Overwritten(mt, DispatchWrites(fl, rds), |rds|)
  {
    ZeroStaysZero(mt, fl, rds, |rds|);
  }

  lemma ThreadAgrees(cfg: Config, s: State, d: State, inp: Input, t: nat)
    requires DispatchedOk(cfg, s, d, inp) && t < |s.threads|
    requires forall u :: 0 <= u < |s.threads| ==> |s.threads[u].mt| == cfg.Arch()
    requires 0 < |s.threads[t].mt| && s.threads[t].mt[0] == 0
    ensures inp.rtNum[t] <= |d.threads[t].rob|
    ensures AfterCycle(cfg, d.threads[t], inp.rtNum[t], inp.brMis[t])
         == NextThread(cfg, s.fl, s.threads[t], inp.brMis[t], inp.rtNum[t],
                       if t == inp.dpThread then inp.rds else [])
  {
    var n := inp.rtNum[t];
    var rds := if t == inp.dpThread then inp.rds else [];
    DispatchKeepsQueues(cfg, s, d, inp);
    CommitAgrees(cfg, s, d, inp, t);
    MapAgrees(s.threads[t].mt, s.fl, rds);
    assert d.threads[t].rob == s.threads[t].rob + DispatchRobs(s.fl, s.threads[t].mt, rds, |rds|);
    assert d.threads[t].rob[n..] == s.threads[t].rob[n..] + DispatchRobs(s.fl, s.threads[t].mt, rds, |rds|);
  }

  lemma NoFlightChange(cfg: Config, s: State, d: State, inp: Input, t: nat)
    requires DispatchedOk(cfg, s, d, inp) && t < |s.threads| && inp.brMis[t]
    ensures InFlight(d.fl, t, |d.fl|) == InFlight(s.fl, t, |s.fl|)
  {
    InFlightSame(d.fl, s.fl, t, |s.fl|);
  }

  lemma {:induction false} GatheredAgrees(cfg: Config, s: State, d: State, inp: Input, k: nat)
    requires DispatchedOk(cfg, s, d, inp) && k <= cfg.threads && d.avail >= 0
    ensures |d.threads| == |s.threads|
    ensures Gathered(d.avail, d.fl, inp.brMis, FlInputs(cfg, d, inp), k)
         == Gathered(s.avail, s.fl, inp.brMis, FlInputs(cfg, s, inp), k) - Route(inp.rds, |inp.rds|)
  {
    if k > 0 {
      GatheredAgrees(cfg, s, d, inp, k - 1);
      if inp.brMis[k - 1] {
        NoFlightChange(cfg, s, d, inp, k - 1);
      } else {
        SameRetires(cfg, s, d, inp, k - 1, FlEntry(0, true, 0));
      }
    }
  }

  lemma InvIsWellFormed(cfg: Config, s: State, inp: Input)
    requires Inv(cfg, s) && Offered(cfg, s, inp)
    ensures WellFormed(cfg, s, inp)
    ensures forall t :: 0 <= t < |s.threads| ==> 0 < |s.threads[t].mt| == cfg.Arch() && s.threads[t].mt[0] == 0
  {
    forall t | 0 <= t < |s.threads|
      ensures 0 < |s.threads[t].mt| == cfg.Arch() && s.threads[t].mt[0] == 0
    {
      ReplayZero(s.threads[t].amt, s.threads[t].rob);
    }
  }

  lemma EntriesAgree(cfg: Config, s: State, d: State, r: State, inp: Input)
    requires Inv(cfg, s) && WellFormed(cfg, s, inp) && DispatchedOk(cfg, s, d, inp) && d.avail >= 0
    requires RetiresOwn(cfg, d, inp) && StepsEffect(cfg, d, r, inp, cfg.threads)
    ensures NextEntries(cfg, s.fl, inp.brMis, DpInput(cfg, inp), FlInputs(cfg, s, inp)) == r.fl
  {
    forall i | 0 <= i < |s.fl|
      ensures NextEntry(s.fl[i], inp.brMis, FlInputs(cfg, s, inp),
                        Selected(cfg, s.fl, DpInput(cfg, inp), i), inp.dpThread) == r.fl[i]
    {
      EntryAgrees(cfg, s, d, inp, i);
    }
  }

  lemma ThreadsAgree(cfg: Config, s: State, d: State, r: State, inp: Input)
    requires WellFormed(cfg, s, inp) && DispatchedOk(cfg, s, d, inp) && d.avail >= 0
    requires forall t :: 0 <= t < |s.threads| ==> 0 < |s.threads[t].mt| == cfg.Arch() && s.threads[t].mt[0] == 0
    requires RetiresOwn(cfg, d, inp) && StepsEffect(cfg, d, r, inp, cfg.threads)
    ensures Clock(cfg, s, inp).threads == r.threads
  {
    forall t | 0 <= t < |s.threads| ensures Clock(cfg, s, inp).threads[t] == r.threads[t] {
      ThreadAgrees(cfg, s, d, inp, t);
    }
  }

  lemma CountInRange(cfg: Config, r: State)
    requires EntriesOk(cfg, r.fl) && AvailOk(r)
    ensures 0 <= r.avail <= cfg.FlEntries() && Wrap(r.avail, cfg.FlCounterRange()) == r.avail
  {
    CounterFits(cfg, r.avail);
  }

  /** The counter's sum stays in its range, so nothing wraps. */
  lemma CounterAgrees(cfg: Config, s: State, d: State, r: State, inp: Input)
    requires WellFormed(cfg, s, inp) && DispatchedOk(cfg, s, d, inp) && d.avail >= 0
    requires RetiresOwn(cfg, d, inp) && StepsEffect(cfg, d, r, inp, cfg.threads)
    requires Wrap(r.avail, cfg.FlCounterRange()) == r.avail
    ensures Gathered(s.avail, s.fl, inp.brMis, FlInputs(cfg, s, inp), cfg.threads) - Route(inp.rds, |inp.rds|)
         == r.avail
    ensures NextAvail(cfg, s.avail, s.fl, inp.brMis, DpInput(cfg, inp), FlInputs(cfg, s, inp)) == r.avail
  {
    GatheredAgrees(cfg, s, d, inp, cfg.threads);
  }

  /** The superscalar edge, with its same-cycle dispatch, retirement and rollback in
      all threads and its fixed-width counter, does exactly what the instructions do
      one after the other. */
  lemma ClockIsSequential(cfg: Config, s: State, inp: Input)
    requires Inv(cfg, s) && Allowed(cfg, s, inp)
    ensures WellFormed(cfg, s, inp)
    ensures Clock(cfg, s, inp) == Sequential(s, inp) && Inv(cfg, Clock(cfg, s, inp))
  {
    InvIsWellFormed(cfg, s, inp);
    var d := Dispatched(s, inp);
    GroupIs(cfg, s, inp.dpThread, inp.rds, |inp.rds|);
    DispatchKeepsQueues(cfg, s, d, inp);
    StepsAre(cfg, d, inp, cfg.threads);
    var r := Sequential(s, inp);
    EntriesAgree(cfg, s, d, r, inp);
    ThreadsAgree(cfg, s, d, r, inp);
    CountInRange(cfg, r);
    CounterAgrees(cfg, s, d, r, inp);
  }

  // ---- whole runs ----------------------------------------------------------------

  function ResetState(cfg: Config): State
    requires cfg.Valid()
  {
    State(ResetEntries(cfg), cfg.FlEntries(),
          seq(cfg.threads, t requires 0 <= t => Thread(ResetMap(cfg, t), ResetMt(cfg, t), [])))
  }

  /** `r` is the state after the given cycles, each of which the environment allows. */
  ghost predicate Runs(cfg: Config, s: State, inputs: seq<Input>, r: State)
    decreases |inputs|
  {
    if inputs == [] then r == s
    else WellFormed(cfg, s, inputs[0]) && Allowed(cfg, s, inputs[0])
         && Runs(cfg, Clock(cfg, s, inputs[0]), inputs[1..], r)
  }

  lemma {:induction false} ResetHeld(cfg: Config, x: nat, m: nat)
    requires cfg.Valid() && m <= cfg.FlEntries()
    ensures Held(ResetEntries(cfg), x, m) == One(cfg.Committed() + 1 <= x < cfg.Committed() + 1 + m)
  {
    ResetStart(cfg);
    if m > 0 {
      ResetHeld(cfg, x, m - 1);
    }
  }

  lemma {:induction false} ResetMapped(cfg: Config, t: nat, x: nat, m: nat)
    requires m < cfg.Arch()
    ensures t * (cfg.Arch() - 1) >= 0
    ensures Mapped(ResetMap(cfg, t), x, m) == One(t * (cfg.Arch() - 1) + 1 <= x <= t * (cfg.Arch() - 1) + m)
  {
    ResetTagRange(cfg, t, m);
    if m > 0 {
      ResetMapped(cfg, t, x, m - 1);
    }
  }

  lemma {:induction false} ResetCommitted(cfg: Config, x: nat, k: nat)
    requires cfg.Valid() && k <= cfg.threads
    ensures k * (cfg.Arch() - 1) >= 0
    ensures Committed(ResetState(cfg).threads, x, k) == One(1 <= x <= k * (cfg.Arch() - 1))
  {
    if k > 0 {
      ResetCommitted(cfg, x, k - 1);
      ResetMapped(cfg, k - 1, x, cfg.Arch() - 1);
      assert k * (cfg.Arch() - 1) == (k - 1) * (cfg.Arch() - 1) + (cfg.Arch() - 1);
    }
  }

  lemma {:induction false} ResetAvailable(cfg: Config, m: nat)
    requires cfg.Valid() && m <= cfg.FlEntries()
    ensures Count(Valids(ResetEntries(cfg)), m) == m
  {
    if m > 0 {
      ResetAvailable(cfg, m - 1);
    }
  }

  lemma {:induction false} ResetFlying(cfg: Config, t: nat, x: nat, m: nat)
    requires cfg.Valid() && m <= cfg.FlEntries()
    ensures Flying(ResetEntries(cfg), t, x, m) == 0
  {
    if m > 0 {
      ResetFlying(cfg, t, x, m - 1);
    }
  }

  /** After reset every tag has one holder, whatever the speculative maps contain. */
  lemma ResetConserves(cfg: Config)
    requires cfg.Valid()
    ensures Conserved(cfg, ResetState(cfg))
  {
    forall x: nat ensures Holders(ResetState(cfg), x) == One(1 <= x < cfg.phys) {
      ResetHeld(cfg, x, cfg.FlEntries());
      ResetCommitted(cfg, x, cfg.threads);
    }
  }

  /** The reset layouts of free list and maps fit together exactly if both map resets agree. */
  lemma ResetIsSafe(cfg: Config)
    requires cfg.Valid()
    ensures Inv(cfg, ResetState(cfg)) <==> SameResets(cfg)
  {
    var s := ResetState(cfg);
    ResetConserves(cfg);
    ResetAvailable(cfg, cfg.FlEntries());
    forall t, x: nat | 0 <= t < |s.threads|
      ensures Flying(s.fl, t, x, |s.fl|) == Taken(s.threads[t].rob, x)
    {
      ResetFlying(cfg, t, x, |s.fl|);
    }
    SameResetsIff(cfg);
    forall t | 0 <= t < |s.threads|
      ensures ThreadOk(cfg.Arch(), s.threads[t]) <==> ResetMt(cfg, t) == ResetMap(cfg, t)
    {
      ResetTagRange(cfg, t, 0);
    }
  }

  lemma {:induction false} RunKeeps(cfg: Config, s: State, inputs: seq<Input>, r: State)
    requires Inv(cfg, s) && Runs(cfg, s, inputs, r)
    ensures Inv(cfg, r)
    decreases |inputs|
  {
    if inputs != [] {
      ClockIsSequential(cfg, s, inputs[0]);
      RunKeeps(cfg, Clock(cfg, s, inputs[0]), inputs[1..], r);
    }
  }

  /** In every state of every run from reset, each physical tag except 0 has exactly
      one holder, a free list entry or a committed register; and the counter equals
      the number of available entries. */
  lemma NoTagLostOrDuplicated(cfg: Config, inputs: seq<Input>, r: State)
    requires cfg.Valid() && SameResets(cfg) && Runs(cfg, ResetState(cfg), inputs, r)
    ensures forall x: nat :: Holders(r, x) == One(1 <= x < cfg.phys)
    ensures r.avail == Total(Valids(r.fl))
  {
    ResetIsSafe(cfg);
    RunKeeps(cfg, ResetState(cfg), inputs, r);
  }

  lemma {:induction false} OldTagAt(amt: seq<nat>, rob: seq<RobEntry>, k: nat)
    requires RobOk(|amt|, rob) && OldTagsOk(amt, rob) && k < |rob|
    ensures rob[k].tagOld == Replay(amt, rob[..k])[rob[k].rd]
    decreases |rob|
  {
    if k > 0 {
      OldTagAt(amt[rob[0].rd := rob[0].tag], rob[1..], k - 1);
      assert rob[..k][1..] == rob[1..][..k - 1];
    }
  }

  /** In every state of every run, the speculative map is the committed map with the
      unretired renames replayed, and every rename remembers the tag it overwrites. */
  lemma SpeculativeMapIsReplay(cfg: Config, inputs: seq<Input>, r: State, t: nat, k: nat)
    requires cfg.Valid() && SameResets(cfg) && Runs(cfg, ResetState(cfg), inputs, r) && t < cfg.threads
    ensures |r.threads| == cfg.threads && RobOk(|r.threads[t].amt|, r.threads[t].rob)
    ensures r.threads[t].mt == Replay(r.threads[t].amt, r.threads[t].rob)
    ensures k < |r.threads[t].rob| ==>
      r.threads[t].rob[k].tagOld == Replay(r.threads[t].amt, r.threads[t].rob[..k])[r.threads[t].rob[k].rd]
  {
    ResetIsSafe(cfg);
    RunKeeps(cfg, ResetState(cfg), inputs, r);
    assert ThreadOk(cfg.Arch(), r.threads[t]);
    if k < |r.threads[t].rob| {
      OldTagAt(r.threads[t].amt, r.threads[t].rob, k);
    }
  }

  // ---- one cycle -----------------------------------------------------------------

  /** The counter's sum never leaves its range, so its fixed width loses nothing. */
  lemma CounterNeverWraps(cfg: Config, s: State, inp: Input)
    requires Inv(cfg, s) && Allowed(cfg, s, inp)
    ensures WellFormed(cfg, s, inp)
    ensures var sum :=
              Gathered(s.avail, s.fl, inp.brMis, FlInputs(cfg, s, inp), cfg.threads) - Route(inp.rds, |inp.rds|);
            0 <= sum <= cfg.FlEntries() < cfg.FlCounterRange()
            && sum == Clock(cfg, s, inp).avail == Total(Valids(Clock(cfg, s, inp).fl))
  {
    InvIsWellFormed(cfg, s, inp);
    var d := Dispatched(s, inp);
    GroupIs(cfg, s, inp.dpThread, inp.rds, |inp.rds|);
    DispatchKeepsQueues(cfg, s, d, inp);
    StepsAre(cfg, d, inp, cfg.threads);
    EntriesAgree(cfg, s, d, Sequential(s, inp), inp);
    CountInRange(cfg, Sequential(s, inp));
    CounterAgrees(cfg, s, d, Sequential(s, inp), inp);
  }
}
