/** One clock edge of the superscalar, multi-threaded renaming hardware: free list,
    committed maps, speculative maps and reorder queues all read the old state and
    write the new one together.  The edge is shown to have exactly the effect of
    single-instruction steps: first the dispatches, then thread by thread the
    retirements and the misprediction, if any. */
module RenameClock {

  import opened CoreConfig
  import opened PriorityEncoder
  import opened FreeList
  import opened MapTables
  import opened RenameMachine

  /** What happens in a cycle: per thread a misprediction flag and the number of
      retiring instructions; one thread dispatches a group with destination
      registers `rds`. */
  datatype Input = Input(brMis: seq<bool>, rtNum: seq<nat>, dpThread: nat, rds: seq<nat>)

  // ---- wiring -----------------------------------------------------------------

  /** Instructions of the first `c` that need a tag; also the index of the free list
      channel routed to instruction `c`. */
  function Route(rds: seq<nat>, c: nat): (n: nat)
    requires c <= |rds|
    ensures n <= c
  {
    if c == 0 then 0 else Route(rds, c - 1) + (if rds[c - 1] != 0 then 1 else 0)
  }

  /** `fl_dp_o.tag[k]`. */
  function FlTag(fl: seq<FlEntry>, k: nat): nat {
    var i := StageEnc(Valids(fl), k);
    if i < |fl| then fl[i].tag else 0
  }

  function DispatchTag(fl: seq<FlEntry>, rds: seq<nat>, c: nat): nat
    requires c < |rds|
  {
    if rds[c] == 0 then 0 else FlTag(fl, Route(rds, c))
  }

  function DispatchWrites(fl: seq<FlEntry>, rds: seq<nat>): (ws: seq<MapWrite>)
    ensures |ws| == |rds|
  {
    seq(|rds|, c requires 0 <= c < |rds| => MapWrite(true, rds[c], DispatchTag(fl, rds, c)))
  }

  function DispatchRob(fl: seq<FlEntry>, mt: seq<nat>, rds: seq<nat>, c: nat): RobEntry
    requires c < |rds| && rds[c] < |mt|
  {
    RobEntry(rds[c], DispatchTag(fl, rds, c), ReadTag(mt, DispatchWrites(fl, rds), c, rds[c]))
  }

  /** Queue entries of the first `n` instructions of a group. */
  function DispatchRobs(fl: seq<FlEntry>, mt: seq<nat>, rds: seq<nat>, n: nat): (r: seq<RobEntry>)
    requires n <= |rds| && forall c :: 0 <= c < |rds| ==> rds[c] < |mt|
    ensures |r| == n
  {
    seq(n, c requires 0 <= c < n => DispatchRob(fl, mt, rds, c))
  }

  function RobSlot(rob: seq<RobEntry>, k: nat): RobEntry {
    if k < |rob| then rob[k] else RobEntry(0, 0, 0)
  }

  /** `rob_fl_o`: the oldest instructions, `n` of which retire. */
  function RobToFl(rob: seq<RobEntry>, rtNum: nat, n: nat): (r: RobFl)
    ensures |r.tag| == |r.tagOld| == rtNum
  {
    RobFl(n, seq(rtNum, k requires 0 <= k => RobSlot(rob, k).tag),
             seq(rtNum, k requires 0 <= k => RobSlot(rob, k).tagOld))
  }

  /** `rob_amt_o`. */
  function RobToAmt(rob: seq<RobEntry>, rtNum: nat, n: nat): (ws: seq<MapWrite>)
    ensures |ws| == rtNum
  {
    seq(rtNum, k requires 0 <= k => MapWrite(k < n, RobSlot(rob, k).rd, RobSlot(rob, k).tag))
  }

  function FlInputs(cfg: Config, s: State, inp: Input): (r: seq<RobFl>)
    requires |inp.rtNum| == |s.threads|
    ensures |r| == |s.threads|
  {
    seq(|s.threads|, t requires 0 <= t < |s.threads| =>
      RobToFl(s.threads[t].rob, cfg.rtNum, inp.rtNum[t]))
  }

  function DpInput(cfg: Config, inp: Input): DpFl {
    DpFl(Route(inp.rds, |inp.rds|), seq(cfg.dpNum, _ => inp.dpThread))
  }

  /** What dispatch and reorder buffers guarantee about a cycle: dispatch takes no
      more tags than offered, retirement only what the queues hold. */
  ghost predicate Offered(cfg: Config, s: State, inp: Input) {
    && |inp.brMis| == |inp.rtNum| == |s.threads| == cfg.threads
    && (forall t :: 0 <= t < |s.threads| ==>
          inp.rtNum[t] <= cfg.rtNum && inp.rtNum[t] <= |s.threads[t].rob|)
    && inp.dpThread < cfg.threads
    && |inp.rds| <= cfg.dpNum
    && (forall c :: 0 <= c < |inp.rds| ==> inp.rds[c] < cfg.Arch())
    && Route(inp.rds, |inp.rds|) <= s.avail
  }

  /** Moreover the fetch queue offers nothing from a thread that mispredicts. */
  ghost predicate Allowed(cfg: Config, s: State, inp: Input) {
    Offered(cfg, s, inp) && (inp.brMis[inp.dpThread] ==> inp.rds == [])
  }

  // ---- the clock edge ---------------------------------------------------------

  function NextThread(cfg: Config, fl: seq<FlEntry>, th: Thread, brMis: bool, n: nat, rds: seq<nat>): Thread
    requires n <= |th.rob| && forall c :: 0 <= c < |rds| ==> rds[c] < |th.mt|
  {
    var ws := RobToAmt(th.rob, cfg.rtNum, n);
    Thread(Overwritten(th.amt, ws, |ws|),
           if brMis then AmtOut(th.amt, true, ws) else NextMt(th.mt, DispatchWrites(fl, rds)),
           if brMis then []
           else th.rob[n..] + DispatchRobs(fl, th.mt, rds, |rds|))
  }

  ghost predicate WellFormed(cfg: Config, s: State, inp: Input) {
    && EntriesOk(cfg, s.fl)
    && (forall t :: 0 <= t < |s.threads| ==> |s.threads[t].mt| == cfg.Arch())
    && s.avail >= 0
    && Offered(cfg, s, inp)
  }

  /** All registers after the edge. */
  ghost function Clock(cfg: Config, s: State, inp: Input): State
    requires WellFormed(cfg, s, inp)
  {
    State(NextEntries(cfg, s.fl, inp.brMis, DpInput(cfg, inp), FlInputs(cfg, s, inp)),
          NextAvail(cfg, s.avail, s.fl, inp.brMis, DpInput(cfg, inp), FlInputs(cfg, s, inp)),
          seq(|s.threads|, t requires 0 <= t < |s.threads| =>
            NextThread(cfg, s.fl, s.threads[t], inp.brMis[t], inp.rtNum[t],
                       if t == inp.dpThread then inp.rds else [])))
  }

  // ---- the same effect, one instruction at a time ------------------------------
  // A step whose guard fails would be skipped; `ClockIsSequential` shows that none is.

  /** Dispatch of the first `n` instructions of a group. */
  function RenameGroup(s: State, t: nat, rds: seq<nat>, n: nat): State
    requires n <= |rds|
  {
    if n == 0 then s
    else
      var p := RenameGroup(s, t, rds, n - 1);
      if RenameReady(p, t, rds[n - 1]) then Rename(p, t, rds[n - 1]) else p
  }

  /** Retirement of thread `t`'s `n` oldest instructions. */
  function RetireMany(s: State, t: nat, n: nat): State {
    if n == 0 then s
    else
      var p := RetireMany(s, t, n - 1);
      if RetireReady(p, t) then Retire(p, t) else p
  }

  /** A whole cycle of thread `t` apart from dispatch. */
  function ThreadStep(s: State, t: nat, n: nat, brMis: bool): State {
    var p := RetireMany(s, t, n);
    if brMis && t < |p.threads| then Squash(p, t) else p
  }

  ghost predicate RetiresOwn(cfg: Config, s: State, inp: Input) {
    && |inp.brMis| == |inp.rtNum| == |s.threads| == cfg.threads
    && forall t :: 0 <= t < |s.threads| ==>
         inp.rtNum[t] <= cfg.rtNum && inp.rtNum[t] <= |s.threads[t].rob|
  }

  /** The first `k` threads, one after the other. */
  function ThreadSteps(s: State, inp: Input, k: nat): State
    requires k <= |inp.rtNum| == |inp.brMis|
  {
    if k == 0 then s
    else ThreadStep(ThreadSteps(s, inp, k - 1), k - 1, inp.rtNum[k - 1], inp.brMis[k - 1])
  }

  /** The whole cycle, one instruction at a time. */
  function Sequential(s: State, inp: Input): State
    requires |inp.rtNum| == |inp.brMis|
  {
    ThreadSteps(RenameGroup(s, inp.dpThread, inp.rds, |inp.rds|), inp, |inp.rtNum|)
  }

  // ---- dispatch: the group equals its instructions ------------------------------

  /** The lowest `k` available entries have been handed to thread `t`. */
  ghost predicate HandedOut(fl: seq<FlEntry>, r: seq<FlEntry>, t: nat, k: nat) {
    |r| == |fl| &&
    forall i :: 0 <= i < |fl| ==>
      r[i] == if fl[i].valid && Count(Valids(fl), i) < k then fl[i].(valid := false, thread := t) else fl[i]
  }

  /** What is left after handing out `k` entries is the input of encoder stage `k`. */
  lemma LeftIsStage(fl: seq<FlEntry>, r: seq<FlEntry>, t: nat, k: nat)
    requires HandedOut(fl, r, t, k)
    ensures Valids(r) == StageBits(Valids(fl), k)
  {
    StageBitsAre(Valids(fl), k);
  }

  lemma HandOutOne(fl: seq<FlEntry>, r: seq<FlEntry>, t: nat, k: nat, n: nat)
    requires HandedOut(fl, r, t, k) && n < |fl| && fl[n].valid && Count(Valids(fl), n) == k
    ensures HandedOut(fl, r[n := r[n].(valid := false, thread := t)], t, k + 1)
  {
    forall i | 0 <= i < |fl| && fl[i].valid && Count(Valids(fl), i) == k ensures i == n {
      NthUnique(Valids(fl), i, n);
    }
  }

  lemma HandOutNext(fl: seq<FlEntry>, r: seq<FlEntry>, t: nat, k: nat)
    requires HandedOut(fl, r, t, k) && Any(Valids(r))
    ensures Lowest(Valids(r)) == StageEnc(Valids(fl), k) < |fl|
    ensures r[Lowest(Valids(r))] == fl[StageEnc(Valids(fl), k)]
    ensures HandedOut(fl, r[Lowest(Valids(r)) := r[Lowest(Valids(r))].(valid := false, thread := t)], t, k + 1)
  {
    LeftIsStage(fl, r, t, k);
    ChainIsNth(Valids(fl), k);
    HandOutOne(fl, r, t, k, Nth(Valids(fl), k));
  }

  /** Effect of the first `n` dispatches on everything but the counter. */
  ghost predicate GroupEffect(s: State, r: State, t: nat, rds: seq<nat>, n: nat)
    requires n <= |rds| && t < |s.threads|
  {
    var th := s.threads[t];
    && (forall c :: 0 <= c < |rds| ==> rds[c] < |th.mt|)
    && HandedOut(s.fl, r.fl, t, Route(rds, n))
    && |r.threads| == |s.threads|
    && (forall u :: 0 <= u < |s.threads| && u != t ==> r.threads[u] == s.threads[u])
    && r.threads[t] == Thread(th.amt, Overwritten(th.mt, DispatchWrites(s.fl, rds), n),
         th.rob + DispatchRobs(s.fl, th.mt, rds, n))
  }

  lemma {:induction false} ZeroStaysZero(mt: seq<nat>, fl: seq<FlEntry>, rds: seq<nat>, n: nat)
    requires n <= |rds| && 0 < |mt| && mt[0] == 0
    ensures Latest(mt[0], 0, DispatchWrites(fl, rds), n) == 0
  {
    if n > 0 {
      ZeroStaysZero(mt, fl, rds, n - 1);
    }
  }

  lemma GroupMap(fl: seq<FlEntry>, mt: seq<nat>, rds: seq<nat>, n: nat)
    requires 0 < n <= |rds| && 0 < |mt| && mt[0] == 0 && rds[n - 1] < |mt|
    ensures var ws := DispatchWrites(fl, rds);
      && Overwritten(mt, ws, n - 1)[rds[n - 1]] == ReadTag(mt, ws, n - 1, rds[n - 1])
      && Overwritten(mt, ws, n) == Overwritten(mt, ws, n - 1)[rds[n - 1] := DispatchTag(fl, rds, n - 1)]
  {
    OverwriteStep(mt, DispatchWrites(fl, rds), n - 1);
    ZeroStaysZero(mt, fl, rds, n - 1);
  }

  lemma GroupQueue(fl: seq<FlEntry>, mt: seq<nat>, rds: seq<nat>, n: nat, rob: seq<RobEntry>)
    requires 0 < n <= |rds| && forall c :: 0 <= c < |rds| ==> rds[c] < |mt|
    ensures rob + DispatchRobs(fl, mt, rds, n)
         == (rob + DispatchRobs(fl, mt, rds, n - 1)) + [DispatchRob(fl, mt, rds, n - 1)]
  {
  }

  lemma GroupStep(s: State, p: State, t: nat, rds: seq<nat>, n: nat)
    requires 0 < n <= |rds| && t < |s.threads| && GroupEffect(s, p, t, rds, n - 1)
    requires CanRename(p, t, rds[n - 1]) && 0 < |s.threads[t].mt| && s.threads[t].mt[0] == 0
    ensures GroupEffect(s, Rename(p, t, rds[n - 1]), t, rds, n)
  {
    hide HandedOut, Overwritten, DispatchRobs, ReadTag, Lowest, Valids, StageEnc;
    var mt := s.threads[t].mt;
    if rds[n - 1] != 0 {
      HandOutNext(s.fl, p.fl, t, Route(rds, n - 1));
    }
    GroupMap(s.fl, mt, rds, n);
    GroupQueue(s.fl, mt, rds, n, s.threads[t].rob);
  }

  lemma {:induction false} ReplayZero(amt: seq<nat>, rob: seq<RobEntry>)
    requires RobOk(|amt|, rob) && 0 < |amt| && amt[0] == 0
    ensures Replay(amt, rob)[0] == 0
    decreases |rob|
  {
    if rob != [] {
      ReplayZero(amt[rob[0].rd := rob[0].tag], rob[1..]);
    }
  }

  lemma {:induction false} GroupIs(cfg: Config, s: State, t: nat, rds: seq<nat>, n: nat)
    requires Inv(cfg, s) && t < cfg.threads && n <= |rds|
    requires forall c :: 0 <= c < |rds| ==> rds[c] < cfg.Arch()
    requires Route(rds, n) <= s.avail
    ensures Inv(cfg, RenameGroup(s, t, rds, n))
    ensures RenameGroup(s, t, rds, n).avail == s.avail - Route(rds, n)
    ensures GroupEffect(s, RenameGroup(s, t, rds, n), t, rds, n)
  {
    assert ThreadOk(cfg.Arch(), s.threads[t]);
    if n == 0 {
      assert Overwritten(s.threads[t].mt, DispatchWrites(s.fl, rds), 0) == s.threads[t].mt;
    } else {
      GroupIs(cfg, s, t, rds, n - 1);
      var p := RenameGroup(s, t, rds, n - 1);
      RenameKeeps(cfg, p, t, rds[n - 1]);
      ReplayZero(s.threads[t].amt, s.threads[t].rob);
      GroupStep(s, p, t, rds, n);
    }
  }

  // ---- retirement: the channels equal their instructions ------------------------

  /** Effect of thread `t`'s first `n` retirements. */
  ghost predicate RetireEffect(s: State, r: State, t: nat, rob: RobFl, ws: seq<MapWrite>, n: nat)
    requires n <= |rob.tag| == |rob.tagOld| && n <= |ws| && t < |s.threads| && n <= |s.threads[t].rob|
  {
    && |r.fl| == |s.fl| && |r.threads| == |s.threads|
    && (forall i :: 0 <= i < |s.fl| ==>
          r.fl[i] == if !s.fl[i].valid && s.fl[i].thread == t then Retired(s.fl[i], rob, n) else s.fl[i])
    && (forall u :: 0 <= u < |s.threads| && u != t ==> r.threads[u] == s.threads[u])
    && r.threads[t] == Thread(Overwritten(s.threads[t].amt, ws, n), s.threads[t].mt, s.threads[t].rob[n..])
    && r.avail == s.avail + RealRetires(rob, n)
    && InFlight(r.fl, t, |r.fl|) + RealRetires(rob, n) == InFlight(s.fl, t, |s.fl|)
  }

  lemma {:induction false} RetiredIsValid(e: FlEntry, rob: RobFl, n: nat)
    requires n <= |rob.tag| == |rob.tagOld|
    ensures Retired(e, rob, n).valid || Retired(e, rob, n) == e
  {
    if n > 0 {
      RetiredIsValid(e, rob, n - 1);
    }
  }

  lemma {:induction false} InFlightUpdate(fl: seq<FlEntry>, i: nat, e: FlEntry, t: nat, m: nat)
    requires i < |fl| && m <= |fl| && !fl[i].valid && fl[i].thread == t && e.valid
    ensures InFlight(fl[i := e], t, m) == InFlight(fl, t, m) - One(i < m)
  {
    if m > 0 {
      InFlightUpdate(fl, i, e, t, m - 1);
    }
  }

  lemma RetireZeroChannel(cfg: Config, s: State, p: State, t: nat, rob: RobFl, ws: seq<MapWrite>, n: nat)
    requires Conserved(cfg, s) && Conserved(cfg, p) && t < |s.threads| && n < |s.threads[t].rob|
    requires n < rob.rtNum <= |rob.tag| == |rob.tagOld| && n < |ws| && RetireEffect(s, p, t, rob, ws, n)
    requires RetireReady(p, t) && p.threads[t].rob[0].tag == rob.tag[n] == 0
    ensures RetireEntries(p.fl, t, p.threads[t].rob[0]) == p.fl
    ensures forall i :: 0 <= i < |s.fl| ==> Retired(s.fl[i], rob, n + 1) == Retired(s.fl[i], rob, n)
  {
    RetireTouchesNone(cfg, p, t, p.threads[t].rob[0]);
    forall i | 0 <= i < |s.fl| ensures s.fl[i].tag != 0 {
      TagsDistinct(cfg, s, i, i);
    }
  }

  /** A retirement of a real tag changes the one entry that its channel matches. */
  lemma RetireChannel(cfg: Config, s: State, p: State, t: nat, rob: RobFl, n: nat, j: nat)
    requires 0 < n <= |rob.tag| == |rob.tagOld| && n <= rob.rtNum && t < |s.threads|
    requires Conserved(cfg, s) && RetiresEntry(p, t, j) && |p.fl| == |s.fl|
    requires p.threads[t].rob[0].tag == rob.tag[n - 1] && p.threads[t].rob[0].tagOld == rob.tagOld[n - 1]
    requires forall i :: 0 <= i < |s.fl| ==>
      p.fl[i] == if !s.fl[i].valid && s.fl[i].thread == t then Retired(s.fl[i], rob, n - 1) else s.fl[i]
    ensures forall i :: 0 <= i < |s.fl| ==>
      Retire(p, t).fl[i] == if !s.fl[i].valid && s.fl[i].thread == t then Retired(s.fl[i], rob, n) else s.fl[i]
    ensures InFlight(Retire(p, t).fl, t, |p.fl|) == InFlight(p.fl, t, |p.fl|) - 1
  {
    RetiredIsValid(s.fl[j], rob, n - 1);
    forall i | 0 <= i < |s.fl| && i != j ensures s.fl[i].tag != rob.tag[n - 1] {
      TagsDistinct(cfg, s, i, j);
    }
    InFlightUpdate(p.fl, j, FlEntry(rob.tagOld[n - 1], true, 0), t, |p.fl|);
  }

  lemma RetireStep(cfg: Config, s: State, p: State, t: nat, rob: RobFl, ws: seq<MapWrite>, n: nat)
    requires Conserved(cfg, s) && Conserved(cfg, p) && FlightsOk(p)
    requires t < |s.threads| && n < |s.threads[t].rob|
    requires n < rob.rtNum <= |rob.tag| == |rob.tagOld| && n < |ws|
    requires rob.tag[n] == s.threads[t].rob[n].tag && rob.tagOld[n] == s.threads[t].rob[n].tagOld
    requires ws[n] == MapWrite(true, s.threads[t].rob[n].rd, s.threads[t].rob[n].tag)
    requires RetireEffect(s, p, t, rob, ws, n) && CanRetire(p, t)
    ensures RetireEffect(s, Retire(p, t), t, rob, ws, n + 1)
  {
    OverwriteStep(s.threads[t].amt, ws, n);
    if rob.tag[n] == 0 {
      RetireZeroChannel(cfg, s, p, t, rob, ws, n);
    } else {
      var j := RetireTouchesOne(cfg, p, t);
      RetireChannel(cfg, s, p, t, rob, n + 1, j);
    }
  }

  lemma RetireNothing(cfg: Config, s: State, t: nat, rob: RobFl, ws: seq<MapWrite>)
    requires t < |s.threads| && |rob.tag| == |rob.tagOld|
    ensures RetireEffect(s, s, t, rob, ws, 0)
  {
    assert Overwritten(s.threads[t].amt, ws, 0) == s.threads[t].amt;
  }

  /** One more retirement after `n`. */
  lemma RetireNext(cfg: Config, s: State, p: State, t: nat, m: nat, n: nat)
    requires Inv(cfg, s) && Inv(cfg, p) && t < cfg.threads && n < m <= |s.threads[t].rob| && m <= cfg.rtNum
    requires RetireEffect(s, p, t, RobToFl(s.threads[t].rob, cfg.rtNum, m),
                          RobToAmt(s.threads[t].rob, cfg.rtNum, m), n)
    ensures RetireReady(p, t) && Inv(cfg, Retire(p, t))
    ensures RetireEffect(s, Retire(p, t), t, RobToFl(s.threads[t].rob, cfg.rtNum, m),
                         RobToAmt(s.threads[t].rob, cfg.rtNum, m), n + 1)
  {
    RetireKeeps(cfg, p, t);
    RetireStep(cfg, s, p, t, RobToFl(s.threads[t].rob, cfg.rtNum, m), RobToAmt(s.threads[t].rob, cfg.rtNum, m), n);
  }

  lemma {:induction false} RetireManyIs(cfg: Config, s: State, t: nat, m: nat, n: nat)
    requires Inv(cfg, s) && t < cfg.threads == |s.threads| && n <= m <= |s.threads[t].rob| && m <= cfg.rtNum
    ensures Inv(cfg, RetireMany(s, t, n))
    ensures RetireEffect(s, RetireMany(s, t, n), t, RobToFl(s.threads[t].rob, cfg.rtNum, m),
                         RobToAmt(s.threads[t].rob, cfg.rtNum, m), n)
  {
    hide RetireEffect, Inv, Retire, RobToFl, RobToAmt;
    if n == 0 {
      RetireNothing(cfg, s, t, RobToFl(s.threads[t].rob, cfg.rtNum, m), RobToAmt(s.threads[t].rob, cfg.rtNum, m));
    } else {
      RetireManyIs(cfg, s, t, m, n - 1);
      RetireNext(cfg, s, RetireMany(s, t, n - 1), t, m, n - 1);
    }
  }

  // ---- a thread's share of the edge ----------------------------------------------

  lemma {:induction false} RetiredSame(e: FlEntry, a: RobFl, b: RobFl, n: nat)
    requires |a.tag| == |a.tagOld| == |b.tag| == |b.tagOld| && a.rtNum == b.rtNum && n <= |a.tag|
    requires forall k :: 0 <= k < n ==> a.tag[k] == b.tag[k] && a.tagOld[k] == b.tagOld[k]
    ensures Retired(e, a, n) == Retired(e, b, n) && RealRetires(a, n) == RealRetires(b, n)
  {
    if n > 0 {
      RetiredSame(e, a, b, n - 1);
    }
  }

  /** Channels past the retire count do nothing, and only their content below it matters. */
  lemma {:induction false} RetiredPrefix(e: FlEntry, a: RobFl, b: RobFl, n: nat, m: nat)
    requires |a.tag| == |a.tagOld| == |b.tag| == |b.tagOld| && n == a.rtNum == b.rtNum
    requires n <= m <= |a.tag|
    requires forall k :: 0 <= k < n ==> a.tag[k] == b.tag[k] && a.tagOld[k] == b.tagOld[k]
    ensures Retired(e, a, n) == Retired(e, b, m)
    ensures RealRetires(a, n) == RealRetires(b, m)
    decreases m
  {
    if n < m {
      RetiredPrefix(e, a, b, n, m - 1);
    } else {
      RetiredSame(e, a, b, n);
    }
  }

  lemma {:induction false} LatestPrefix(tag: nat, reg: nat, a: seq<MapWrite>, b: seq<MapWrite>, n: nat, m: nat)
    requires n <= m <= |a| == |b|
    requires forall k :: 0 <= k < n ==> a[k] == b[k]
    requires forall k :: n <= k < m ==> !b[k].en
    ensures Latest(tag, reg, a, n) == Latest(tag, reg, b, m)
    decreases m
  {
    if n < m {
      LatestPrefix(tag, reg, a, b, n, m - 1);
    } else if n > 0 {
      LatestPrefix(tag, reg, a, b, n - 1, n - 1);
    }
  }

  function ThreadEntry(e: FlEntry, t: nat, rob: RobFl, brMis: bool): FlEntry
    requires |rob.tag| == |rob.tagOld|
  {
    if !e.valid && e.thread == t then
      var r := Retired(e, rob, |rob.tag|);
      if brMis then r.(valid := true) else r
    else e
  }

  /** A thread's registers after its own cycle. */
  function AfterCycle(cfg: Config, th: Thread, n: nat, brMis: bool): Thread
    requires n <= |th.rob|
  {
    var ws := RobToAmt(th.rob, cfg.rtNum, n);
    var amt := Overwritten(th.amt, ws, |ws|);
    if brMis then Thread(amt, amt, []) else Thread(amt, th.mt, th.rob[n..])
  }

  /** Effect of thread `t`'s cycle on all registers. */
  ghost predicate ThreadEffect(cfg: Config, s: State, r: State, t: nat, n: nat, brMis: bool)
    requires t < |s.threads| && n <= |s.threads[t].rob|
  {
    var rob := RobToFl(s.threads[t].rob, cfg.rtNum, n);
    && |r.fl| == |s.fl| && |r.threads| == |s.threads|
    && (forall i :: 0 <= i < |s.fl| ==> r.fl[i] == ThreadEntry(s.fl[i], t, rob, brMis))
    && (forall u :: 0 <= u < |s.threads| && u != t ==> r.threads[u] == s.threads[u])
    && r.threads[t] == AfterCycle(cfg, s.threads[t], n, brMis)
    && r.avail == s.avail + (if brMis then InFlight(s.fl, t, |s.fl|) else RealRetires(rob, cfg.rtNum))
  }

  lemma ThreadEffectOf(cfg: Config, s: State, p: State, t: nat, n: nat, brMis: bool)
    requires t < |s.threads| && n <= |s.threads[t].rob| && n <= cfg.rtNum
    requires RetireEffect(s, p, t, RobToFl(s.threads[t].rob, cfg.rtNum, n),
                          RobToAmt(s.threads[t].rob, cfg.rtNum, n), n)
    ensures ThreadEffect(cfg, s, if brMis then Squash(p, t) else p, t, n, brMis)
  {
    var rob := RobToFl(s.threads[t].rob, cfg.rtNum, n);
    var ws := RobToAmt(s.threads[t].rob, cfg.rtNum, n);
    var amt := s.threads[t].amt;
    forall a | 0 <= a < |amt|
      ensures Latest(amt[a], a, ws, n) == Latest(amt[a], a, ws, |ws|)
    {
      LatestPrefix(amt[a], a, ws, ws, n, |ws|);
    }
    assert Overwritten(amt, ws, n) == Overwritten(amt, ws, |ws|);
    RetiredPrefix(FlEntry(0, true, 0), rob, rob, n, cfg.rtNum);
    var r := if brMis then Squash(p, t) else p;
    forall i | 0 <= i < |s.fl| ensures r.fl[i] == ThreadEntry(s.fl[i], t, rob, brMis) {
      RetiredPrefix(s.fl[i], rob, rob, n, cfg.rtNum);
      RetiredIsValid(s.fl[i], rob, n);
    }
  }

  lemma ThreadEffectIs(cfg: Config, s: State, t: nat, n: nat, brMis: bool)
    requires Inv(cfg, s) && t < cfg.threads && n <= |s.threads[t].rob| && n <= cfg.rtNum
    ensures ThreadEffect(cfg, s, ThreadStep(s, t, n, brMis), t, n, brMis)
    ensures Inv(cfg, ThreadStep(s, t, n, brMis))
  {
    RetireManyIs(cfg, s, t, n, n);
    SquashKeeps(cfg, RetireMany(s, t, n), t);
    ThreadEffectOf(cfg, s, RetireMany(s, t, n), t, n, brMis);
  }

  // ---- all threads --------------------------------------------------------------

  /** Entry after the first `k` threads. */
  function StepsEntry(e: FlEntry, brMis: seq<bool>, rob: seq<RobFl>, k: nat): FlEntry
    requires k <= |brMis| == |rob|
    requires forall t :: 0 <= t < |rob| ==> |rob[t].tag| == |rob[t].tagOld|
  {
    if e.thread < k then ThreadEntry(e, e.thread, rob[e.thread], brMis[e.thread]) else e
  }

  lemma EntryStep(e: FlEntry, brMis: seq<bool>, rob: seq<RobFl>, k: nat)
    requires 0 < k <= |brMis| == |rob|
    requires forall t :: 0 <= t < |rob| ==> |rob[t].tag| == |rob[t].tagOld|
    ensures ThreadEntry(StepsEntry(e, brMis, rob, k - 1), k - 1, rob[k - 1], brMis[k - 1])
         == StepsEntry(e, brMis, rob, k)
    ensures var p := StepsEntry(e, brMis, rob, k - 1);
            p.thread == k - 1 && !p.valid <==> e.thread == k - 1 && !e.valid
  {
    if e.thread < k - 1 {
      RetiredIsValid(e, rob[e.thread], |rob[e.thread].tag|);
    }
  }

  lemma {:induction false} InFlightSame(a: seq<FlEntry>, b: seq<FlEntry>, t: nat, m: nat)
    requires m <= |a| == |b|
    requires forall i :: 0 <= i < m ==>
      (a[i].thread == t && !a[i].valid <==> b[i].thread == t && !b[i].valid)
    ensures InFlight(a, t, m) == InFlight(b, t, m)
  {
    if m > 0 {
      InFlightSame(a, b, t, m - 1);
    }
  }

  /** Effect of the first `k` threads' cycles on all registers. */
  ghost predicate StepsEffect(cfg: Config, s: State, r: State, inp: Input, k: nat)
    requires RetiresOwn(cfg, s, inp) && k <= |s.threads| && s.avail >= 0
  {
    var rob := FlInputs(cfg, s, inp);
    && |r.fl| == |s.fl| && |r.threads| == |s.threads|
    && (forall i :: 0 <= i < |s.fl| ==> r.fl[i] == StepsEntry(s.fl[i], inp.brMis, rob, k))
    && (forall t :: 0 <= t < |s.threads| ==>
          r.threads[t] == if t < k then AfterCycle(cfg, s.threads[t], inp.rtNum[t], inp.brMis[t])
                          else s.threads[t])
    && r.avail == Gathered(s.avail, s.fl, inp.brMis, rob, k)
  }

  lemma StepsEffectStep(cfg: Config, s: State, p: State, r: State, inp: Input, k: nat)
    requires RetiresOwn(cfg, s, inp) && 0 < k <= |s.threads| && s.avail >= 0
    requires StepsEffect(cfg, s, p, inp, k - 1)
    requires ThreadEffect(cfg, p, r, k - 1, inp.rtNum[k - 1], inp.brMis[k - 1])
    ensures StepsEffect(cfg, s, r, inp, k)
  {
    hide StepsEntry, ThreadEntry, AfterCycle, InFlight, RobToFl, RealRetires;
    var rob := FlInputs(cfg, s, inp);
    forall i | 0 <= i < |s.fl|
      ensures r.fl[i] == StepsEntry(s.fl[i], inp.brMis, rob, k)
      ensures p.fl[i].thread == k - 1 && !p.fl[i].valid <==> s.fl[i].thread == k - 1 && !s.fl[i].valid
    {
      EntryStep(s.fl[i], inp.brMis, rob, k);
    }
    InFlightSame(p.fl, s.fl, k - 1, |s.fl|);
  }

  lemma StepsEffectZero(cfg: Config, s: State, inp: Input)
    requires RetiresOwn(cfg, s, inp) && s.avail >= 0
    ensures StepsEffect(cfg, s, s, inp, 0)
  {
  }

  lemma StepsStep(cfg: Config, s: State, p: State, inp: Input, k: nat)
    requires RetiresOwn(cfg, s, inp) && 0 < k <= |s.threads| && s.avail >= 0
    requires StepsEffect(cfg, s, p, inp, k - 1) && Inv(cfg, p)
    ensures Inv(cfg, ThreadStep(p, k - 1, inp.rtNum[k - 1], inp.brMis[k - 1]))
    ensures StepsEffect(cfg, s, ThreadStep(p, k - 1, inp.rtNum[k - 1], inp.brMis[k - 1]), inp, k)
  {
    assert p.threads[k - 1] == s.threads[k - 1];
    ThreadEffectIs(cfg, p, k - 1, inp.rtNum[k - 1], inp.brMis[k - 1]);
    StepsEffectStep(cfg, s, p, ThreadStep(p, k - 1, inp.rtNum[k - 1], inp.brMis[k - 1]), inp, k);
  }

  lemma {:induction false} StepsAre(cfg: Config, s: State, inp: Input, k: nat)
    requires Inv(cfg, s) && k <= cfg.threads && RetiresOwn(cfg, s, inp) && s.avail >= 0
    ensures Inv(cfg, ThreadSteps(s, inp, k)) && StepsEffect(cfg, s, ThreadSteps(s, inp, k), inp, k)
  {
    hide StepsEffect;
    if k == 0 {
      StepsEffectZero(cfg, s, inp);
    } else {
      StepsAre(cfg, s, inp, k - 1);
      StepsStep(cfg, s, ThreadSteps(s, inp, k - 1), inp, k);
    }
  }
}
