/** Register renaming, one instruction at a time: a shared free list, and for every
    thread a committed map, a speculative map and a queue of renames that have not
    retired yet.  This is the reference machine; `RenameClock` relates the
    superscalar clock edge to it. */
module RenameMachine {

  import opened CoreConfig
  import opened PriorityEncoder
  import opened FreeList

  datatype RobEntry = RobEntry(rd: nat, tag: nat, tagOld: nat)

  datatype Thread = Thread(amt: seq<nat>, mt: seq<nat>, rob: seq<RobEntry>)

  datatype State = State(fl: seq<FlEntry>, avail: int, threads: seq<Thread>)

  // ---- the three steps --------------------------------------------------------

  predicate RenameReady(s: State, t: nat, rd: nat) {
    t < |s.threads| && rd < |s.threads[t].mt| && (rd != 0 ==> Any(Valids(s.fl)))
  }

  /** Dispatch of one instruction: register 0 keeps tag 0, any other register takes
      the lowest available tag. */
  function Rename(s: State, t: nat, rd: nat): State
    requires RenameReady(s, t, rd)
  {
    var th := s.threads[t];
    var i := Lowest(Valids(s.fl));
    var tag := if rd == 0 then 0 else s.fl[i].tag;
    State(if rd == 0 then s.fl else s.fl[i := s.fl[i].(valid := false, thread := t)],
          if rd == 0 then s.avail else s.avail - 1,
          s.threads[t := Thread(th.amt, th.mt[rd := tag], th.rob + [RobEntry(rd, tag, th.mt[rd])])])
  }

  /** Effect of one retirement on one free list entry. */
  function RetireEntry(e: FlEntry, t: nat, r: RobEntry): FlEntry {
    if !e.valid && e.thread == t && e.tag == r.tag then FlEntry(r.tagOld, true, 0) else e
  }

  function RetireEntries(fl: seq<FlEntry>, t: nat, r: RobEntry): (m: seq<FlEntry>)
    ensures |m| == |fl|
  {
    seq(|fl|, i requires 0 <= i < |fl| => RetireEntry(fl[i], t, r))
  }

  predicate RetireReady(s: State, t: nat) {
    t < |s.threads| && s.threads[t].rob != [] && s.threads[t].rob[0].rd < |s.threads[t].amt|
  }

  /** Retirement of thread `t`'s oldest instruction. */
  function Retire(s: State, t: nat): State
    requires RetireReady(s, t)
  {
    var th := s.threads[t];
    var r := th.rob[0];
    State(RetireEntries(s.fl, t, r), if r.tag != 0 then s.avail + 1 else s.avail,
          s.threads[t := Thread(th.amt[r.rd := r.tag], th.mt, th.rob[1..])])
  }

  function SquashEntry(e: FlEntry, t: nat): FlEntry {
    if e.thread == t then e.(valid := true) else e
  }

  function SquashEntries(fl: seq<FlEntry>, t: nat): (m: seq<FlEntry>)
    ensures |m| == |fl|
  {
    seq(|fl|, i requires 0 <= i < |fl| => SquashEntry(fl[i], t))
  }

  /** Misprediction in thread `t`: everything that has not retired is forgotten. */
  function Squash(s: State, t: nat): State
    requires t < |s.threads|
  {
    var th := s.threads[t];
    State(SquashEntries(s.fl, t), s.avail + InFlight(s.fl, t, |s.fl|),
          s.threads[t := Thread(th.amt, th.amt, [])])
  }

  // ---- invariant --------------------------------------------------------------

  ghost predicate RobOk(arch: nat, rob: seq<RobEntry>) {
    forall k :: 0 <= k < |rob| ==> rob[k].rd < arch && (rob[k].rd == 0 <==> rob[k].tag == 0)
  }

  /** The renames of `rob`, oldest first, on top of a committed map. */
  function Replay(amt: seq<nat>, rob: seq<RobEntry>): (m: seq<nat>)
    requires RobOk(|amt|, rob)
    ensures |m| == |amt|
    decreases |rob|
  {
    if rob == [] then amt else Replay(amt[rob[0].rd := rob[0].tag], rob[1..])
  }

  /** Every `tagOld` is the tag its instruction overwrites when it retires. */
  ghost predicate OldTagsOk(amt: seq<nat>, rob: seq<RobEntry>)
    requires RobOk(|amt|, rob)
    decreases |rob|
  {
    rob == [] || (rob[0].tagOld == amt[rob[0].rd] && OldTagsOk(amt[rob[0].rd := rob[0].tag], rob[1..]))
  }

  ghost predicate ThreadOk(arch: nat, th: Thread) {
    && 0 < arch == |th.amt| && th.amt[0] == 0
    && RobOk(arch, th.rob)
    && th.mt == Replay(th.amt, th.rob)
    && OldTagsOk(th.amt, th.rob)
  }

  /** How many of the first `m` free list entries hold tag `x`. */
  function Held(fl: seq<FlEntry>, x: nat, m: nat): nat
    requires m <= |fl|
  {
    if m == 0 then 0 else Held(fl, x, m - 1) + One(fl[m - 1].tag == x)
  }

  predicate Flies(e: FlEntry, t: nat, x: nat) { !e.valid && e.thread == t && e.tag == x }

  /** How many of them hold it in flight for thread `t`. */
  function Flying(fl: seq<FlEntry>, t: nat, x: nat, m: nat): nat
    requires m <= |fl|
  {
    if m == 0 then 0 else Flying(fl, t, x, m - 1) + One(Flies(fl[m - 1], t, x))
  }

  /** How many unretired renames took the real tag `x`. */
  function Taken(rob: seq<RobEntry>, x: nat): nat {
    if rob == [] then 0 else One(rob[0].tag == x && x != 0) + Taken(rob[1..], x)
  }

  /** How many registers 1 .. `m` map to tag `x`. */
  function Mapped(map_: seq<nat>, x: nat, m: nat): nat
    requires m < |map_|
  {
    if m == 0 then 0 else Mapped(map_, x, m - 1) + One(map_[m] == x)
  }

  function MappedAll(map_: seq<nat>, x: nat): nat {
    if map_ == [] then 0 else Mapped(map_, x, |map_| - 1)
  }

  /** How many committed registers of the first `k` threads hold the tag. */
  function Committed(threads: seq<Thread>, x: nat, k: nat): nat
    requires k <= |threads|
  {
    if k == 0 then 0 else Committed(threads, x, k - 1) + MappedAll(threads[k - 1].amt, x)
  }

  /** Free list entries and committed registers holding tag `x`. */
  function Holders(s: State, x: nat): nat {
    Held(s.fl, x, |s.fl|) + Committed(s.threads, x, |s.threads|)
  }

  /** No tag is lost and none is duplicated: every real tag has exactly one holder,
      and nothing else is held. */
  ghost predicate Conserved(cfg: Config, s: State) {
    forall x: nat :: Holders(s, x) == One(1 <= x < cfg.phys)
  }

  ghost predicate ThreadsOk(cfg: Config, threads: seq<Thread>) {
    |threads| == cfg.threads && forall t :: 0 <= t < |threads| ==> ThreadOk(cfg.Arch(), threads[t])
  }

  /** A thread's in-flight entries carry exactly the tags of its unretired renames. */
  ghost predicate FlightOk(s: State, t: nat)
    requires t < |s.threads|
  {
    forall x: nat :: Flying(s.fl, t, x, |s.fl|) == Taken(s.threads[t].rob, x)
  }

  ghost predicate FlightsOk(s: State) {
    forall t :: 0 <= t < |s.threads| ==> FlightOk(s, t)
  }

  ghost predicate AvailOk(s: State) { s.avail == Total(Valids(s.fl)) }

  ghost predicate Inv(cfg: Config, s: State) {
    EntriesOk(cfg, s.fl) && ThreadsOk(cfg, s.threads) && FlightsOk(s) && Conserved(cfg, s) && AvailOk(s)
  }

  // ---- counting ---------------------------------------------------------------

  lemma {:induction false} HeldUpdate(fl: seq<FlEntry>, i: nat, e: FlEntry, x: nat, m: nat)
    requires i < |fl| && m <= |fl|
    ensures Held(fl[i := e], x, m)
         == Held(fl, x, m) + (if i < m then One(e.tag == x) - One(fl[i].tag == x) else 0)
  {
    if m > 0 {
      HeldUpdate(fl, i, e, x, m - 1);
    }
  }

  lemma {:induction false} FlyingUpdate(fl: seq<FlEntry>, i: nat, e: FlEntry, t: nat, x: nat, m: nat)
    requires i < |fl| && m <= |fl|
    ensures Flying(fl[i := e], t, x, m)
         == Flying(fl, t, x, m) + (if i < m then One(Flies(e, t, x)) - One(Flies(fl[i], t, x)) else 0)
  {
    if m > 0 {
      FlyingUpdate(fl, i, e, t, x, m - 1);
    }
  }

  lemma {:induction false} ValidsUpdate(fl: seq<FlEntry>, i: nat, e: FlEntry, m: nat)
    requires i < |fl| && m <= |fl|
    ensures Count(Valids(fl[i := e]), m)
         == Count(Valids(fl), m) + (if i < m then One(e.valid) - One(fl[i].valid) else 0)
  {
    if m > 0 {
      ValidsUpdate(fl, i, e, m - 1);
    }
  }

  lemma {:induction false} HeldAtLeast(fl: seq<FlEntry>, i: nat, j: nat, m: nat)
    requires i < m <= |fl| && j < m && fl[i].tag == fl[j].tag
    ensures Held(fl, fl[i].tag, m) >= if i == j then 1 else 2
  {
    if i < m - 1 && j < m - 1 {
      HeldAtLeast(fl, i, j, m - 1);
    } else if i < m - 1 {
      HeldAtLeast(fl, i, i, m - 1);
    } else if j < m - 1 {
      HeldAtLeast(fl, j, j, m - 1);
    }
  }

  /** The tags of the free list are pairwise different real tags. */
  lemma TagsDistinct(cfg: Config, s: State, i: nat, j: nat)
    requires Conserved(cfg, s) && i < |s.fl| && j < |s.fl|
    ensures 1 <= s.fl[i].tag < cfg.phys
    ensures s.fl[i].tag == s.fl[j].tag ==> i == j
  {
    var x := s.fl[i].tag;
    HeldAtLeast(s.fl, i, i, |s.fl|);
    assert Holders(s, x) == One(1 <= x < cfg.phys);
    if s.fl[i].tag == s.fl[j].tag {
      HeldAtLeast(s.fl, i, j, |s.fl|);
    }
  }

  lemma {:induction false} FindFlying(fl: seq<FlEntry>, t: nat, x: nat, m: nat) returns (i: nat)
    requires m <= |fl| && Flying(fl, t, x, m) > 0
    ensures i < m && Flies(fl[i], t, x)
  {
    i := m - 1;
    if !Flies(fl[i], t, x) {
      i := FindFlying(fl, t, x, m - 1);
    }
  }

  lemma {:induction false} TakenAppend(rob: seq<RobEntry>, r: RobEntry, x: nat)
    ensures Taken(rob + [r], x) == Taken(rob, x) + One(r.tag == x && x != 0)
  {
    if rob == [] {
      assert rob + [r] == [r];
    } else {
      assert (rob + [r])[1..] == rob[1..] + [r];
      TakenAppend(rob[1..], r, x);
    }
  }

  lemma {:induction false} MappedUpdate(map_: seq<nat>, rd: nat, tag: nat, x: nat, m: nat)
    requires 0 < rd < |map_| && m < |map_|
    ensures Mapped(map_[rd := tag], x, m)
         == Mapped(map_, x, m) + (if rd <= m then One(tag == x) - One(map_[rd] == x) else 0)
  {
    if m > 0 {
      MappedUpdate(map_, rd, tag, x, m - 1);
    }
  }

  lemma {:induction false} CommittedUpdate(threads: seq<Thread>, other: seq<Thread>, x: nat, k: nat, t: nat)
    requires k <= |threads| == |other| && t < |threads|
    requires forall u :: 0 <= u < |threads| && u != t ==> threads[u].amt == other[u].amt
    ensures Committed(other, x, k) == Committed(threads, x, k)
      + (if t < k then MappedAll(other[t].amt, x) - MappedAll(threads[t].amt, x) else 0)
  {
    if k > 0 {
      CommittedUpdate(threads, other, x, k - 1, t);
    }
  }

  lemma {:induction false} ReplayAppend(amt: seq<nat>, rob: seq<RobEntry>, r: RobEntry)
    requires RobOk(|amt|, rob + [r]) && RobOk(|amt|, rob)
    ensures r.rd < |amt| && Replay(amt, rob + [r]) == Replay(amt, rob)[r.rd := r.tag]
    ensures OldTagsOk(amt, rob + [r]) <==> OldTagsOk(amt, rob) && r.tagOld == Replay(amt, rob)[r.rd]
    decreases |rob|
  {
    assert (rob + [r])[|rob|] == r;
    if rob == [] {
      assert rob + [r] == [r];
    } else {
      assert (rob + [r])[1..] == rob[1..] + [r];
      ReplayAppend(amt[rob[0].rd := rob[0].tag], rob[1..], r);
    }
  }

  // ---- dispatch ---------------------------------------------------------------

  /** An available entry exists exactly when the counter is positive. */
  lemma AvailMeansAny(s: State)
    requires AvailOk(s)
    ensures Any(Valids(s.fl)) <==> s.avail > 0
  {
    ChainIsNth(Valids(s.fl), 0);
  }

  lemma RenameKeepsThread(arch: nat, th: Thread, rd: nat, tag: nat)
    requires ThreadOk(arch, th) && rd < arch && (rd == 0 <==> tag == 0)
    ensures rd < |th.mt|
    ensures ThreadOk(arch, Thread(th.amt, th.mt[rd := tag], th.rob + [RobEntry(rd, tag, th.mt[rd])]))
  {
    ReplayAppend(th.amt, th.rob, RobEntry(rd, tag, th.mt[rd]));
  }

  ghost predicate CanRename(s: State, t: nat, rd: nat) {
    && RenameReady(s, t, rd)
    && (rd != 0 ==> s.fl[Lowest(Valids(s.fl))].tag != 0)
  }

  lemma RenameFlights(s: State, t: nat, rd: nat)
    requires CanRename(s, t, rd) && FlightsOk(s)
    ensures FlightsOk(Rename(s, t, rd))
  {
    var th := s.threads[t];
    var i := Lowest(Valids(s.fl));
    var tag := if rd == 0 then 0 else s.fl[i].tag;
    forall u, x: nat | 0 <= u < |s.threads|
      ensures Flying(Rename(s, t, rd).fl, u, x, |s.fl|) == Taken(Rename(s, t, rd).threads[u].rob, x)
    {
      assert FlightOk(s, u);
      TakenAppend(th.rob, RobEntry(rd, tag, th.mt[rd]), x);
      if rd != 0 {
        FlyingUpdate(s.fl, i, s.fl[i].(valid := false, thread := t), u, x, |s.fl|);
      }
    }
  }

  lemma RenameEntriesOk(cfg: Config, s: State, t: nat, rd: nat)
    requires EntriesOk(cfg, s.fl) && t < cfg.threads && CanRename(s, t, rd)
    ensures EntriesOk(cfg, Rename(s, t, rd).fl)
  {
  }

  lemma RenameThreads(cfg: Config, s: State, t: nat, rd: nat)
    requires ThreadsOk(cfg, s.threads) && CanRename(s, t, rd)
    ensures ThreadsOk(cfg, Rename(s, t, rd).threads)
  {
    RenameKeepsThread(cfg.Arch(), s.threads[t], rd,
                      if rd == 0 then 0 else s.fl[Lowest(Valids(s.fl))].tag);
  }

  lemma RenameConserves(cfg: Config, s: State, t: nat, rd: nat)
    requires Conserved(cfg, s) && CanRename(s, t, rd)
    ensures Conserved(cfg, Rename(s, t, rd))
  {
    var i := Lowest(Valids(s.fl));
    forall x: nat ensures Holders(Rename(s, t, rd), x) == Holders(s, x) {
      if rd != 0 {
        HeldUpdate(s.fl, i, s.fl[i].(valid := false, thread := t), x, |s.fl|);
      }
      CommittedUpdate(s.threads, Rename(s, t, rd).threads, x, |s.threads|, t);
    }
  }

  lemma RenameAvail(s: State, t: nat, rd: nat)
    requires AvailOk(s) && CanRename(s, t, rd)
    ensures AvailOk(Rename(s, t, rd))
  {
    if rd != 0 {
      var i := Lowest(Valids(s.fl));
      ValidsUpdate(s.fl, i, s.fl[i].(valid := false, thread := t), |s.fl|);
    }
  }

  lemma RenameKeeps(cfg: Config, s: State, t: nat, rd: nat)
    requires Inv(cfg, s) && t < cfg.threads && rd < cfg.Arch()
    requires rd != 0 ==> s.avail > 0
    ensures CanRename(s, t, rd) && Inv(cfg, Rename(s, t, rd))
  {
    AvailMeansAny(s);
    assert ThreadOk(cfg.Arch(), s.threads[t]);
    if rd != 0 {
      TagsDistinct(cfg, s, Lowest(Valids(s.fl)), Lowest(Valids(s.fl)));
    }
    RenameFlights(s, t, rd);
    RenameEntriesOk(cfg, s, t, rd);
    RenameThreads(cfg, s, t, rd);
    RenameConserves(cfg, s, t, rd);
    RenameAvail(s, t, rd);
  }

  // ---- retirement -------------------------------------------------------------

  ghost predicate CanRetire(s: State, t: nat) {
    && RetireReady(s, t)
    && var r := s.threads[t].rob[0];
       (r.rd == 0 <==> r.tag == 0) && r.tagOld == s.threads[t].amt[r.rd]
  }

  /** Entry `i` is the only one that the oldest rename of thread `t` changes. */
  ghost predicate RetiresEntry(s: State, t: nat, i: nat) {
    && CanRetire(s, t) && i < |s.fl|
    && var r := s.threads[t].rob[0];
       && r.tag != 0 && Flies(s.fl[i], t, r.tag)
       && RetireEntries(s.fl, t, r) == s.fl[i := FlEntry(r.tagOld, true, 0)]
  }

  /** A retirement of a real tag changes exactly one free list entry. */
  lemma RetireTouchesOne(cfg: Config, s: State, t: nat) returns (i: nat)
    requires Conserved(cfg, s) && FlightsOk(s) && CanRetire(s, t) && s.threads[t].rob[0].tag != 0
    ensures RetiresEntry(s, t, i)
  {
    var r := s.threads[t].rob[0];
    assert FlightOk(s, t);
    assert Taken(s.threads[t].rob, r.tag) > 0;
    i := FindFlying(s.fl, t, r.tag, |s.fl|);
    forall j | 0 <= j < |s.fl| && j != i
      ensures RetireEntry(s.fl[j], t, r) == s.fl[j]
    {
      TagsDistinct(cfg, s, i, j);
    }
  }

  lemma RetireTouchesNone(cfg: Config, s: State, t: nat, r: RobEntry)
    requires Conserved(cfg, s) && r.tag == 0
    ensures RetireEntries(s.fl, t, r) == s.fl
  {
    forall j | 0 <= j < |s.fl| ensures RetireEntry(s.fl[j], t, r) == s.fl[j] {
      TagsDistinct(cfg, s, j, j);
    }
  }

  lemma RetireKeepsThread(arch: nat, th: Thread)
    requires ThreadOk(arch, th) && th.rob != []
    ensures th.rob[0].rd < |th.amt| && th.rob[0].tagOld == th.amt[th.rob[0].rd]
    ensures th.rob[0].rd == 0 <==> th.rob[0].tag == 0
    ensures ThreadOk(arch, Thread(th.amt[th.rob[0].rd := th.rob[0].tag], th.mt, th.rob[1..]))
  {
  }

  lemma RetireThreads(cfg: Config, s: State, t: nat)
    requires ThreadsOk(cfg, s.threads) && CanRetire(s, t)
    ensures ThreadsOk(cfg, Retire(s, t).threads)
  {
    RetireKeepsThread(cfg.Arch(), s.threads[t]);
  }

  lemma RetireEntriesOk(cfg: Config, fl: seq<FlEntry>, t: nat, r: RobEntry)
    requires EntriesOk(cfg, fl)
    ensures EntriesOk(cfg, RetireEntries(fl, t, r))
  {
  }

  lemma RetireFlights(s: State, t: nat, i: nat)
    requires RetiresEntry(s, t, i) && FlightsOk(s)
    ensures FlightsOk(Retire(s, t))
  {
    var r := s.threads[t].rob[0];
    forall u, x: nat | 0 <= u < |s.threads|
      ensures Flying(Retire(s, t).fl, u, x, |s.fl|) == Taken(Retire(s, t).threads[u].rob, x)
    {
      assert FlightOk(s, u);
      FlyingUpdate(s.fl, i, FlEntry(r.tagOld, true, 0), u, x, |s.fl|);
    }
  }

  /** The freed tag is the one that leaves the committed map, and the other way round. */
  lemma RetireConserves(cfg: Config, s: State, t: nat, i: nat)
    requires RetiresEntry(s, t, i) && Conserved(cfg, s)
    ensures Conserved(cfg, Retire(s, t))
  {
    var r := s.threads[t].rob[0];
    forall x: nat ensures Holders(Retire(s, t), x) == Holders(s, x) {
      HeldUpdate(s.fl, i, FlEntry(r.tagOld, true, 0), x, |s.fl|);
      CommittedUpdate(s.threads, Retire(s, t).threads, x, |s.threads|, t);
      MappedUpdate(s.threads[t].amt, r.rd, r.tag, x, |s.threads[t].amt| - 1);
    }
  }

  lemma RetireAvail(s: State, t: nat, i: nat)
    requires RetiresEntry(s, t, i) && AvailOk(s)
    ensures AvailOk(Retire(s, t))
  {
    ValidsUpdate(s.fl, i, FlEntry(s.threads[t].rob[0].tagOld, true, 0), |s.fl|);
  }

  lemma RetireZeroKeeps(cfg: Config, s: State, t: nat)
    requires FlightsOk(s) && AvailOk(s) && Conserved(cfg, s) && CanRetire(s, t)
    requires s.threads[t].rob[0].tag == 0 && s.threads[t].amt[0] == 0
    ensures FlightsOk(Retire(s, t)) && AvailOk(Retire(s, t)) && Conserved(cfg, Retire(s, t))
  {
    RetireTouchesNone(cfg, s, t, s.threads[t].rob[0]);
    assert s.threads[t].amt[0 := 0] == s.threads[t].amt;
    forall x: nat ensures Holders(Retire(s, t), x) == Holders(s, x) {
      CommittedUpdate(s.threads, Retire(s, t).threads, x, |s.threads|, t);
    }
    forall u, x: nat | 0 <= u < |s.threads|
      ensures Flying(s.fl, u, x, |s.fl|) == Taken(Retire(s, t).threads[u].rob, x)
    {
      assert FlightOk(s, u);
    }
  }

  lemma RetireKeeps(cfg: Config, s: State, t: nat)
    requires Inv(cfg, s) && t < cfg.threads && s.threads[t].rob != []
    ensures CanRetire(s, t) && Inv(cfg, Retire(s, t))
  {
    RetireKeepsThread(cfg.Arch(), s.threads[t]);
    RetireThreads(cfg, s, t);
    RetireEntriesOk(cfg, s.fl, t, s.threads[t].rob[0]);
    if s.threads[t].rob[0].tag == 0 {
      RetireZeroKeeps(cfg, s, t);
    } else {
      var i := RetireTouchesOne(cfg, s, t);
      RetireFlights(s, t, i);
      RetireAvail(s, t, i);
      RetireConserves(cfg, s, t, i);
    }
  }

  // ---- misprediction ----------------------------------------------------------

  lemma {:induction false} SquashCounts(fl: seq<FlEntry>, t: nat, u: nat, x: nat, m: nat)
    requires m <= |fl|
    ensures Held(SquashEntries(fl, t), x, m) == Held(fl, x, m)
    ensures Flying(SquashEntries(fl, t), u, x, m) == if u == t then 0 else Flying(fl, u, x, m)
  {
    if m > 0 {
      SquashCounts(fl, t, u, x, m - 1);
    }
  }

  lemma {:induction false} SquashFrees(fl: seq<FlEntry>, t: nat, m: nat)
    requires m <= |fl|
    ensures Count(Valids(SquashEntries(fl, t)), m) == Count(Valids(fl), m) + InFlight(fl, t, m)
  {
    if m > 0 {
      SquashFrees(fl, t, m - 1);
    }
  }

  lemma SquashEntriesOk(cfg: Config, fl: seq<FlEntry>, t: nat)
    requires EntriesOk(cfg, fl)
    ensures EntriesOk(cfg, SquashEntries(fl, t))
  {
  }

  lemma SquashThreads(cfg: Config, s: State, t: nat)
    requires ThreadsOk(cfg, s.threads) && t < cfg.threads
    ensures ThreadsOk(cfg, Squash(s, t).threads)
  {
  }

  lemma SquashFlights(s: State, t: nat)
    requires t < |s.threads| && FlightsOk(s)
    ensures FlightsOk(Squash(s, t))
  {
    forall u, x: nat | 0 <= u < |s.threads|
      ensures Flying(Squash(s, t).fl, u, x, |s.fl|) == Taken(Squash(s, t).threads[u].rob, x)
    {
      assert FlightOk(s, u);
      SquashCounts(s.fl, t, u, x, |s.fl|);
    }
  }

  lemma SquashConserves(cfg: Config, s: State, t: nat)
    requires Conserved(cfg, s) && t < |s.threads|
    ensures Conserved(cfg, Squash(s, t))
  {
    forall x: nat ensures Holders(Squash(s, t), x) == Holders(s, x) {
      SquashCounts(s.fl, t, t, x, |s.fl|);
      CommittedUpdate(s.threads, Squash(s, t).threads, x, |s.threads|, t);
    }
  }

  lemma SquashKeeps(cfg: Config, s: State, t: nat)
    requires Inv(cfg, s) && t < cfg.threads
    ensures Inv(cfg, Squash(s, t))
  {
    SquashEntriesOk(cfg, s.fl, t);
    SquashThreads(cfg, s, t);
    SquashFlights(s, t);
    SquashConserves(cfg, s, t);
    SquashFrees(s.fl, t, |s.fl|);
  }
}
