/** The resets of the two map tables: a run of two cycles shows whether they fit together. */
module RenameReset {

  import opened CoreConfig
  import opened PriorityEncoder
  import opened FreeList
  import opened MapTables
  import opened RenameMachine
  import opened RenameClock
  import opened RenameTheorems

  // ---- a run of two cycles -----------------------------------------------------------

  /** A cycle without mispredictions: thread `t` retires `n` instructions and dispatches `rds`. */
  function Quiet(cfg: Config, t: nat, n: nat, rds: seq<nat>): Input {
    Input(seq(cfg.threads, _ => false), seq(cfg.threads, u => if u == t then n else 0), t, rds)
  }

  /** Register 1 of thread `t` is renamed, and the instruction retires. */
  function RenameOnce(cfg: Config, t: nat): seq<Input> { [Quiet(cfg, t, 0, [1]), Quiet(cfg, t, 1, [])] }

  function FirstTag(cfg: Config): nat { cfg.Committed() + 1 }

  lemma FirstDispatch(cfg: Config)
    requires cfg.Valid()
    ensures var fl := ResetEntries(cfg); fl[0].tag == FirstTag(cfg) && DispatchTag(fl, [1], 0) == FirstTag(cfg)
  {
    var fl := ResetEntries(cfg);
    ResetStart(cfg);
    assert Route([1], 0) == 0;
    assert Valids(fl)[0];
    assert Lowest(Valids(fl)) == 0;
    assert StageEnc(Valids(fl), 0) == 0;
  }

  lemma IdleMap(cfg: Config, amt: seq<nat>, rob: seq<RobEntry>)
    ensures Overwritten(amt, RobToAmt(rob, cfg.rtNum, 0), cfg.rtNum) == amt
  {
    var ws := RobToAmt(rob, cfg.rtNum, 0);
    forall a | 0 <= a < |amt| ensures Latest(amt[a], a, ws, cfg.rtNum) == amt[a] {
      LatestPrefix(amt[a], a, ws, ws, 0, cfg.rtNum);
    }
  }

  /** The registers after the first of the two cycles. */
  ghost predicate Renamed1(cfg: Config, t: nat, s: State)
    requires cfg.Valid() && t < cfg.threads
  {
    && s.fl == ResetEntries(cfg)[0 := FlEntry(FirstTag(cfg), false, t)] && s.avail >= 0
    && |s.threads| == cfg.threads
    && s.threads[t].rob == [RobEntry(1, FirstTag(cfg), ResetMtTag(t, 1))]
    && forall u :: 0 <= u < cfg.threads ==>
         |s.threads[u].mt| == cfg.Arch() && s.threads[u].amt == ResetMap(cfg, u)
  }

  lemma FirstEntries(cfg: Config, t: nat)
    requires cfg.Valid() && t < cfg.threads
    ensures WellFormed(cfg, ResetState(cfg), Quiet(cfg, t, 0, [1]))
    ensures Allowed(cfg, ResetState(cfg), Quiet(cfg, t, 0, [1]))
    ensures Clock(cfg, ResetState(cfg), Quiet(cfg, t, 0, [1])).fl
         == ResetEntries(cfg)[0 := FlEntry(FirstTag(cfg), false, t)]
  {
    var s0, inp := ResetState(cfg), Quiet(cfg, t, 0, [1]);
    assert Route([1], 0) == 0 && Route([1], 1) == 1;
    assert WellFormed(cfg, s0, inp);
    FirstDispatch(cfg);
    forall i | 0 <= i < |s0.fl| ensures Selected(cfg, s0.fl, DpInput(cfg, inp), i) <==> i == 0 {
      ResetAvailable(cfg, i);
    }
  }

  lemma FirstRename(cfg: Config, t: nat)
    requires cfg.Valid() && t < cfg.threads
    ensures WellFormed(cfg, ResetState(cfg), Quiet(cfg, t, 0, [1]))
    ensures Allowed(cfg, ResetState(cfg), Quiet(cfg, t, 0, [1]))
    ensures Renamed1(cfg, t, Clock(cfg, ResetState(cfg), Quiet(cfg, t, 0, [1])))
  {
    var s0, inp := ResetState(cfg), Quiet(cfg, t, 0, [1]);
    FirstEntries(cfg, t);
    FirstDispatch(cfg);
    var s := Clock(cfg, s0, inp);
    forall u | 0 <= u < cfg.threads ensures s.threads[u].amt == ResetMap(cfg, u) {
      IdleMap(cfg, ResetMap(cfg, u), []);
    }
    var robs := DispatchRobs(s0.fl, s0.threads[t].mt, [1], 1);
    assert robs == [DispatchRob(s0.fl, s0.threads[t].mt, [1], 0)];
    assert s.threads[t].rob == [] + robs;
  }

  lemma FirstRetireEntries(cfg: Config, t: nat, s: State)
    requires cfg.Valid() && t < cfg.threads && Renamed1(cfg, t, s)
    requires WellFormed(cfg, s, Quiet(cfg, t, 1, []))
    ensures Clock(cfg, s, Quiet(cfg, t, 1, [])).fl == ResetEntries(cfg)[0 := FlEntry(ResetMtTag(t, 1), true, 0)]
  {
    var inp := Quiet(cfg, t, 1, []);
    var rob := FlInputs(cfg, s, inp)[t];
    RetiredPrefix(s.fl[0], rob, rob, 1, cfg.rtNum);
    assert Retired(s.fl[0], rob, 1) == FlEntry(ResetMtTag(t, 1), true, 0);
    assert Route([], 0) == 0;
  }

  lemma FirstRetireMaps(cfg: Config, t: nat, s: State, u: nat)
    requires cfg.Valid() && t < cfg.threads && u < cfg.threads && Renamed1(cfg, t, s)
    requires WellFormed(cfg, s, Quiet(cfg, t, 1, []))
    ensures Clock(cfg, s, Quiet(cfg, t, 1, [])).threads[u].amt
         == if u == t then ResetMap(cfg, t)[1 := FirstTag(cfg)] else ResetMap(cfg, u)
  {
    if u == t {
      var amt, ws := ResetMap(cfg, t), RobToAmt(s.threads[t].rob, cfg.rtNum, 1);
      forall a | 0 <= a < |amt| ensures Latest(amt[a], a, ws, cfg.rtNum) == amt[1 := FirstTag(cfg)][a] {
        LatestPrefix(amt[a], a, ws, ws, 1, cfg.rtNum);
      }
    } else {
      IdleMap(cfg, ResetMap(cfg, u), s.threads[u].rob);
    }
  }

  lemma TwoCycles(cfg: Config, s0: State, a: Input, s1: State, b: Input, s2: State)
    requires WellFormed(cfg, s0, a) && Allowed(cfg, s0, a) && s1 == Clock(cfg, s0, a)
    requires WellFormed(cfg, s1, b) && Allowed(cfg, s1, b) && s2 == Clock(cfg, s1, b)
    ensures Runs(cfg, s0, [a, b], s2)
  {
    assert [a, b][1..] == [b] && [b][1..] == [];
    assert Runs(cfg, s2, [], s2);
    assert Runs(cfg, s1, [b], s2);
  }

  /** After the two cycles register 1 holds the first tag of the free list, and the free list
      holds the tag that the speculative map had for register 1. */
  lemma FirstCommit(cfg: Config, t: nat) returns (s: State)
    requires cfg.Valid() && t < cfg.threads
    ensures Runs(cfg, ResetState(cfg), RenameOnce(cfg, t), s)
    ensures s.fl == ResetEntries(cfg)[0 := FlEntry(ResetMtTag(t, 1), true, 0)] && |s.threads| == cfg.threads
    ensures forall u :: 0 <= u < cfg.threads ==>
      s.threads[u].amt == if u == t then ResetMap(cfg, t)[1 := FirstTag(cfg)] else ResetMap(cfg, u)
  {
    FirstRename(cfg, t);
    var s1 := Clock(cfg, ResetState(cfg), Quiet(cfg, t, 0, [1]));
    var inp := Quiet(cfg, t, 1, []);
    assert Route([], 0) == 0;
    assert WellFormed(cfg, s1, inp) && Allowed(cfg, s1, inp);
    s := Clock(cfg, s1, inp);
    FirstRetireEntries(cfg, t, s1);
    forall u | 0 <= u < cfg.threads
      ensures s.threads[u].amt == if u == t then ResetMap(cfg, t)[1 := FirstTag(cfg)] else ResetMap(cfg, u)
    {
      FirstRetireMaps(cfg, t, s1, u);
    }
    TwoCycles(cfg, ResetState(cfg), Quiet(cfg, t, 0, [1]), s1, inp, s);
  }

  // ---- when the resets do not agree ----------------------------------------------------

  /** Replacing one free list entry and one committed register moves two holders. */
  lemma HoldersUpdate(s: State, r: State, t: nat, e: FlEntry, rd: nat, tag: nat, x: nat)
    requires t < |s.threads| == |r.threads| && |s.fl| > 0 && r.fl == s.fl[0 := e]
    requires forall u :: 0 <= u < |s.threads| && u != t ==> s.threads[u].amt == r.threads[u].amt
    requires 0 < rd < |s.threads[t].amt| && r.threads[t].amt == s.threads[t].amt[rd := tag]
    ensures Holders(r, x) == Holders(s, x) + One(e.tag == x) - One(s.fl[0].tag == x)
         + One(tag == x) - One(s.threads[t].amt[rd] == x)
  {
    hide Held, Committed, Mapped;
    HeldUpdate(s.fl, 0, e, x, |s.fl|);
    CommittedUpdate(s.threads, r.threads, x, |s.threads|, t);
    MappedUpdate(s.threads[t].amt, rd, tag, x, |s.threads[t].amt| - 1);
  }

  /** The two cycles replace one holder of each of two tags. */
  lemma CommitHolders(cfg: Config, t: nat, s: State, x: nat)
    requires cfg.Valid() && t < cfg.threads && |s.threads| == cfg.threads
    requires s.fl == ResetEntries(cfg)[0 := FlEntry(ResetMtTag(t, 1), true, 0)]
    requires forall u :: 0 <= u < cfg.threads ==>
      s.threads[u].amt == if u == t then ResetMap(cfg, t)[1 := FirstTag(cfg)] else ResetMap(cfg, u)
    ensures Holders(s, x)
         == One(1 <= x < cfg.phys) + One(x == ResetMtTag(t, 1)) - One(x == ResetMap(cfg, t)[1])
  {
    hide Holders, ResetMap, ResetMt, ResetEntries, ResetMtTag;
    var s0 := ResetState(cfg);
    ResetConserves(cfg);
    assert Holders(s0, x) == One(1 <= x < cfg.phys);
    FirstDispatch(cfg);
    HoldersUpdate(s0, s, t, FlEntry(ResetMtTag(t, 1), true, 0), 1, FirstTag(cfg), x);
  }

  lemma ArchIsTag(cfg: Config)
    requires cfg.Valid() && cfg.threads > 1
    ensures 1 <= cfg.Arch() < cfg.phys
  {
    Pow2Mono(0, cfg.archBits);
    MultipleIsLarge(cfg.Arch() - 1, cfg.threads);
  }

  /** If the resets differ, one rename and one retirement in thread 1 lose a tag. */
  lemma ResetLosesTag(cfg: Config) returns (s: State)
    requires cfg.Valid() && !SameResets(cfg)
    ensures Runs(cfg, ResetState(cfg), RenameOnce(cfg, 1), s)
    ensures Holders(s, cfg.Arch()) == 0
  {
    hide Runs, Holders, ResetState, RenameOnce, ResetMap, ResetEntries, ResetMtTag;
    s := FirstCommit(cfg, 1);
    CommitHolders(cfg, 1, s, cfg.Arch());
    OtherReset(cfg);
    ArchIsTag(cfg);
  }

  ghost predicate KeepsTags(cfg: Config, inputs: seq<Input>, r: State)
    requires cfg.Valid()
  {
    Runs(cfg, ResetState(cfg), inputs, r) ==> Conserved(cfg, r)
  }

  /** Runs from reset keep all tags exactly if the two map resets agree. */
  lemma NoTagLostIff(cfg: Config)
    requires cfg.Valid()
    ensures SameResets(cfg) <==> forall inputs, r :: KeepsTags(cfg, inputs, r)
  {
    if SameResets(cfg) {
      forall inputs, r ensures KeepsTags(cfg, inputs, r) {
        if Runs(cfg, ResetState(cfg), inputs, r) {
          NoTagLostOrDuplicated(cfg, inputs, r);
        }
      }
    } else {
      var s := ResetLosesTag(cfg);
      ArchIsTag(cfg);
      assert Holders(s, cfg.Arch()) != One(1 <= cfg.Arch() < cfg.phys);
      assert !KeepsTags(cfg, RenameOnce(cfg, 1), s);
    }
  }
}
