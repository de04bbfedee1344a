/** The free list `FL_smt`: a table of physical tags shared by all threads.  An
    entry is either available or in flight for one thread.  Retirement swaps the
    tag of an in-flight entry for the tag it replaced; a misprediction gives every
    in-flight entry of its thread back. */
module FreeList {

  import opened CoreConfig
  import opened PriorityEncoder

  datatype FlEntry = FlEntry(tag: nat, valid: bool, thread: nat)

  /** Retirement of one thread (`ROB_FL`): only the first `rtNum` channels count. */
  datatype RobFl = RobFl(rtNum: nat, tag: seq<nat>, tagOld: seq<nat>)

  /** Dispatch request (`DP_FL`); `thread` has one index per channel, but the free
      list has room for channel 0's only. */
  datatype DpFl = DpFl(dpNum: nat, thread: seq<nat>)

  ghost predicate InputsOk(cfg: Config, brMis: seq<bool>, dp: DpFl, rob: seq<RobFl>) {
    && cfg.Valid()
    && |brMis| == |rob| == cfg.threads
    && |dp.thread| == cfg.dpNum && dp.thread[0] < cfg.threads
    && forall t :: 0 <= t < |rob| ==> |rob[t].tag| == |rob[t].tagOld| == cfg.rtNum
  }

  ghost predicate EntriesOk(cfg: Config, fl: seq<FlEntry>) {
    cfg.Valid() && |fl| == cfg.FlEntries() && forall i :: 0 <= i < |fl| ==> fl[i].thread < cfg.threads
  }

  function Valids(fl: seq<FlEntry>): seq<bool> {
    seq(|fl|, i requires 0 <= i < |fl| => fl[i].valid)
  }

  // ---- entry update -----------------------------------------------------------

  /** Entry after the first `m` retire channels: the last matching channel wins. */
  function Retired(e: FlEntry, rob: RobFl, m: nat): FlEntry
    requires m <= |rob.tag| == |rob.tagOld|
  {
    if m == 0 then e
    else if m - 1 < rob.rtNum && e.tag == rob.tag[m - 1] then FlEntry(rob.tagOld[m - 1], true, 0)
    else Retired(e, rob, m - 1)
  }

  function NextEntry(e: FlEntry, brMis: seq<bool>, rob: seq<RobFl>, selected: bool, dpThread: nat): FlEntry
    requires e.thread < |brMis| == |rob|
    requires |rob[e.thread].tag| == |rob[e.thread].tagOld|
  {
    if !e.valid then
      var r := Retired(e, rob[e.thread], |rob[e.thread].tag|);
      if brMis[e.thread] then r.(valid := true) else r
    else if selected then e.(valid := false, thread := dpThread)
    else e
  }

  /** Entry `i` is handed out: it is among the lowest available ones. */
  function Selected(cfg: Config, fl: seq<FlEntry>, dp: DpFl, i: nat): bool
    requires i < |fl|
  {
    fl[i].valid && Count(Valids(fl), i) < Min(cfg.dpNum, dp.dpNum)
  }

  function NextEntries(cfg: Config, fl: seq<FlEntry>, brMis: seq<bool>, dp: DpFl, rob: seq<RobFl>): (r: seq<FlEntry>)
    requires InputsOk(cfg, brMis, dp, rob) && EntriesOk(cfg, fl)
    ensures |r| == |fl|
  {
    seq(|fl|, i requires 0 <= i < |fl| =>
      NextEntry(fl[i], brMis, rob, Selected(cfg, fl, dp, i), dp.thread[0]))
  }

  lemma ResetStart(cfg: Config)
    requires cfg.Valid()
    ensures cfg.FlStart() == cfg.Committed() + 1
  {
    assert cfg.threads * (cfg.Arch() - 1) == cfg.threads * cfg.Arch() - cfg.threads;
  }

  function ResetEntries(cfg: Config): (r: seq<FlEntry>)
    requires cfg.Valid()
    ensures |r| == cfg.FlEntries()
  {
    ResetStart(cfg);
    seq(cfg.FlEntries(), i requires 0 <= i => FlEntry(i + cfg.FlStart(), true, 0))
  }

  // ---- counter ----------------------------------------------------------------

  /** `thread_tag_num`: in-flight entries of thread `t` among the first `m`. */
  function InFlight(fl: seq<FlEntry>, t: nat, m: nat): (n: nat)
    requires m <= |fl|
    ensures n <= m
  {
    if m == 0 then 0
    else InFlight(fl, t, m - 1) + (if fl[m - 1].thread == t && !fl[m - 1].valid then 1 else 0)
  }

  /** `thread_rt_num`: retirements of a real tag on the first `m` channels. */
  function RealRetires(rob: RobFl, m: nat): (n: nat)
    requires m <= |rob.tag|
    ensures n <= m
  {
    if m == 0 then 0
    else RealRetires(rob, m - 1) + (if m - 1 < rob.rtNum && rob.tag[m - 1] != 0 then 1 else 0)
  }

  /** What thread `t` gives back in a cycle. */
  function Returned(fl: seq<FlEntry>, brMis: seq<bool>, rob: seq<RobFl>, t: nat): nat
    requires t < |brMis| == |rob|
  {
    if brMis[t] then InFlight(fl, t, |fl|) else RealRetires(rob[t], |rob[t].tag|)
  }

  /** `avail_num` plus what the first `k` threads give back. */
  function Gathered(avail: nat, fl: seq<FlEntry>, brMis: seq<bool>, rob: seq<RobFl>, k: nat): nat
    requires k <= |brMis| == |rob|
  {
    if k == 0 then avail
    else Gathered(avail, fl, brMis, rob, k - 1) + Returned(fl, brMis, rob, k - 1)
  }

  /** Truncation to a register with `w` values. */
  function Wrap(x: int, w: nat): nat
    requires w > 0
  {
    x % w
  }

  /** The counter register after an edge, in its own width. */
  function NextAvail(cfg: Config, avail: nat, fl: seq<FlEntry>, brMis: seq<bool>, dp: DpFl, rob: seq<RobFl>): nat
    requires InputsOk(cfg, brMis, dp, rob)
  {
    Wrap(Gathered(avail, fl, brMis, rob, cfg.threads) - dp.dpNum, cfg.FlCounterRange())
  }

  /** Whole turns of the counter are lost. */
  lemma WrapShift(r: nat, k: int, w: nat)
    requires r < w
    ensures Wrap(r + k * w, w) == r
  {
    var x := r + k * w;
    var d := x / w - k;
    assert x == w * (x / w) + x % w;
    assert w * d == w * (x / w) - k * w;
    MultipleIsLarge(w, d);
  }

  lemma CounterFits(cfg: Config, x: nat)
    requires cfg.Valid() && x <= cfg.FlEntries()
    ensures Wrap(x, cfg.FlCounterRange()) == x
  {
    WrapShift(x, 0, cfg.FlCounterRange());
  }

  /** The counter is as narrow as it can be: fewer values would not do for the entries. */
  lemma CounterIsTight(cfg: Config, k: nat)
    requires cfg.Valid() && Pow2(k) < cfg.FlCounterRange()
    ensures Pow2(k) <= cfg.FlEntries() < cfg.FlCounterRange()
  {
    var r := Clog2(cfg.FlEntries() + 1);
    if k > r {
      Pow2Mono(r, k);
    }
  }

  lemma WrapSum(x: int, y: int, w: nat)
    requires w > 0
    ensures Wrap(Wrap(x, w) + y, w) == Wrap(x + y, w)
  {
    var z := x % w + y;
    assert x + y == z % w + (z / w + x / w) * w by {
      assert x == w * (x / w) + x % w && z == w * (z / w) + z % w;
      assert (z / w + x / w) * w == w * (z / w) + w * (x / w);
    }
    WrapShift(z % w, z / w + x / w, w);
  }

  lemma WrapSums(x: int, y: int, w: nat)
    requires w > 0
    ensures Wrap(Wrap(x, w) + Wrap(y, w), w) == Wrap(x + y, w)
  {
    WrapSum(x, Wrap(y, w), w);
    WrapSum(y, x, w);
  }

  lemma GatherStep(avail: nat, fl: seq<FlEntry>, brMis: seq<bool>, rob: seq<RobFl>, t: nat, back: nat, w: nat)
    requires t < |brMis| == |rob| && w > 0
    requires back == if brMis[t] then InFlight(fl, t, |fl|) else Wrap(RealRetires(rob[t], |rob[t].tag|), w)
    ensures Wrap(Wrap(Gathered(avail, fl, brMis, rob, t), w) + back, w)
         == Wrap(Gathered(avail, fl, brMis, rob, t + 1), w)
  {
    WrapSum(Gathered(avail, fl, brMis, rob, t), back, w);
    WrapSums(Gathered(avail, fl, brMis, rob, t), RealRetires(rob[t], |rob[t].tag|), w);
  }

  lemma ChosenStep(bits: seq<bool>, k: nat)
    ensures forall i :: ChosenBy(bits, k + 1, i) <==>
      ChosenBy(bits, k, i) || (StageValid(bits, k) && StageEnc(bits, k) == i)
  {
    forall i
      ensures ChosenBy(bits, k + 1, i) <==>
        ChosenBy(bits, k, i) || (StageValid(bits, k) && StageEnc(bits, k) == i)
    {
      if ChosenBy(bits, k, i) {
        var j :| 0 <= j < k && StageValid(bits, j) && StageEnc(bits, j) == i;
        assert ChosenBy(bits, k + 1, i);
      }
      if ChosenBy(bits, k + 1, i) {
        var j :| 0 <= j < k + 1 && StageValid(bits, j) && StageEnc(bits, j) == i;
        assert j < k ==> ChosenBy(bits, k, i);
      }
    }
  }

  lemma {:induction false} RetiredThread(e: FlEntry, rob: RobFl, m: nat, threads: nat)
    requires m <= |rob.tag| == |rob.tagOld| && 0 <= e.thread < threads
    ensures Retired(e, rob, m).thread < threads
  {
    if m > 0 {
      RetiredThread(e, rob, m - 1, threads);
    }
  }

  class FlSmt {
    const cfg: Config
    const flEntry: array<FlEntry>
    var availNum: nat

    ghost predicate Valid()
      reads this, flEntry
    {
      EntriesOk(cfg, flEntry[..])
    }

    constructor (cfg: Config)
      requires cfg.Valid()
      ensures Valid() && this.cfg == cfg && fresh(flEntry)
      ensures flEntry[..] == ResetEntries(cfg) && availNum == cfg.FlEntries()
    {
      this.cfg := cfg;
      flEntry := new FlEntry[cfg.FlEntries()](i => FlEntry(0, true, 0));
      availNum := cfg.FlEntries();
      new;
      ResetStart(cfg);
      for i := 0 to flEntry.Length
        invariant availNum == cfg.FlEntries()
        invariant forall k :: 0 <= k < i ==> flEntry[k] == FlEntry(k + cfg.FlStart(), true, 0)
      {
        flEntry[i] := FlEntry(i + cfg.FlStart(), true, 0);
      }
    }

    /** What dispatch sees in this cycle: how many tags it may take, and which. */
    method FlDp() returns (avail: nat, tag: seq<nat>)
      requires Valid()
      ensures avail == Min(availNum, cfg.dpNum) && |tag| == cfg.dpNum
      ensures forall k :: 0 <= k < cfg.dpNum ==>
        tag[k] == flEntry[if k < Total(Valids(flEntry[..])) then Nth(Valids(flEntry[..]), k) else 0].tag
    {
      avail := if availNum > cfg.dpNum then cfg.dpNum else availNum;
      var enc, valid := PeMult(Valids(flEntry[..]), cfg.dpNum);
      tag := seq(cfg.dpNum, k reads flEntry requires 0 <= k < cfg.dpNum => flEntry[enc[k]].tag);
    }

    /** `thread_tag_num`, counted in the width of the register. */
    method ThreadTagNum(t: nat) returns (n: nat)
      requires Valid()
      ensures n == InFlight(flEntry[..], t, flEntry.Length)
    {
      n := 0;
      for i := 0 to flEntry.Length
        invariant n == InFlight(flEntry[..], t, i)
      {
        if flEntry[i].thread == t && !flEntry[i].valid {
          n := Wrap(n + 1, cfg.FlCounterRange());
          CounterFits(cfg, InFlight(flEntry[..], t, i) + 1);
        }
      }
    }

    /** `thread_rt_num`, likewise. */
    method ThreadRtNum(rob: RobFl) returns (n: nat)
      requires cfg.Valid() && |rob.tag| == cfg.rtNum
      ensures n == Wrap(RealRetires(rob, cfg.rtNum), cfg.FlCounterRange())
    {
      n := 0;
      CounterFits(cfg, 0);
      for k := 0 to cfg.rtNum
        invariant n == Wrap(RealRetires(rob, k), cfg.FlCounterRange())
      {
        if k < rob.rtNum && rob.tag[k] != 0 {
          WrapSum(RealRetires(rob, k), 1, cfg.FlCounterRange());
          n := Wrap(n + 1, cfg.FlCounterRange());
        }
      }
    }

    /** `next_avail_num`, every addition in the width of the register. */
    method NextAvailNum(brMis: seq<bool>, dp: DpFl, rob: seq<RobFl>) returns (next: nat)
      requires Valid() && InputsOk(cfg, brMis, dp, rob)
      ensures next == NextAvail(cfg, availNum, flEntry[..], brMis, dp, rob)
    {
      ghost var fl := flEntry[..];
      var w := cfg.FlCounterRange();
      next := Wrap(availNum, w);
      for t := 0 to cfg.threads
        invariant next == Wrap(Gathered(availNum, fl, brMis, rob, t), w)
      {
        var back: nat;
        if brMis[t] {
          back := ThreadTagNum(t);
        } else {
          back := ThreadRtNum(rob[t]);
        }
        GatherStep(availNum, fl, brMis, rob, t, back, w);
        next := Wrap(next + back, w);
      }
      WrapSum(Gathered(availNum, fl, brMis, rob, cfg.threads), 0 - dp.dpNum, w);
      next := Wrap(next - dp.dpNum, w);
    }

    /** `dp_sel`: the entries selected by the valid dispatch channels. */
    method DpSel(dp: DpFl) returns (sel: seq<bool>)
      requires Valid()
      ensures |sel| == flEntry.Length
      ensures forall i :: 0 <= i < |sel| ==> sel[i] == Selected(cfg, flEntry[..], dp, i)
    {
      var bits := Valids(flEntry[..]);
      var enc, valid := PeMult(bits, cfg.dpNum);
      sel := seq(|bits|, _ => false);
      for k := 0 to cfg.dpNum
        invariant |sel| == |bits|
        invariant forall i :: 0 <= i < |sel| ==> (sel[i] <==> ChosenBy(bits, Min(k, dp.dpNum), i))
      {
        ChainIsNth(bits, k);
        if k < dp.dpNum {
          ChosenStep(bits, k);
          if valid[k] {
            sel := sel[enc[k] := true];
          }
        }
      }
      forall i | 0 <= i < |sel|
        ensures sel[i] == Selected(cfg, flEntry[..], dp, i)
      {
        ChosenAreLowest(bits, Min(cfg.dpNum, dp.dpNum), i);
      }
    }

    /** One clock edge.  All right-hand sides are read before the edge. */
    method PosEdge(reset: bool, brMis: seq<bool>, dp: DpFl, rob: seq<RobFl>)
      requires Valid() && InputsOk(cfg, brMis, dp, rob)
      modifies this`availNum, flEntry
      ensures Valid()
      ensures flEntry[..] == if reset then ResetEntries(cfg)
                             else NextEntries(cfg, old(flEntry[..]), brMis, dp, rob)
      ensures availNum == if reset then cfg.FlEntries()
                          else NextAvail(cfg, old(availNum), old(flEntry[..]), brMis, dp, rob)
    {
      ghost var fl := flEntry[..];
      var sel := DpSel(dp);
      var next := NextAvailNum(brMis, dp, rob);
      ResetStart(cfg);
      for i := 0 to flEntry.Length
        invariant forall k :: i <= k < flEntry.Length ==> flEntry[k] == fl[k]
        invariant forall k :: 0 <= k < i ==>
          flEntry[k] == if reset then FlEntry(k + cfg.FlStart(), true, 0)
                        else NextEntry(fl[k], brMis, rob, Selected(cfg, fl, dp, k), dp.thread[0])
      {
        var e := flEntry[i];
        if reset {
          flEntry[i] := FlEntry(i + cfg.FlStart(), true, 0);
        } else if !e.valid {
          var r := rob[e.thread];
          var after := e;
          for k := 0 to cfg.rtNum
            invariant after == Retired(e, r, k)
          {
            if k < r.rtNum && e.tag == r.tag[k] {
              after := FlEntry(r.tagOld[k], true, 0);
            }
          }
          flEntry[i] := if brMis[e.thread] then after.(valid := true) else after;
        } else if sel[i] {
          flEntry[i] := e.(valid := false, thread := dp.thread[0]);
        }
      }
      availNum := if reset then cfg.FlEntries() else next;
      forall i | 0 <= i < flEntry.Length ensures flEntry[i].thread < cfg.threads {
        if !reset && !fl[i].valid {
          RetiredThread(fl[i], rob[fl[i].thread], cfg.rtNum, cfg.threads);
        }
      }
    }
  }
}
