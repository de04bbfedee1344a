/** The broadcaster `BC`: N functional-unit results compete for C common data bus
    channels.  A mask remembers which inputs were already served in the current
    round, so that no input starves. */
module Broadcaster {

  import opened CoreConfig
  import opened PriorityEncoder

  /** One functional-unit result (`FU_BC`). */
  datatype FuBc = FuBc(valid: bool, pc: nat, rdValue: nat, tag: nat, brResult: bool,
                       brTarget: nat, thread: nat, robIdx: nat)

  /** One common data bus channel (`CDB`). */
  datatype Cdb = Cdb(valid: bool, pc: nat, tag: nat, robIdx: nat, thread: nat,
                     brResult: bool, brTarget: nat)

  /** One physical register file write port (`BC_PRF`). */
  datatype BcPrf = BcPrf(wrAddr: nat, dataIn: nat, wrEn: bool)

  function Ones(n: nat): seq<bool> { seq(n, _ => true) }

  function And(a: seq<bool>, b: seq<bool>): seq<bool>
    requires |a| == |b|
  {
    seq(|a|, k requires 0 <= k < |a| => a[k] && b[k])
  }

  function Valids(fu: seq<FuBc>): seq<bool> {
    seq(|fu|, k requires 0 <= k < |fu| => fu[k].valid)
  }

  /** `multi_bit_and_or`, column `j`: the OR of the first `m` decoded selections. */
  function OrChain(bits: seq<bool>, m: nat, j: nat): bool
    requires j < |bits|
  {
    m > 0 && (OrChain(bits, m - 1, j)
              || (OneHot(|bits|, StageEnc(bits, m - 1), StageValid(bits, m - 1))[j]
                  && StageValid(bits, m - 1)))
  }

  function Broadcasted(bits: seq<bool>, c: nat): (g: seq<bool>)
    ensures |g| == |bits|
  {
    seq(|bits|, j requires 0 <= j < |bits| => OrChain(bits, c, j))
  }

  /** `multi_bit_or`: the OR of the first `m` bits. */
  function OrBits(bits: seq<bool>, m: nat): bool
    requires m <= |bits|
  {
    m > 0 && (OrBits(bits, m - 1) || bits[m - 1])
  }

  function Queued(valid: seq<bool>, mask: seq<bool>, c: nat): bool
    requires |valid| == |mask|
  {
    var bits := And(valid, mask);
    OrBits(AndNot(bits, Broadcasted(bits, c)), |mask|)
  }

  /** The mask register after a clock edge. */
  function NextMask(valid: seq<bool>, mask: seq<bool>, c: nat): (m: seq<bool>)
    requires |valid| == |mask|
    ensures |m| == |mask|
  {
    if Queued(valid, mask, c) then AndNot(mask, Broadcasted(And(valid, mask), c)) else Ones(|mask|)
  }

  ghost predicate Granted(valid: seq<bool>, mask: seq<bool>, c: nat, i: nat)
    requires |valid| == |mask| && i < |mask|
  {
    Broadcasted(And(valid, mask), c)[i]
  }

  /** Every reachable mask: the highest input is never masked out, and a mask that
      hides anything hides at least C inputs. */
  ghost predicate MaskInv(mask: seq<bool>, c: nat) {
    && |mask| > 0 && c > 0
    && mask[|mask| - 1]
    && (Total(mask) == |mask| || Total(mask) + c <= |mask|)
  }

  /** Longest possible wait, in cycles. */
  function MaxWait(n: nat, c: nat): nat
    requires n >= 2 && c > 0
  {
    (n - 1) / c + (n - 2) / c
  }

  /** A channel and its register file port carry the result `f`. */
  ghost predicate Carries(cdb: Cdb, prf: BcPrf, f: FuBc) {
    && cdb.valid && cdb.pc == f.pc && cdb.tag == f.tag && cdb.robIdx == f.robIdx
    && cdb.thread == f.thread && cdb.brResult == f.brResult && cdb.brTarget == f.brTarget
    && prf.wrEn && prf.wrAddr == f.tag && prf.dataIn == f.rdValue
  }

  /** A channel and its register file port are all zeros. */
  ghost predicate Idle(cdb: Cdb, prf: BcPrf) {
    && !cdb.valid && cdb.pc == 0 && cdb.tag == 0 && cdb.robIdx == 0
    && cdb.thread == 0 && !cdb.brResult && cdb.brTarget == 0
    && !prf.wrEn && prf.wrAddr == 0 && prf.dataIn == 0
  }

  lemma {:induction false} OrChainIsChosen(bits: seq<bool>, m: nat, j: nat)
    requires j < |bits|
    ensures OrChain(bits, m, j) <==> ChosenBy(bits, m, j)
  {
    hide StageValid, StageEnc;
    if m > 0 {
      OrChainIsChosen(bits, m - 1, j);
      if ChosenBy(bits, m, j) {
        var i :| 0 <= i < m && StageValid(bits, i) && StageEnc(bits, i) == j;
        if i < m - 1 {
          assert ChosenBy(bits, m - 1, j);
        }
      }
    }
  }

  /** The decoders and OR gates grant exactly the lowest min(C, count) candidates. */
  lemma GrantsAreLowest(bits: seq<bool>, c: nat, j: nat)
    requires j < |bits|
    ensures Broadcasted(bits, c)[j] <==> bits[j] && Count(bits, j) < c
  {
    OrChainIsChosen(bits, c, j);
    ChosenAreLowest(bits, c, j);
  }

  /** A candidate has one place among the candidates. */
  lemma OwnChannel(bits: seq<bool>, j: nat)
    requires j < |bits| && bits[j]
    ensures Count(bits, j) < Total(bits)
    ensures forall k :: 0 <= k < Total(bits) ==> (Nth(bits, k) == j <==> k == Count(bits, j))
  {
    SetBitCounts(bits, j, |bits|);
    NthUnique(bits, j, Nth(bits, Count(bits, j)));
  }

  lemma {:induction false} OrBitsIsExists(bits: seq<bool>, m: nat)
    requires m <= |bits|
    ensures OrBits(bits, m) <==> exists k :: 0 <= k < m && bits[k]
  {
    if m > 0 {
      OrBitsIsExists(bits, m - 1);
    }
  }

  lemma {:induction false} GrantCount(bits: seq<bool>, c: nat, k: nat)
    requires k <= |bits|
    ensures Count(Broadcasted(bits, c), k) == Min(c, Count(bits, k))
  {
    if k > 0 {
      GrantCount(bits, c, k - 1);
      GrantsAreLowest(bits, c, k - 1);
    }
  }

  lemma {:induction false} AndNotCount(a: seq<bool>, b: seq<bool>, k: nat)
    requires |a| == |b| && k <= |a|
    requires forall j :: 0 <= j < k && b[j] ==> a[j]
    ensures Count(AndNot(a, b), k) == Count(a, k) - Count(b, k)
  {
    if k > 0 {
      AndNotCount(a, b, k - 1);
    }
  }

  lemma {:induction false} CountSubset(a: seq<bool>, b: seq<bool>, k: nat)
    requires |a| == |b| && k <= |a|
    requires forall j :: 0 <= j < k && a[j] ==> b[j]
    ensures Count(a, k) <= Count(b, k)
  {
    if k > 0 {
      CountSubset(a, b, k - 1);
    }
  }

  lemma {:induction false} OnesCount(n: nat, k: nat)
    requires k <= n
    ensures Count(Ones(n), k) == k
  {
    if k > 0 {
      OnesCount(n, k - 1);
    }
  }

  lemma OnesInv(n: nat, c: nat)
    requires n > 0 && c > 0
    ensures MaskInv(Ones(n), c) && Total(Ones(n)) == n
  {
    OnesCount(n, n);
  }

  /** `queued` holds exactly when there are more candidates than channels. */
  lemma QueuedMeansMore(valid: seq<bool>, mask: seq<bool>, c: nat)
    requires |valid| == |mask|
    ensures Queued(valid, mask, c) <==> c < Total(And(valid, mask))
  {
    var bits := And(valid, mask);
    var rest := AndNot(bits, Broadcasted(bits, c));
    OrBitsIsExists(rest, |mask|);
    if Queued(valid, mask, c) {
      var k :| 0 <= k < |mask| && rest[k];
      GrantsAreLowest(bits, c, k);
      CountMono(bits, k + 1, |bits|);
    }
    if c < Total(bits) {
      var k := Nth(bits, c);
      GrantsAreLowest(bits, c, k);
      assert rest[k];
    }
  }

  /** A queued cycle takes exactly C inputs out of the mask, all of them below any
      position that has C candidates below it. */
  lemma QueuedMaskLosesC(valid: seq<bool>, mask: seq<bool>, c: nat, k: nat)
    requires |valid| == |mask| && Queued(valid, mask, c)
    requires k <= |mask| && c <= Count(And(valid, mask), k)
    ensures Count(NextMask(valid, mask, c), k) == Count(mask, k) - c
  {
    var bits := And(valid, mask);
    forall j | 0 <= j < k && Broadcasted(bits, c)[j] ensures mask[j] {
      GrantsAreLowest(bits, c, j);
    }
    GrantCount(bits, c, k);
    AndNotCount(mask, Broadcasted(bits, c), k);
  }

  lemma MaskStep(valid: seq<bool>, mask: seq<bool>, c: nat)
    requires |valid| == |mask| && MaskInv(mask, c)
    ensures MaskInv(NextMask(valid, mask, c), c)
    ensures Queued(valid, mask, c) ==> Total(NextMask(valid, mask, c)) == Total(mask) - c
  {
    QueuedMeansMore(valid, mask, c);
    if Queued(valid, mask, c) {
      QueuedMaskLosesC(valid, mask, c, |mask|);
      GrantsAreLowest(And(valid, mask), c, |mask| - 1);
    } else {
      OnesInv(|mask|, c);
    }
  }

  class Bc {
    const n: nat
    const c: nat
    var mask: seq<bool>

    ghost predicate Valid()
      reads this
    {
      |mask| == n && MaskInv(mask, c)
    }

    constructor (n: nat, c: nat)
      requires n > 0 && c > 0
      ensures Valid() && this.n == n && this.c == c && mask == Ones(n)
    {
      this.n := n;
      this.c := c;
      mask := Ones(n);
      new;
      OnesInv(n, c);
    }

    /** One clock edge: the grants and channel contents seen before the edge, and
        the mask after it. */
    method PosEdge(fu: seq<FuBc>)
      returns (broadcasted: seq<bool>, cdb: seq<Cdb>, prf: seq<BcPrf>)
      requires Valid() && |fu| == n
      modifies this`mask
      ensures Valid()
      ensures mask == NextMask(Valids(fu), old(mask), c)
      ensures |broadcasted| == n && |cdb| == |prf| == c
      // the candidates are the valid inputs that the mask lets through,
      ensures forall j :: 0 <= j < n ==> (And(Valids(fu), old(mask))[j] <==> fu[j].valid && old(mask)[j])
      // exactly the lowest min(C, count) candidates are served ...
      ensures var bits := And(Valids(fu), old(mask));
              forall j :: 0 <= j < n ==> (broadcasted[j] <==> bits[j] && Count(bits, j) < c)
      // ... each on its own channel with its own payload, and the rest stay idle
      ensures var bits := And(Valids(fu), old(mask));
              forall j :: 0 <= j < n && broadcasted[j] ==>
                Count(bits, j) < c && Carries(cdb[Count(bits, j)], prf[Count(bits, j)], fu[j])
      ensures var bits := And(Valids(fu), old(mask));
              forall k :: 0 <= k < c ==>
                if k < Total(bits) then Carries(cdb[k], prf[k], fu[Nth(bits, k)]) else Idle(cdb[k], prf[k])
    {
      ghost var bits := And(Valids(fu), mask);
      var enc, valid := PeMult(And(Valids(fu), mask), c);
      broadcasted := Broadcasted(And(Valids(fu), mask), c);
      cdb := seq(c, k requires 0 <= k < c =>
        if valid[k] then
          var f := fu[enc[k]];
          Cdb(true, f.pc, f.tag, f.robIdx, f.thread, f.brResult, f.brTarget)
        else Cdb(false, 0, 0, 0, 0, false, 0));
      prf := seq(c, k requires 0 <= k < c =>
        if valid[k] then BcPrf(fu[enc[k]].tag, fu[enc[k]].rdValue, true) else BcPrf(0, 0, false));
      forall j | 0 <= j < n
        ensures broadcasted[j] <==> bits[j] && Count(bits, j) < c
      {
        GrantsAreLowest(bits, c, j);
      }
      forall j | 0 <= j < n && bits[j] ensures Count(bits, j) < Total(bits) && Nth(bits, Count(bits, j)) == j {
        OwnChannel(bits, j);
      }
      MaskStep(Valids(fu), mask, c);
      mask := NextMask(Valids(fu), mask, c);
    }
  }

  /** How many times `c` can be taken from `x`, kept free of division. */
  function Rounds(x: nat, c: nat): nat
    requires c > 0
  {
    if x < c then 0 else 1 + Rounds(x - c, c)
  }

  lemma {:induction false} RoundsMono(x: nat, y: nat, c: nat)
    requires c > 0 && x <= y
    ensures Rounds(x, c) <= Rounds(y, c)
  {
    if c <= x {
      RoundsMono(x - c, y - c, c);
    }
  }

  lemma DivStep(x: nat, c: nat)
    requires 0 < c <= x
    ensures (x - c) / c + 1 == x / c
  {
    var q, p := x / c, (x - c) / c;
    assert x == c * q + x % c;
    assert x - c == c * p + (x - c) % c;
    assert c * (p + 1 - q) == c * p + c - c * q;
    MultipleIsLarge(c, p + 1 - q);
  }

  lemma {:induction false} RoundsIsDiv(x: nat, c: nat)
    requires c > 0
    ensures Rounds(x, c) == x / c
  {
    if c <= x {
      RoundsIsDiv(x - c, c);
      DivStep(x, c);
    } else {
      assert x / c == 0;
    }
  }

  // ---- fairness ---------------------------------------------------------------

  /** Upper bound on the cycles input `i` can still be passed over. */
  function Delay(mask: seq<bool>, c: nat, i: nat): nat
    requires i < |mask| && c > 0 && Total(mask) > 0
  {
    if mask[i] then Rounds(Count(mask, i), c)
    else Rounds(Total(mask) - 1, c) + 1 + Rounds(i, c)
  }

  lemma MaskNonEmpty(mask: seq<bool>)
    requires |mask| > 0 && mask[|mask| - 1]
    ensures Total(mask) > 0
  {
  }

  /** A valid candidate that is not served had C candidates below it, and keeps its
      place in the round with C fewer inputs ahead of it. */
  lemma CandidateMovesUp(valid: seq<bool>, mask: seq<bool>, c: nat, i: nat)
    requires |valid| == |mask| && i < |mask| && valid[i] && mask[i]
    requires !Granted(valid, mask, c, i)
    ensures NextMask(valid, mask, c)[i]
    ensures c <= Count(And(valid, mask), i) <= Count(mask, i)
    ensures Count(NextMask(valid, mask, c), i) == Count(mask, i) - c
  {
    var bits := And(valid, mask);
    GrantsAreLowest(bits, c, i);
    QueuedMeansMore(valid, mask, c);
    CountSubset(bits, mask, i);
    CountMono(bits, i + 1, |bits|);
    QueuedMaskLosesC(valid, mask, c, i);
  }

  /** An input outside the round is outside the next one too while candidates are
      queued, and inside it otherwise. */
  lemma OutsiderWaits(valid: seq<bool>, mask: seq<bool>, c: nat, i: nat)
    requires |valid| == |mask| && i < |mask| && !mask[i]
    ensures !Granted(valid, mask, c, i)
    ensures Queued(valid, mask, c) ==> !NextMask(valid, mask, c)[i]
    ensures !Queued(valid, mask, c) ==>
      NextMask(valid, mask, c)[i] && Count(NextMask(valid, mask, c), i) == i
  {
    GrantsAreLowest(And(valid, mask), c, i);
    OnesCount(|mask|, i);
  }

  /** How one cycle changes the bound, from the facts about the two masks alone. */
  lemma DelayStep(mask: seq<bool>, next: seq<bool>, c: nat, i: nat, queued: bool)
    requires |mask| == |next| && i < |mask| && c > 0 && Total(mask) > 0 && Total(next) > 0
    requires mask[i] ==> next[i] && Count(next, i) == Count(mask, i) - c
    requires !mask[i] && queued ==> !next[i] && Total(next) == Total(mask) - c
    requires !mask[i] && !queued ==> next[i] && Count(next, i) == i
    ensures Delay(next, c, i) < Delay(mask, c, i)
    ensures mask[i] || queued || Total(mask) <= c ==> Delay(next, c, i) == Delay(mask, c, i) - 1
  {
    if mask[i] {
      assert Rounds(Count(mask, i), c) == 1 + Rounds(Count(mask, i) - c, c);
    } else if queued {
      assert Rounds(Total(mask) - 1, c) == 1 + Rounds(Total(mask) - 1 - c, c);
    }
  }

  /** A valid input that is passed over gets strictly closer to being served; with
      every input valid, by exactly one. */
  lemma PassedOverGetsCloser(valid: seq<bool>, mask: seq<bool>, c: nat, i: nat)
    requires |valid| == |mask| && MaskInv(mask, c)
    requires i < |mask| && valid[i] && !Granted(valid, mask, c, i)
    ensures Total(mask) > 0 && Total(NextMask(valid, mask, c)) > 0
    ensures Delay(NextMask(valid, mask, c), c, i) < Delay(mask, c, i)
    ensures valid == Ones(|mask|) ==>
      Delay(NextMask(valid, mask, c), c, i) == Delay(mask, c, i) - 1
  {
    var next := NextMask(valid, mask, c);
    MaskNonEmpty(mask);
    MaskStep(valid, mask, c);
    MaskNonEmpty(next);
    if mask[i] {
      CandidateMovesUp(valid, mask, c, i);
    } else {
      OutsiderWaits(valid, mask, c, i);
      QueuedMeansMore(valid, mask, c);
      if valid == Ones(|mask|) {
        assert And(valid, mask) == mask;
      }
    }
    DelayStep(mask, next, c, i, Queued(valid, mask, c));
  }

  /** With every input valid, an input whose bound is not used up is not served. */
  lemma FullLoadStep(mask: seq<bool>, c: nat, i: nat)
    requires MaskInv(mask, c) && i < |mask|
    requires Total(mask) > 0 && Delay(mask, c, i) > 0
    ensures !Granted(Ones(|mask|), mask, c, i)
  {
    assert And(Ones(|mask|), mask) == mask;
    GrantsAreLowest(mask, c, i);
  }

  /** In every cycle of the run the input is valid and passed over. */
  ghost predicate PassedOver(run: seq<seq<bool>>, mask: seq<bool>, c: nat, i: nat)
    requires i < |mask|
    decreases |run|
  {
    run == [] ||
    (&& |run[0]| == |mask| && run[0][i] && !Granted(run[0], mask, c, i)
     && PassedOver(run[1..], NextMask(run[0], mask, c), c, i))
  }

  lemma {:induction false} RunBound(run: seq<seq<bool>>, mask: seq<bool>, c: nat, i: nat)
    requires MaskInv(mask, c) && i < |mask| && PassedOver(run, mask, c, i)
    ensures Total(mask) > 0 && |run| <= Delay(mask, c, i)
    decreases |run|
  {
    MaskNonEmpty(mask);
    if run != [] {
      PassedOverGetsCloser(run[0], mask, c, i);
      MaskStep(run[0], mask, c);
      RunBound(run[1..], NextMask(run[0], mask, c), c, i);
    }
  }

  lemma {:induction false} MissingBit(mask: seq<bool>, i: nat, k: nat)
    requires i < k <= |mask| && !mask[i]
    ensures Count(mask, k) < k
  {
    if i < k - 1 {
      MissingBit(mask, i, k - 1);
    }
  }

  lemma DelayBound(mask: seq<bool>, c: nat, i: nat)
    requires MaskInv(mask, c) && i < |mask| && |mask| >= 2
    ensures Total(mask) > 0 && Delay(mask, c, i) <= Rounds(|mask| - 1, c) + Rounds(|mask| - 2, c)
  {
    var n := |mask|;
    MaskNonEmpty(mask);
    if mask[i] {
      RoundsMono(Count(mask, i), n - 1, c);
    } else {
      MissingBit(mask, i, n);
      RoundsMono(Total(mask) - 1, n - 1 - c, c);
      RoundsMono(i, n - 2, c);
    }
  }

  /** Bounded waiting: from any reachable mask and under any load, an input that
      stays valid is passed over at most `MaxWait` times in a row. */
  lemma BoundedWaiting(run: seq<seq<bool>>, mask: seq<bool>, c: nat, i: nat)
    requires MaskInv(mask, c) && i < |mask| && |mask| >= 2
    requires PassedOver(run, mask, c, i)
    ensures |run| <= MaxWait(|mask|, c)
  {
    RunBound(run, mask, c, i);
    DelayBound(mask, c, i);
    RoundsIsDiv(|mask| - 1, c);
    RoundsIsDiv(|mask| - 2, c);
  }

  function FullLoad(n: nat, cycles: nat): seq<seq<bool>> { seq(cycles, _ => Ones(n)) }

  lemma {:induction false} FullLoadRun(mask: seq<bool>, c: nat, i: nat, k: nat)
    requires MaskInv(mask, c) && i < |mask| && Total(mask) > 0 && k <= Delay(mask, c, i)
    ensures PassedOver(FullLoad(|mask|, k), mask, c, i)
    decreases k
  {
    if k > 0 {
      var n := |mask|;
      FullLoadStep(mask, c, i);
      PassedOverGetsCloser(Ones(n), mask, c, i);
      MaskStep(Ones(n), mask, c);
      FullLoadRun(NextMask(Ones(n), mask, c), c, i, k - 1);
      assert FullLoad(n, k)[1..] == FullLoad(n, k - 1);
    }
  }

  /** The load that serves input N-2 early in a round: the C-1 lowest inputs and
      the two highest. */
  function EarlyLoad(n: nat, c: nat): seq<bool> {
    seq(n, k => k < c - 1 || k >= n - 2)
  }

  lemma {:induction false} EarlyCount(n: nat, c: nat, k: nat)
    requires 0 < c < n && k <= n
    ensures Count(EarlyLoad(n, c), k) ==
      if k <= c - 1 then k else if k <= n - 2 then c - 1 else c + 1 - (n - k)
  {
    if k > 0 {
      EarlyCount(n, c, k - 1);
    }
  }

  /** The bound is exact: whenever there are more inputs than channels, some run
      from the initial mask makes input N-2 wait `MaxWait` cycles. */
  lemma BoundIsReached(n: nat, c: nat)
    requires 0 < c < n
    ensures var mask := NextMask(EarlyLoad(n, c), Ones(n), c);
            PassedOver(FullLoad(n, MaxWait(n, c)), mask, c, n - 2)
  {
    var load := EarlyLoad(n, c);
    var bits := And(load, Ones(n));
    assert bits == load;
    var i := n - 2;
    EarlyCount(n, c, i);
    EarlyCount(n, c, n);
    OnesInv(n, c);
    QueuedMeansMore(load, Ones(n), c);
    MaskStep(load, Ones(n), c);
    GrantsAreLowest(bits, c, i);
    var mask := NextMask(load, Ones(n), c);
    RoundsIsDiv(n - 1, c);
    RoundsIsDiv(n - 2, c);
    FullLoadRun(mask, c, i, MaxWait(n, c));
  }

  /** A cycle serves somebody exactly when there is a candidate. */
  lemma CandidateMeansGrant(valid: seq<bool>, mask: seq<bool>, c: nat)
    requires |valid| == |mask| && c > 0
    ensures Total(And(valid, mask)) > 0 <==> exists k :: 0 <= k < |mask| && Granted(valid, mask, c, k)
  {
    var bits := And(valid, mask);
    if Total(bits) > 0 {
      GrantsAreLowest(bits, c, Nth(bits, 0));
      assert Granted(valid, mask, c, Nth(bits, 0));
    }
    forall k | 0 <= k < |mask| && Granted(valid, mask, c, k)
      ensures Total(bits) > 0
    {
      GrantsAreLowest(bits, c, k);
      CountMono(bits, k + 1, |bits|);
    }
  }

  /** While some input stays valid there are never two grantless cycles in a row. */
  lemma NoTwoIdleCycles(v0: seq<bool>, v1: seq<bool>, mask: seq<bool>, c: nat, i: nat)
    requires |v0| == |v1| == |mask| && MaskInv(mask, c) && i < |mask|
    requires forall k :: 0 <= k < |mask| ==> !Granted(v0, mask, c, k)
    requires v1[i]
    ensures exists k :: 0 <= k < |mask| && Granted(v1, NextMask(v0, mask, c), c, k)
  {
    CandidateMeansGrant(v0, mask, c);
    QueuedMeansMore(v0, mask, c);
    var next := NextMask(v0, mask, c);
    var bits := And(v1, next);
    assert bits[i];
    CountMono(bits, i + 1, |bits|);
    CandidateMeansGrant(v1, next, c);
  }
}
