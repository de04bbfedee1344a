/** The multi-output priority encoder that the free list (`pe_mult_fl`) and the
    broadcaster (`bc_pe_mult`) share: a chain of single encoders in which every
    stage hides the bit found by the stage before it.  Bit vectors are
    sequences, index 0 being the least significant bit. */
module PriorityEncoder {

  /** Number of set bits among the lowest `k`. */
  function Count(bits: seq<bool>, k: nat): (n: nat)
    requires k <= |bits|
    ensures n <= k
  {
    if k == 0 then 0 else Count(bits, k - 1) + (if bits[k - 1] then 1 else 0)
  }

  function Total(bits: seq<bool>): nat { Count(bits, |bits|) }

  /** What one encoder reports: the lowest set bit, or `|bits|` if there is none. */
  function Lowest(bits: seq<bool>): (k: nat)
    ensures k <= |bits|
    ensures k < |bits| ==> bits[k]
    ensures forall j :: 0 <= j < k ==> !bits[j]
  {
    if bits == [] then 0 else if bits[0] then 0 else 1 + Lowest(bits[1..])
  }

  function Any(bits: seq<bool>): bool { Lowest(bits) < |bits| }

  /** `enc_o` of one encoder: index 0 when no bit is set. */
  function Enc(bits: seq<bool>): nat { if Any(bits) then Lowest(bits) else 0 }

  /** The scan of `pe`: from the highest bit down, every set bit overwrites
      `enc_o`, so the lowest one stays. */
  method Encode(bits: seq<bool>) returns (enc: nat, valid: bool)
    ensures enc == Enc(bits) && valid == Any(bits)
  {
    enc := 0;
    valid := false;
    var i := |bits| - 1;
    while 0 <= i
      invariant -1 <= i < |bits|
      invariant valid <==> exists j :: i < j < |bits| && bits[j]
      invariant valid ==> i < enc < |bits| && bits[enc] && forall j :: i < j < enc ==> !bits[j]
      invariant !valid ==> enc == 0
    {
      if bits[i] {
        enc := i;
        valid := true;
      }
      i := i - 1;
    }
  }

  /** `binary_decoder`: one-hot, or all zeros. */
  function OneHot(n: nat, enc: nat, valid: bool): seq<bool> {
    seq(n, k => valid && k == enc)
  }

  function AndNot(a: seq<bool>, b: seq<bool>): seq<bool>
    requires |a| == |b|
  {
    seq(|a|, k requires 0 <= k < |a| => a[k] && !b[k])
  }

  /** `pe_bit_i[i]`: the input of stage `i`. */
  function StageBits(bits: seq<bool>, i: nat): (r: seq<bool>)
    ensures |r| == |bits|
  {
    if i == 0 then bits
    else
      var prev := StageBits(bits, i - 1);
      AndNot(prev, OneHot(|bits|, Enc(prev), Any(prev)))
  }

  /** `enc_o[i]` and `valid_o[i]`. */
  function StageEnc(bits: seq<bool>, i: nat): nat { Enc(StageBits(bits, i)) }

  function StageValid(bits: seq<bool>, i: nat): bool { Any(StageBits(bits, i)) }

  lemma {:induction false} CountMono(bits: seq<bool>, j: nat, k: nat)
    requires j <= k <= |bits|
    ensures Count(bits, j) <= Count(bits, k)
  {
    if j < k {
      CountMono(bits, j, k - 1);
    }
  }

  function NthBelow(bits: seq<bool>, i: nat, m: nat): (k: nat)
    requires m <= |bits| && i < Count(bits, m)
    ensures k < m && bits[k] && Count(bits, k) == i
  {
    if i < Count(bits, m - 1) then NthBelow(bits, i, m - 1) else m - 1
  }

  /** Index of the `i`-th set bit, counted from 0 at the bottom. */
  function Nth(bits: seq<bool>, i: nat): (k: nat)
    requires i < Total(bits)
    ensures k < |bits| && bits[k] && Count(bits, k) == i
  {
    NthBelow(bits, i, |bits|)
  }

  lemma SetBitCounts(bits: seq<bool>, j: nat, k: nat)
    requires j < k <= |bits| && bits[j]
    ensures Count(bits, j) < Count(bits, k)
  {
    CountMono(bits, j + 1, k);
  }

  /** At most one set bit has exactly `i` set bits below it. */
  lemma NthUnique(bits: seq<bool>, j: nat, k: nat)
    requires j < |bits| && k < |bits| && bits[j] && bits[k]
    requires Count(bits, j) == Count(bits, k)
    ensures j == k
  {
    if j < k {
      SetBitCounts(bits, j, k);
    } else if k < j {
      SetBitCounts(bits, k, j);
    }
  }

  lemma LowestOfStage(bits: seq<bool>, i: nat)
    requires forall k :: 0 <= k < |bits| ==>
      (StageBits(bits, i)[k] <==> bits[k] && i <= Count(bits, k))
    ensures Any(StageBits(bits, i)) <==> i < Total(bits)
    ensures i < Total(bits) ==> Lowest(StageBits(bits, i)) == Nth(bits, i)
  {
    var s := StageBits(bits, i);
    if i < Total(bits) {
      var n := Nth(bits, i);
      assert s[n];
      var l := Lowest(s);
      CountMono(bits, l, n);
      NthUnique(bits, l, n);
    } else if Any(s) {
      var l := Lowest(s);
      CountMono(bits, l + 1, |bits|);
      assert false;
    }
  }

  /** Stage `i` sees exactly the set bits that have at least `i` set bits below them. */
  lemma {:induction false} StageBitsAre(bits: seq<bool>, i: nat)
    ensures forall k :: 0 <= k < |bits| ==>
      (StageBits(bits, i)[k] <==> bits[k] && i <= Count(bits, k))
  {
    if i > 0 {
      StageBitsAre(bits, i - 1);
      var prev := StageBits(bits, i - 1);
      if Any(prev) {
        LowestOfStage(bits, i - 1);
      }
      forall k | 0 <= k < |bits|
        ensures StageBits(bits, i)[k] <==> bits[k] && i <= Count(bits, k)
      {
        if prev[k] {
          assert Lowest(prev) <= k;
          if Count(bits, k) == i - 1 {
            NthUnique(bits, k, Lowest(prev));
          }
        }
      }
    }
  }

  /** The chain reports the `i`-th lowest set bit on output `i`, and an invalid
      output exactly when the input has no such bit. */
  lemma ChainIsNth(bits: seq<bool>, i: nat)
    ensures StageValid(bits, i) <==> i < Total(bits)
    ensures i < Total(bits) ==> StageEnc(bits, i) == Nth(bits, i)
  {
    StageBitsAre(bits, i);
    LowestOfStage(bits, i);
  }

  /** A bit is selected by one of the first `m` outputs. */
  ghost predicate ChosenBy(bits: seq<bool>, m: nat, k: nat) {
    exists i :: 0 <= i < m && StageValid(bits, i) && StageEnc(bits, i) == k
  }

  /** The first `m` outputs together select exactly the lowest `m` set bits. */
  lemma ChosenAreLowest(bits: seq<bool>, m: nat, k: nat)
    requires k < |bits|
    ensures ChosenBy(bits, m, k) <==> bits[k] && Count(bits, k) < m
  {
    if ChosenBy(bits, m, k) {
      var i :| 0 <= i < m && StageValid(bits, i) && StageEnc(bits, i) == k;
      ChainIsNth(bits, i);
    }
    if bits[k] && Count(bits, k) < m {
      var i := Count(bits, k);
      CountMono(bits, k + 1, |bits|);
      ChainIsNth(bits, i);
      NthUnique(bits, k, Nth(bits, i));
    }
  }

  /** The whole chain (`bc_pe_mult`, `pe_mult_fl`): output `k` is the `k`-th lowest set bit, if
      there is one, and otherwise invalid with index 0. */
  method PeMult(bits: seq<bool>, c: nat) returns (enc: seq<nat>, valid: seq<bool>)
    ensures |enc| == |valid| == c
    ensures forall k :: 0 <= k < c ==> valid[k] == (k < Total(bits))
    ensures forall k :: 0 <= k < c ==> enc[k] == if k < Total(bits) then Nth(bits, k) else 0
  {
    var left := bits;
    enc := [];
    valid := [];
    for k := 0 to c
      invariant left == StageBits(bits, k)
      invariant |enc| == |valid| == k
      invariant forall m :: 0 <= m < k ==> valid[m] == (m < Total(bits))
      invariant forall m :: 0 <= m < k ==> enc[m] == if m < Total(bits) then Nth(bits, m) else 0
    {
      ChainIsNth(bits, k);
      var e, v := Encode(left);
      enc := enc + [e];
      valid := valid + [v];
      left := AndNot(left, OneHot(|bits|, e, v));
    }
  }
}
