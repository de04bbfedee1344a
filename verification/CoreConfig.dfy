/** Sizes of the out-of-order core, kept symbolic. */
module CoreConfig {

  function Min(a: nat, b: nat): nat { if a < b then a else b }

  function One(b: bool): nat { if b then 1 else 0 }

  lemma MultipleIsLarge(c: int, d: int)
    requires c > 0
    ensures d >= 1 ==> c * d >= c
    ensures d <= -1 ==> c * d <= -c
  {
  }

  function Pow2(k: nat): (p: nat)
    ensures p > 0
  {
    if k == 0 then 1 else 2 * Pow2(k - 1)
  }

  function ClogFrom(n: nat, k: nat): (r: nat)
    requires forall j :: 0 <= j < k ==> Pow2(j) < n
    ensures n <= Pow2(r)
    ensures forall j :: 0 <= j < r ==> Pow2(j) < n
    decreases n - Pow2(k)
  {
    if n <= Pow2(k) then k
    else
      assert Pow2(k) < Pow2(k + 1);
      ClogFrom(n, k + 1)
  }

  /** `$clog2(n)`: the least k with n <= 2^k. */
  function Clog2(n: nat): nat { ClogFrom(n, 0) }

  lemma {:induction false} Pow2Mono(j: nat, k: nat)
    requires j < k
    ensures Pow2(j) < Pow2(k)
  {
    if j < k - 1 {
      Pow2Mono(j, k - 1);
    }
  }

  lemma ClogOfPow2(k: nat)
    ensures Clog2(Pow2(k)) == k
  {
    var r := Clog2(Pow2(k));
    assert r <= k;
    if r < k {
      Pow2Mono(r, k);
    }
  }

  /** Threads, architectural registers (2^archBits, register 0 included), physical
      registers, dispatch channels and retire channels. */
  datatype Config = Config(threads: nat, archBits: nat, phys: nat, dpNum: nat, rtNum: nat) {
    function Arch(): nat { Pow2(archBits) }

    /** Registers that need a tag: all but register 0, in every thread. */
    function Committed(): nat { threads * (Arch() - 1) }

    ghost predicate Valid() {
      threads > 0 && dpNum > 0 && rtNum > 0 && archBits > 0 && Committed() + 1 < phys
    }

    function FlEntries(): nat
      requires Valid()
    {
      phys - Committed() - 1
    }

    /** Tag of free list entry 0 after reset. */
    function FlStart(): int { threads * Arch() - (threads - 1) }

    /** Number of values of the free list's counters. */
    function FlCounterRange(): nat
      requires Valid()
    {
      Pow2(Clog2(FlEntries() + 1))
    }
  }
}
