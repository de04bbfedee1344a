/** Arithmetic modulo 17 and evaluation of polynomials given by their coefficients,
    constant term first. */
module Field17 {

  /** The representative in 0 .. 16, by repeated addition or subtraction. */
  function Mod(x: int): (r: nat)
    ensures r < 17
    decreases if x < 0 then 17 - x else x
  {
    if x < 0 then Mod(x + 17) else if x >= 17 then Mod(x - 17) else x
  }

  lemma RemainderStep(x: int)
    ensures (x + 17) % 17 == x % 17
  {
  }

  lemma {:induction false} ModIsRemainder(x: int)
    ensures Mod(x) == x % 17
    decreases if x < 0 then 17 - x else x
  {
    if x < 0 {
      RemainderStep(x);
      ModIsRemainder(x + 17);
    } else if x >= 17 {
      RemainderStep(x - 17);
      ModIsRemainder(x - 17);
    }
  }

  function Pow(b: int, e: nat): int { if e == 0 then 1 else b * Pow(b, e - 1) }

  /** Value of the polynomial `s` at `z`. */
  function Eval(s: seq<int>, z: int): int { if s == [] then 0 else s[0] + z * Eval(s[1..], z) }

  /** The same value as an explicit sum of the first `m` terms. */
  function EvalSum(s: seq<int>, z: int, m: nat): int
    requires m <= |s|
  {
    if m == 0 then 0 else EvalSum(s, z, m - 1) + s[m - 1] * Pow(z, m - 1)
  }

  lemma ModShift(x: int, k: int)
    ensures Mod(x + 17 * k) == Mod(x)
  {
    ModIsRemainder(x);
    ModIsRemainder(x + 17 * k);
  }

  /** By how many times 17 two congruent numbers differ. */
  lemma Turns(x: int, x': int) returns (p: int)
    requires Mod(x) == Mod(x')
    ensures x == x' + 17 * p
  {
    ModIsRemainder(x);
    ModIsRemainder(x');
    p := x / 17 - x' / 17;
  }

  lemma ModAdd(x: int, x': int, y: int, y': int)
    requires Mod(x) == Mod(x') && Mod(y) == Mod(y')
    ensures Mod(x + y) == Mod(x' + y') && Mod(x - y) == Mod(x' - y')
  {
    var p := Turns(x, x');
    var q := Turns(y, y');
    ModShift(x' + y', p + q);
    ModShift(x' - y', p - q);
  }

  lemma Expand(a: int, p: int, b: int, q: int)
    ensures (a + 17 * p) * (b + 17 * q) == a * b + 17 * (a * q + p * b + 17 * (p * q))
  {
    assert (a + 17 * p) * (b + 17 * q) == a * (b + 17 * q) + (17 * p) * (b + 17 * q);
    assert a * (b + 17 * q) == a * b + a * (17 * q);
    assert (17 * p) * (b + 17 * q) == (17 * p) * b + (17 * p) * (17 * q);
    assert a * (17 * q) == 17 * (a * q);
    assert (17 * p) * b == 17 * (p * b);
    assert (17 * p) * (17 * q) == 17 * (17 * (p * q));
  }

  lemma ModMul(x: int, x': int, y: int, y': int)
    requires Mod(x) == Mod(x') && Mod(y) == Mod(y')
    ensures Mod(x * y) == Mod(x' * y')
  {
    var p := Turns(x, x');
    var q := Turns(y, y');
    Expand(x', p, y', q);
    ModShift(x' * y', x' * q + p * y' + 17 * (p * q));
  }

  lemma ModIdem(x: int)
    ensures Mod(Mod(x)) == Mod(x)
  {
  }

  lemma Residues(a: nat, b: nat)
    requires a < 17 && b < 17 && (a * b) % 17 == 0
    ensures a == 0 || b == 0
  {
    if a <= 8 {
      assert a == 0 || a == 1 || a == 2 || a == 3 || a == 4 || a == 5 || a == 6 || a == 7 || a == 8;
    } else {
      assert a == 9 || a == 10 || a == 11 || a == 12 || a == 13 || a == 14 || a == 15 || a == 16;
    }
  }

  /** 17 is prime. */
  lemma NoZeroDivisors(x: int, y: int)
    requires Mod(x * y) == 0
    ensures Mod(x) == 0 || Mod(y) == 0
  {
    var a, b := Mod(x), Mod(y);
    ModMul(x, a, y, b);
    ModIsRemainder(a * b);
    Residues(a, b);
  }

  // ---- powers ---------------------------------------------------------------------

  lemma Assoc(x: int, y: int, z: int)
    ensures (x * y) * z == x * (y * z)
  {
  }

  lemma {:induction false} PowAdd(b: int, d: nat, e: nat)
    ensures Pow(b, d + e) == Pow(b, d) * Pow(b, e)
  {
    if d > 0 {
      PowAdd(b, d - 1, e);
      Assoc(b, Pow(b, d - 1), Pow(b, e));
    }
  }

  lemma Swap(a: int, b: int, c: int, d: int)
    ensures (a * b) * (c * d) == (a * c) * (b * d)
  {
    Assoc(a, b, c * d);
    Assoc(b, c, d);
    Assoc(c, b, d);
    Assoc(a, c, b * d);
  }

  lemma {:induction false} PowMul(a: int, b: int, e: nat)
    ensures Pow(a * b, e) == Pow(a, e) * Pow(b, e)
  {
    if e > 0 {
      PowMul(a, b, e - 1);
      Swap(a, b, Pow(a, e - 1), Pow(b, e - 1));
    }
  }

  lemma {:induction false} PowMod(b: int, b': int, e: nat)
    requires Mod(b) == Mod(b')
    ensures Mod(Pow(b, e)) == Mod(Pow(b', e))
  {
    if e > 0 {
      PowMod(b, b', e - 1);
      ModMul(b, b', Pow(b, e - 1), Pow(b', e - 1));
    }
  }

  lemma {:induction false} PowOne(e: nat)
    ensures Pow(1, e) == 1
  {
    if e > 0 {
      PowOne(e - 1);
    }
  }

  lemma {:induction false} PowPow(b: int, d: nat, e: nat)
    ensures d * e >= 0 && Pow(Pow(b, d), e) == Pow(b, d * e)
  {
    if e > 0 {
      PowPow(b, d, e - 1);
      assert d * e == d + d * (e - 1);
      PowAdd(b, d, d * (e - 1));
    }
  }

  // ---- evaluation -------------------------------------------------------------------

  lemma {:induction false} EvalMod(s: seq<int>, s': seq<int>, z: int, z': int)
    requires |s| == |s'| && Mod(z) == Mod(z')
    requires forall i :: 0 <= i < |s| ==> Mod(s[i]) == Mod(s'[i])
    ensures Mod(Eval(s, z)) == Mod(Eval(s', z'))
  {
    if s != [] {
      EvalMod(s[1..], s'[1..], z, z');
      ModMul(z, z', Eval(s[1..], z), Eval(s'[1..], z'));
      ModAdd(s[0], s'[0], z * Eval(s[1..], z), z' * Eval(s'[1..], z'));
    }
  }

  lemma Distribute(a: int, b: int, c: int)
    ensures a * (b + c) == a * b + a * c
  {
  }

  lemma Commute(a: int, b: int, c: int)
    ensures a * (b * c) == b * (a * c)
  {
    Assoc(a, b, c);
    Assoc(b, a, c);
  }

  lemma {:induction false} EvalAppend(s: seq<int>, x: int, z: int)
    ensures Eval(s + [x], z) == Eval(s, z) + x * Pow(z, |s|)
  {
    if s == [] {
      assert s + [x] == [x];
    } else {
      assert (s + [x])[1..] == s[1..] + [x];
      EvalAppend(s[1..], x, z);
      Distribute(z, Eval(s[1..], z), x * Pow(z, |s| - 1));
      Commute(z, x, Pow(z, |s| - 1));
    }
  }

  lemma {:induction false} EvalIsSum(s: seq<int>, z: int, m: nat)
    requires m <= |s|
    ensures Eval(s[..m], z) == EvalSum(s, z, m)
  {
    if m > 0 {
      EvalIsSum(s, z, m - 1);
      assert s[..m] == s[..m - 1] + [s[m - 1]];
      EvalAppend(s[..m - 1], s[m - 1], z);
    }
  }
}
