/** The discrete Fourier transform over the integers modulo 17 as a function on
    coefficient sequences: splitting, inversion and convolution. */
module Transform {

  import opened Field17

  /** Values of the polynomial `s` at the powers of `root`. */
  function Dft(s: seq<int>, root: int): (r: seq<int>)
    ensures |r| == |s|
  {
    seq(|s|, j requires 0 <= j => Mod(Eval(s, Pow(root, j))))
  }

  ghost predicate Reduced(s: seq<int>) { forall i :: 0 <= i < |s| ==> 0 <= s[i] < 17 }

  // ---- even/odd split -----------------------------------------------------------------

  /** Every second coefficient, starting at `b`. */
  function Half(s: seq<int>, b: nat): (h: seq<int>)
    requires b < 2
    ensures |h| == |s| / 2
  {
    seq(|s| / 2, i requires 0 <= i < |s| / 2 => s[2 * i + b])
  }

  lemma Regroup(a: int, b: int, z: int, e: int, o: int)
    ensures a + z * (b + z * (e + z * o)) == (a + (z * z) * e) + z * (b + (z * z) * o)
  {
    Distribute(z, e, z * o);
    Distribute(z, b, z * e + z * (z * o));
    Distribute(z, z * e, z * (z * o));
    Distribute(z, b, (z * z) * o);
    Assoc(z, z, e);
    Assoc(z, z, o);
  }

  lemma {:induction false} EvalSplit(s: seq<int>, z: int)
    requires |s| % 2 == 0
    ensures Eval(s, z) == Eval(Half(s, 0), z * z) + z * Eval(Half(s, 1), z * z)
  {
    if s != [] {
      var t := s[2..];
      EvalSplit(t, z);
      assert Half(s, 0)[1..] == Half(t, 0) && Half(s, 1)[1..] == Half(t, 1);
      assert s[1..][1..] == t;
      var e, o := Eval(Half(t, 0), z * z), Eval(Half(t, 1), z * z);
      Regroup(s[0], s[1], z, e, o);
    }
  }

  /** `root` generates the `len`-th roots of unity: its middle power is -1. */
  ghost predicate IsRoot(root: int, len: nat) {
    if len == 1 then Mod(root) == 1 else len % 2 == 0 && Mod(Pow(root, len / 2)) == 16
  }

  /** The square of a generator generates the roots of half the order. */
  lemma SquareIsRoot(root: int, len: nat)
    requires len >= 2 && IsRoot(root, len) && (len / 2 == 1 || len / 2 % 2 == 0)
    ensures IsRoot(Mod(root * root), len / 2) && Mod(root) != 1
  {
    var h := len / 2;
    assert Mod(root) != 1 by {
      if Mod(root) == 1 {
        PowMod(root, 1, h);
        PowOne(h);
      }
    }
    if h == 1 {
      assert Pow(root, 1) == root;
      ModMul(root, 16, root, 16);
      ModIsRemainder(16 * 16);
    } else {
      assert h == h / 2 + h / 2;
      PowMod(Mod(root * root), root * root, h / 2);
      PowMul(root, root, h / 2);
      PowAdd(root, h / 2, h / 2);
    }
  }

  /** The value at `z` from the halves' values at any square root of `z` squared. */
  lemma ValueFromHalves(s: seq<int>, z: int, q: int, f: int)
    requires |s| % 2 == 0 && Mod(q) == Mod(z * z) && Mod(z) == Mod(f)
    ensures Mod(Eval(s, z)) == Mod(Mod(Eval(Half(s, 0), q)) + f * Mod(Eval(Half(s, 1), q)))
  {
    var e, o := Eval(Half(s, 0), q), Eval(Half(s, 1), q);
    EvalSplit(s, z);
    EvalMod(Half(s, 0), Half(s, 0), q, z * z);
    EvalMod(Half(s, 1), Half(s, 1), q, z * z);
    ModMul(z, f, Eval(Half(s, 1), z * z), Mod(o));
    ModAdd(Eval(Half(s, 0), z * z), Mod(e), z * Eval(Half(s, 1), z * z), f * Mod(o));
  }

  /** Half a turn negates a power of the root. */
  lemma HalfTurn(root: int, len: nat, j: nat)
    requires len >= 2 && IsRoot(root, len)
    ensures Mod(Pow(root, j + len / 2)) == Mod(-Pow(root, j))
  {
    PowAdd(root, j, len / 2);
    assert Mod(-1) == 16;
    ModMul(Pow(root, j), Pow(root, j), Pow(root, len / 2), -1);
  }

  lemma Negate(x: int, y: int)
    requires Mod(x) == Mod(y)
    ensures Mod(-x) == Mod(-y)
  {
    ModAdd(0, 0, x, y);
  }

  lemma SquareOfNegative(w: int, z: int)
    requires Mod(w) == Mod(-z)
    ensures Mod(w * w) == Mod(z * z)
  {
    ModMul(w, -z, w, -z);
    assert (-z) * (-z) == z * z;
  }

  lemma NegativeFactor(x: int, y: int)
    ensures (-x) * y == -(x * y)
  {
  }

  lemma ButterflyAt(s: seq<int>, z: int, w: int, q: int, base: int)
    requires |s| % 2 == 0 && Mod(q) == Mod(z * z) && Mod(w) == Mod(-z) && Mod(base) == Mod(z)
    ensures Mod(Eval(s, z)) == Mod(Mod(Eval(Half(s, 0), q)) + base * Mod(Eval(Half(s, 1), q)))
    ensures Mod(Eval(s, w)) == Mod(Mod(Eval(Half(s, 0), q)) - base * Mod(Eval(Half(s, 1), q)))
  {
    ValueFromHalves(s, z, q, base);
    SquareOfNegative(w, z);
    Negate(z, base);
    ValueFromHalves(s, w, q, -base);
    NegativeFactor(base, Mod(Eval(Half(s, 1), q)));
  }

  /** One butterfly: values at a power of the root and at its negative, from the two halves. */
  lemma Butterfly(s: seq<int>, root: int, j: nat, base: int)
    requires |s| >= 2 && IsRoot(root, |s|) && j < |s| / 2 && Mod(base) == Mod(Pow(root, j))
    ensures var e := Mod(Eval(Half(s, 0), Pow(Mod(root * root), j)));
            var o := Mod(Eval(Half(s, 1), Pow(Mod(root * root), j)));
            && Mod(Eval(s, Pow(root, j))) == Mod(e + base * o)
            && Mod(Eval(s, Pow(root, j + |s| / 2))) == Mod(e - base * o)
  {
    PowMod(Mod(root * root), root * root, j);
    PowMul(root, root, j);
    HalfTurn(root, |s|, j);
    ButterflyAt(s, Pow(root, j), Pow(root, j + |s| / 2), Pow(Mod(root * root), j), base);
  }

  // ---- inversion ------------------------------------------------------------------------

  /** 1 + z + ... + z^(m-1). */
  function Geo(z: int, m: nat): int { if m == 0 then 0 else Geo(z, m - 1) + Pow(z, m - 1) }

  /** Sum over j < m of u^j times the value of `c` at r^j. */
  function Weighted(c: seq<int>, u: int, r: int, m: nat): int {
    if m == 0 then 0 else Weighted(c, u, r, m - 1) + Pow(u, m - 1) * Eval(c, Pow(r, m - 1))
  }

  lemma {:induction false} GeoTelescopes(z: int, m: nat)
    ensures (z - 1) * Geo(z, m) == Pow(z, m) - 1
  {
    if m > 0 {
      GeoTelescopes(z, m - 1);
      Distribute(z - 1, Geo(z, m - 1), Pow(z, m - 1));
      assert (z - 1) * Pow(z, m - 1) == Pow(z, m) - Pow(z, m - 1);
    }
  }

  lemma {:induction false} GeoOfOne(z: int, m: nat)
    requires Mod(z) == 1
    ensures Mod(Geo(z, m)) == Mod(m)
  {
    if m > 0 {
      GeoOfOne(z, m - 1);
      PowMod(z, 1, m - 1);
      PowOne(m - 1);
      ModAdd(Geo(z, m - 1), m - 1, Pow(z, m - 1), 1);
    }
  }

  /** The powers of an n-th root of unity sum to zero, unless it is 1. */
  lemma GeoSum(z: int, n: nat)
    requires Mod(Pow(z, n)) == 1
    ensures Mod(Geo(z, n)) == if Mod(z) == 1 then Mod(n) else 0
  {
    if Mod(z) == 1 {
      GeoOfOne(z, n);
    } else {
      GeoTelescopes(z, n);
      ModAdd(Pow(z, n), 1, 1, 1);
      ModAdd(z - 1, if Mod(z - 1) == 0 then 0 else z - 1, 1, 1);
      NoZeroDivisors(z - 1, Geo(z, n));
    }
  }

  lemma {:induction false} WeightedSplit(c: seq<int>, u: int, r: int, m: nat)
    requires c != []
    ensures Weighted(c, u, r, m) == c[0] * Geo(u, m) + Weighted(c[1..], u * r, r, m)
  {
    if m > 0 {
      WeightedSplit(c, u, r, m - 1);
      var p, q, e := Pow(u, m - 1), Pow(r, m - 1), Eval(c[1..], Pow(r, m - 1));
      PowMul(u, r, m - 1);
      Distribute(p, c[0], q * e);
      Assoc(p, q, e);
      Distribute(c[0], Geo(u, m - 1), p);
    } else {
      assert c[0] * Geo(u, 0) == 0;
    }
  }

  /** `w` and `r` are inverse to each other and generate n different roots of unity. */
  ghost predicate InversePair(w: int, r: int, n: nat) {
    && n > 0 && Mod(w * r) == 1 && Mod(Pow(w, n)) == 1
    && forall d: nat :: 0 < d < n ==> Mod(Pow(w, d)) != 1
  }

  lemma {:induction false} PowerOfPair(w: int, r: int, k: nat, i: nat)
    requires Mod(w * r) == 1
    ensures i <= k ==> Mod(Pow(w, k) * Pow(r, i)) == Mod(Pow(w, k - i))
    ensures k <= i ==> Mod(Pow(w, k) * Pow(r, i)) == Mod(Pow(r, i - k))
    decreases k
  {
    if k > 0 && i > 0 {
      PowerOfPair(w, r, k - 1, i - 1);
      Swap(w, Pow(w, k - 1), r, Pow(r, i - 1));
      ModMul(w * r, 1, Pow(w, k - 1) * Pow(r, i - 1), Pow(w, k - 1) * Pow(r, i - 1));
    }
  }

  lemma PairCycle(w: int, r: int, n: nat)
    requires InversePair(w, r, n)
    ensures Mod(Pow(r, n)) == 1
  {
    PowerOfPair(w, r, n, n);
    ModMul(Pow(w, n), 1, Pow(r, n), Pow(r, n));
  }

  lemma {:induction false} UnitPower(b: int, k: nat, n: nat)
    requires Mod(Pow(b, n)) == 1
    ensures Mod(Pow(Pow(b, k), n)) == 1
  {
    if k == 0 {
      PowOne(n);
    } else {
      UnitPower(b, k - 1, n);
      PowMul(b, Pow(b, k - 1), n);
      ModMul(Pow(b, n), 1, Pow(Pow(b, k - 1), n), 1);
    }
  }

  /** w^k r^i is an n-th root of unity, and is 1 only for i = k. */
  lemma PairIsUnit(w: int, r: int, n: nat, k: nat, i: nat)
    requires InversePair(w, r, n) && k < n && i < n
    ensures Mod(Pow(Pow(w, k) * Pow(r, i), n)) == 1
    ensures Mod(Pow(w, k) * Pow(r, i)) == 1 <==> i == k
  {
    PairCycle(w, r, n);
    PowMul(Pow(w, k), Pow(r, i), n);
    UnitPower(w, k, n);
    UnitPower(r, i, n);
    ModMul(Pow(Pow(w, k), n), 1, Pow(Pow(r, i), n), 1);
    PowerOfPair(w, r, k, i);
    if k < i {
      PowerOfPair(w, r, i - k, i - k);
      if Mod(Pow(r, i - k)) == 1 {
        ModMul(Pow(w, i - k), Pow(w, i - k), Pow(r, i - k), 1);
      }
    }
  }

  lemma {:induction false} WeightedEmpty(u: int, r: int, m: nat)
    ensures Weighted([], u, r, m) == 0
  {
    if m > 0 {
      WeightedEmpty(u, r, m - 1);
      assert Pow(u, m - 1) * 0 == 0;
    }
  }

  lemma PickStep(x: int, geo: int, rest: int, n: nat, pick: bool)
    requires Mod(geo) == if pick then Mod(n) else 0
    requires pick ==> Mod(rest) == 0
    ensures Mod(x * geo + rest) == if pick then Mod(n * x) else Mod(rest)
  {
    if pick {
      ModMul(x, x, geo, n);
      ModAdd(x * geo, x * n, rest, 0);
    } else {
      ModMul(x, x, geo, 0);
      ModAdd(x * geo, 0, rest, rest);
    }
  }

  /** The weighted sum from coefficient `i` on picks out n times coefficient `k`. */
  lemma {:induction false} PickCoefficient(c: seq<int>, w: int, r: int, n: nat, k: nat, i: nat)
    requires InversePair(w, r, n) && |c| == n && k < n && i <= n
    ensures Mod(Weighted(c[i..], Pow(w, k) * Pow(r, i), r, n)) == if i <= k then Mod(n * c[k]) else 0
    decreases n - i
  {
    var u := Pow(w, k) * Pow(r, i);
    if i == n {
      WeightedEmpty(u, r, n);
    } else {
      PickCoefficient(c, w, r, n, k, i + 1);
      WeightedSplit(c[i..], u, r, n);
      assert c[i..][1..] == c[i + 1..];
      Assoc(Pow(w, k), Pow(r, i), r);
      assert u * r == Pow(w, k) * Pow(r, i + 1);
      PairIsUnit(w, r, n, k, i);
      GeoSum(u, n);
      PickStep(c[i], Geo(u, n), Weighted(c[i + 1..], u * r, r, n), n, i == k);
    }
  }

  lemma TermMod(a: int, a': int, p: int, e: int)
    requires Mod(a) == Mod(a')
    ensures Mod(a + p * e) == Mod(a' + Mod(e) * p)
  {
    ModMul(p, p, e, Mod(e));
    ModAdd(a, a', p * e, p * Mod(e));
  }

  lemma {:induction false} WeightedIsEval(c: seq<int>, u: int, r: int, m: nat)
    requires m <= |c|
    ensures Mod(Weighted(c, u, r, m)) == Mod(EvalSum(Dft(c, r), u, m))
  {
    if m > 0 {
      WeightedIsEval(c, u, r, m - 1);
      assert Dft(c, r)[m - 1] == Mod(Eval(c, Pow(r, m - 1)));
      TermMod(Weighted(c, u, r, m - 1), EvalSum(Dft(c, r), u, m - 1),
              Pow(u, m - 1), Eval(c, Pow(r, m - 1)));
    }
  }

  /** Every entry multiplied by `f`. */
  function Scale(s: seq<int>, f: int): (r: seq<int>)
    ensures |r| == |s|
  {
    seq(|s|, i requires 0 <= i < |s| => Mod(s[i] * f))
  }

  /** Transforming with r and then with w multiplies every coefficient by n. */
  lemma TwiceIsScaling(c: seq<int>, w: int, r: int, k: nat)
    requires InversePair(w, r, |c|) && k < |c|
    ensures Mod(Eval(Dft(c, r), Pow(w, k))) == Mod(|c| * c[k])
  {
    PickCoefficient(c, w, r, |c|, k, 0);
    assert c[0..] == c;
    WeightedIsEval(c, Pow(w, k), r, |c|);
    EvalIsSum(Dft(c, r), Pow(w, k), |c|);
    assert Dft(c, r)[..|c|] == Dft(c, r);
  }

  lemma {:induction false} EvalScale(s: seq<int>, f: int, z: int)
    ensures Mod(Eval(Scale(s, f), z)) == Mod(f * Eval(s, z))
  {
    if s != [] {
      EvalScale(s[1..], f, z);
      assert Scale(s, f)[1..] == Scale(s[1..], f);
      var e := Eval(s[1..], z);
      ModMul(z, z, Eval(Scale(s[1..], f), z), f * e);
      ModAdd(Mod(s[0] * f), s[0] * f, z * Eval(Scale(s[1..], f), z), z * (f * e));
      Commute(z, f, e);
      Distribute(f, s[0], z * e);
    } else {
      assert f * 0 == 0;
    }
  }

  lemma Cancel(n: int, f: int, x: int)
    requires Mod(n * f) == 1
    ensures Mod(f * (n * x)) == Mod(x)
  {
    Assoc(f, n, x);
    ModMul(f * n, 1, x, x);
  }

  /** The inverse law: transform, inverse transform and scaling by 1/n give the
      coefficients back. */
  lemma InverseTransform(c: seq<int>, w: int, r: int, f: int)
    requires InversePair(w, r, |c|) && Mod(|c| * f) == 1 && Reduced(c)
    ensures Scale(Dft(Dft(c, r), w), f) == c
  {
    forall k | 0 <= k < |c| ensures Scale(Dft(Dft(c, r), w), f)[k] == c[k] {
      TwiceIsScaling(c, w, r, k);
      var v := Eval(Dft(c, r), Pow(w, k));
      ModMul(Mod(v), |c| * c[k], f, f);
      Cancel(|c|, f, c[k]);
    }
  }

  /** And so do inverse transform, scaling and transform. */
  lemma InverseThenForward(c: seq<int>, w: int, r: int, f: int)
    requires InversePair(w, r, |c|) && Mod(|c| * f) == 1 && Reduced(c)
    ensures Dft(Scale(Dft(c, r), f), w) == c
  {
    forall k | 0 <= k < |c| ensures Dft(Scale(Dft(c, r), f), w)[k] == c[k] {
      TwiceIsScaling(c, w, r, k);
      EvalScale(Dft(c, r), f, Pow(w, k));
      ModMul(f, f, Eval(Dft(c, r), Pow(w, k)), |c| * c[k]);
      Cancel(|c|, f, c[k]);
    }
  }

  // ---- convolution ------------------------------------------------------------------------

  /** Cyclic shift: multiplication by the variable, modulo z^n = 1. */
  function Rotate(b: seq<int>): (r: seq<int>)
    requires b != []
    ensures |r| == |b|
  {
    [b[|b| - 1]] + b[..|b| - 1]
  }

  function AddMultiple(x: int, b: seq<int>, c: seq<int>): (r: seq<int>)
    requires |b| == |c|
    ensures |r| == |b|
  {
    seq(|b|, k requires 0 <= k < |b| => x * b[k] + c[k])
  }

  /** Cyclic convolution. */
  function Convolve(a: seq<int>, b: seq<int>): (c: seq<int>)
    requires b != []
    ensures |c| == |b|
  {
    if a == [] then seq(|b|, _ => 0) else AddMultiple(a[0], b, Convolve(a[1..], Rotate(b)))
  }

  /** Its `k`-th entry, up to the first `m` terms, with indices taken around the end. */
  function ConvolveSum(a: seq<int>, b: seq<int>, k: nat, m: nat): int
    requires m <= |a| <= |b| && k < |b|
  {
    if m == 0 then 0
    else ConvolveSum(a, b, k, m - 1) + a[m - 1] * b[if m - 1 <= k then k - (m - 1) else k - (m - 1) + |b|]
  }

  lemma {:induction false} ConvolveSumSplit(a: seq<int>, b: seq<int>, k: nat, m: nat)
    requires 0 < m <= |a| <= |b| && k < |b|
    ensures ConvolveSum(a, b, k, m) == a[0] * b[k] + ConvolveSum(a[1..], Rotate(b), k, m - 1)
  {
    if m > 1 {
      ConvolveSumSplit(a, b, k, m - 1);
    } else {
      assert ConvolveSum(a, b, k, 0) == 0;
    }
  }

  lemma ConvolveAt(a: seq<int>, b: seq<int>, k: nat)
    requires 0 < |a| <= |b| && k < |b|
    ensures Convolve(a, b)[k] == a[0] * b[k] + Convolve(a[1..], Rotate(b))[k]
  {
  }

  lemma {:induction false} ConvolveIsSum(a: seq<int>, b: seq<int>, k: nat)
    requires |a| <= |b| && k < |b|
    ensures Convolve(a, b)[k] == ConvolveSum(a, b, k, |a|)
  {
    if a != [] {
      ConvolveAt(a, b, k);
      ConvolveSumSplit(a, b, k, |a|);
      hide Convolve;
      ConvolveIsSum(a[1..], Rotate(b), k);
    }
  }

  lemma {:induction false} EvalZeros(n: nat, z: int)
    ensures Eval(seq(n, _ => 0), z) == 0
  {
    if n > 0 {
      assert seq(n, _ => 0)[1..] == seq(n - 1, _ => 0);
      EvalZeros(n - 1, z);
    }
  }

  lemma {:induction false} EvalAddMultiple(x: int, b: seq<int>, c: seq<int>, z: int)
    requires |b| == |c|
    ensures Eval(AddMultiple(x, b, c), z) == x * Eval(b, z) + Eval(c, z)
  {
    if b != [] {
      assert AddMultiple(x, b, c)[1..] == AddMultiple(x, b[1..], c[1..]);
      EvalAddMultiple(x, b[1..], c[1..], z);
      var d, e := Eval(b[1..], z), Eval(c[1..], z);
      Distribute(z, x * d, e);
      Commute(z, x, d);
      Distribute(x, b[0], z * d);
    }
  }

  lemma RotateStep(z: int, e: int, x: int, p: int)
    requires Mod(z * p) == 1
    ensures Mod(x + z * e) == Mod(z * (e + x * p))
  {
    Distribute(z, e, x * p);
    Commute(z, x, p);
    ModMul(x, x, z * p, 1);
    ModAdd(x, x * (z * p), z * e, z * e);
  }

  lemma EvalRotate(b: seq<int>, z: int)
    requires b != [] && Mod(Pow(z, |b|)) == 1
    ensures Mod(Eval(Rotate(b), z)) == Mod(z * Eval(b, z))
  {
    var n := |b| - 1;
    assert b == b[..n] + [b[n]] && Rotate(b)[1..] == b[..n];
    EvalAppend(b[..n], b[n], z);
    RotateStep(z, Eval(b[..n], z), b[n], Pow(z, n));
  }

  lemma ConvolveStep(x: int, b: int, z: int, a: int, rotated: int, rest: int)
    requires Mod(rest) == Mod(a * rotated) && Mod(rotated) == Mod(z * b)
    ensures Mod(x * b + rest) == Mod((x + z * a) * b)
  {
    ModMul(a, a, rotated, z * b);
    ModAdd(x * b, x * b, rest, a * (z * b));
    Assoc(z, a, b);
    Commute(a, z, b);
    assert (x + z * a) * b == x * b + (z * a) * b;
  }

  lemma {:induction false} EvalConvolve(a: seq<int>, b: seq<int>, z: int)
    requires b != [] && Mod(Pow(z, |b|)) == 1
    ensures Mod(Eval(Convolve(a, b), z)) == Mod(Eval(a, z) * Eval(b, z))
  {
    if a == [] {
      EvalZeros(|b|, z);
      assert 0 * Eval(b, z) == 0;
    } else {
      EvalConvolve(a[1..], Rotate(b), z);
      EvalAddMultiple(a[0], b, Convolve(a[1..], Rotate(b)), z);
      EvalRotate(b, z);
      ConvolveStep(a[0], Eval(b, z), z, Eval(a[1..], z), Eval(Rotate(b), z), Eval(Convolve(a[1..], Rotate(b)), z));
    }
  }

  function Pointwise(a: seq<int>, b: seq<int>): (r: seq<int>)
    requires |a| == |b|
    ensures |r| == |a|
  {
    seq(|a|, i requires 0 <= i < |a| => Mod(a[i] * b[i]))
  }

  function Reduce(s: seq<int>): (r: seq<int>)
    ensures |r| == |s| && Reduced(r)
  {
    seq(|s|, i requires 0 <= i < |s| => Mod(s[i]))
  }

  lemma DftOfConvolution(a: seq<int>, b: seq<int>, w: int, r: int)
    requires |a| == |b| && InversePair(w, r, |b|)
    ensures Dft(Reduce(Convolve(a, b)), w) == Pointwise(Dft(a, w), Dft(b, w))
  {
    var c := Convolve(a, b);
    forall j | 0 <= j < |b| ensures Dft(Reduce(c), w)[j] == Pointwise(Dft(a, w), Dft(b, w))[j] {
      var z := Pow(w, j);
      UnitPower(w, j, |b|);
      EvalConvolve(a, b, z);
      EvalMod(Reduce(c), c, z, z);
      ModMul(Eval(a, z), Mod(Eval(a, z)), Eval(b, z), Mod(Eval(b, z)));
    }
  }

  /** The convolution theorem: multiplying transforms entry by entry and transforming
      back gives the cyclic convolution. */
  lemma ConvolutionTheorem(a: seq<int>, b: seq<int>, w: int, r: int, f: int)
    requires |a| == |b| && InversePair(w, r, |b|) && InversePair(r, w, |b|) && Mod(|b| * f) == 1
    ensures Scale(Dft(Pointwise(Dft(a, w), Dft(b, w)), r), f) == Reduce(Convolve(a, b))
  {
    DftOfConvolution(a, b, w, r);
    InverseTransform(Reduce(Convolve(a, b)), r, w, f);
  }
}
