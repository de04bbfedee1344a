/** The program `dft.c`: multiplication modulo 17 by way of an in-place, recursive
    Fourier transform on 16-bit integers. */
module DftProgram {

  import opened Field17
  import T = Transform

  /** A 16-bit signed integer; the verifier shows that no operation leaves its range. */
  newtype Short = x: int | -0x8000 <= x < 0x8000

  const N: Short := 8
  const M: Short := 17
  const W: Short := 2
  const W_R: Short := 9
  const N_R: Short := 15

  function Ints(s: seq<Short>): (r: seq<int>)
    ensures |r| == |s|
  {
    seq(|s|, i requires 0 <= i < |s| => s[i] as int)
  }

  method ModuloM(x: Short) returns (r: Short)
    ensures r as int == Mod(x as int)
  {
    r := x;
    while r < 0
      invariant Mod(r as int) == Mod(x as int)
      invariant x < 0 ==> r < M
      invariant x >= 0 ==> r == x
    {
      r := r + M;
    }
    while r >= M
      invariant 0 <= r && Mod(r as int) == Mod(x as int)
    {
      r := r - M;
    }
  }

  ghost predicate IsLength(len: int) {
    len == 1 || len == 2 || len == 4 || len == 8 || len == 16
  }

  ghost predicate InField(s: seq<Short>) { forall i :: 0 <= i < |s| ==> 0 <= s[i] < M }

  predicate InShort(x: int) { -0x8000 <= x < 0x8000 }

  /** Sum and difference of the entries that meet in the innermost butterflies fit in 16 bits;
      all later ones work on residues. */
  ghost predicate PairsFit(s: seq<int>) {
    forall k :: 0 <= k < |s| / 2 ==> InShort(s[k] + s[k + |s| / 2]) && InShort(s[k] - s[k + |s| / 2])
  }

  lemma FieldPairsFit(s: seq<Short>)
    requires InField(s)
    ensures PairsFit(Ints(s))
  {
  }

  lemma QuarterPairsFit(s: seq<int>, b: nat, q: nat)
    requires |s| == 4 * q && b < 2 && PairsFit(s)
    ensures PairsFit(T.Half(s, b))
  {
    var h := T.Half(s, b);
    assert |h| == 2 * q && |s| / 2 == 2 * q;
    forall k | 0 <= k < q ensures InShort(h[k] + h[k + q]) && InShort(h[k] - h[k + q]) {
      var m := 2 * k + b;
      assert h[k] == s[m] && h[k + q] == s[m + 2 * q];
      assert InShort(s[m] + s[m + |s| / 2]) && InShort(s[m] - s[m + |s| / 2]);
    }
  }

  lemma HalvesPairsFit(s: seq<int>, b: nat)
    requires IsLength(|s|) && |s| > 1 && b < 2 && PairsFit(s)
    ensures PairsFit(T.Half(s, b))
  {
    if |s| > 2 {
      hide PairsFit, T.Half;
      QuarterPairsFit(s, b, if |s| == 4 then 1 else if |s| == 8 then 2 else 4);
    }
  }

  /** The residues of `x` are `t`. */
  ghost predicate ResiduesAre(x: seq<Short>, t: seq<int>) {
    |x| == |t| && forall k :: 0 <= k < |x| ==> Mod(x[k] as int) == t[k]
  }

  lemma DftOfOne(s: seq<Short>, root: int)
    requires |s| == 1
    ensures ResiduesAre(s, T.Dft(Ints(s), root))
  {
    assert Ints(s)[1..] == [];
    assert Eval(Ints(s), Pow(root, 0)) == s[0] as int + Pow(root, 0) * 0;
  }

  /** The butterflies of one level do not overflow. */
  ghost predicate LevelFits(x: seq<Short>, y: seq<Short>) {
    && |x| == |y|
    && (if |x| == 1 then InShort(x[0] as int + y[0] as int) && InShort(x[0] as int - y[0] as int)
        else InField(x) && InField(y))
  }

  lemma FirstLevelFits(s: seq<int>, x: seq<Short>, y: seq<Short>)
    requires |s| == 2 && PairsFit(s) && Ints(x) == T.Half(s, 0) && Ints(y) == T.Half(s, 1)
    ensures LevelFits(x, y)
  {
    assert x[0] as int == Ints(x)[0] == s[0] && y[0] as int == Ints(y)[0] == s[1];
  }

  lemma NextLevelFits(x: seq<Short>, y: seq<Short>)
    requires |x| == |y| > 1 && InField(x) && InField(y)
    ensures LevelFits(x, y)
  {
  }

  lemma DftIsResidues(x: seq<Short>, s: seq<int>, root: int)
    requires Ints(x) == T.Dft(s, root)
    ensures ResiduesAre(x, T.Dft(s, root))
  {
    forall k | 0 <= k < |x| ensures Mod(x[k] as int) == T.Dft(s, root)[k] {
      assert x[k] as int == Ints(x)[k];
      ModIdem(Eval(s, Pow(root, k)));
    }
  }

  /** The recursion reaches root 1 exactly with a single entry. */
  lemma RootEndsAtOne(root: Short, len: Short)
    requires IsLength(len as int) && 0 <= root < M && T.IsRoot(root as int, len as int)
    ensures root == 1 <==> len == 1
    ensures len > 1 ==> T.IsRoot(Mod(root as int * root as int), len as int / 2)
  {
    if len > 1 {
      T.SquareIsRoot(root as int, len as int);
    }
  }

  lemma HalvesOf(s: seq<Short>, x: seq<Short>, y: seq<Short>)
    requires |s| == 2 * |x| == 2 * |y|
    requires forall k :: 0 <= k < |x| ==> x[k] == s[2 * k] && y[k] == s[2 * k + 1]
    ensures Ints(x) == T.Half(Ints(s), 0) && Ints(y) == T.Half(Ints(s), 1)
  {
  }

  /** The loop that moves even and odd entries to the local arrays. */
  method SplitHalves(a: array<Short>, len: Short) returns (x: array<Short>, y: array<Short>)
    requires 1 < len && IsLength(len as int) && len as int <= a.Length
    ensures fresh(x) && fresh(y) && x != y && x.Length == y.Length == N as int
    ensures a[..] == old(a[..])
    ensures Ints(x[..len / 2]) == T.Half(Ints(a[..len]), 0)
    ensures Ints(y[..len / 2]) == T.Half(Ints(a[..len]), 1)
  {
    x := new Short[N](_ => 0);
    y := new Short[N](_ => 0);
    var i: Short := 0;
    while i < len
      invariant 0 <= i <= len && i % 2 == 0
      invariant forall k :: 0 <= k < i as int / 2 ==> x[k] == a[2 * k] && y[k] == a[2 * k + 1]
    {
      x[i / 2] := a[i];
      y[i / 2] := a[i + 1];
      i := i + 2;
    }
    HalvesOf(a[..len], x[..len / 2], y[..len / 2]);
  }

  lemma Small(x: int, y: int)
    requires 0 <= x < 17 && 0 <= y < 17
    ensures 0 <= x * y <= 256
  {
  }

  /** Entries `lo` .. `hi - 1` are those of `t`. */
  ghost predicate Agrees(a: seq<Short>, t: seq<int>, lo: int, hi: int)
    requires |t| <= |a|
  {
    forall k :: 0 <= lo <= k < hi && k < |t| ==> a[k] as int == t[k]
  }

  lemma SameButterfly(x: int, y: int, base: int, e: int, o: int)
    requires Mod(x) == e && Mod(y) == o
    ensures Mod(x + base * y) == Mod(e + base * o) && Mod(x - base * y) == Mod(e - base * o)
  {
    ModIdem(x);
    ModIdem(y);
    ModMul(base, base, y, o);
    ModAdd(x, e, base * y, base * o);
    ModMul(-1, -1, base * y, base * o);
    ModAdd(x, e, -1 * (base * y), -1 * (base * o));
  }

  lemma ButterflyEntries(s: seq<int>, root: int, i: nat, base: int, x: seq<Short>, y: seq<Short>)
    requires |s| >= 2 && T.IsRoot(root, |s|) && i < |s| / 2 && base == Mod(Pow(root, i))
    requires ResiduesAre(x, T.Dft(T.Half(s, 0), Mod(root * root)))
    requires ResiduesAre(y, T.Dft(T.Half(s, 1), Mod(root * root)))
    ensures T.Dft(s, root)[i] == Mod(x[i] as int + base * y[i] as int)
    ensures T.Dft(s, root)[i + |s| / 2] == Mod(x[i] as int - base * y[i] as int)
    ensures Mod(base * root) == Mod(Pow(root, i + 1))
  {
    T.Butterfly(s, root, i, base);
    ModMul(base, Pow(root, i), root, root);
    var e, o := T.Dft(T.Half(s, 0), Mod(root * root))[i], T.Dft(T.Half(s, 1), Mod(root * root))[i];
    SameButterfly(x[i] as int, y[i] as int, base, e, o);
  }

  lemma ButterflyFits(x: seq<Short>, y: seq<Short>, i: nat, base: int)
    requires LevelFits(x, y) && i < |x| && 0 <= base < 17 && (i == 0 ==> base == 1)
    ensures InShort(x[i] as int + base * y[i] as int) && InShort(x[i] as int - base * y[i] as int)
  {
    if |x| > 1 {
      Small(base, y[i] as int);
    }
  }

  /** The two assignments of one butterfly.  C computes the right-hand sides as `int`. */
  method Update(a: array<Short>, i: Short, h: Short, base: Short, xi: Short, yi: Short, ghost t: seq<int>)
    requires 0 <= i < h && h <= N && |t| == 2 * h as int <= a.Length
    requires InShort(xi as int + base as int * yi as int) && InShort(xi as int - base as int * yi as int)
    requires t[i] == Mod(xi as int + base as int * yi as int)
    requires t[i + h] == Mod(xi as int - base as int * yi as int)
    requires Agrees(a[..], t, 0, i as int) && Agrees(a[..], t, h as int, h as int + i as int)
    modifies a
    ensures Agrees(a[..], t, 0, i as int + 1) && Agrees(a[..], t, h as int, h as int + i as int + 1)
    ensures a[|t|..] == old(a[|t|..])
  {
    a[i] := ModuloM((xi as int + base as int * yi as int) as Short);
    a[i + h] := ModuloM((xi as int - base as int * yi as int) as Short);
  }

  /** The butterfly loop. */
  method Combine(a: array<Short>, len: Short, root: Short, x: array<Short>, y: array<Short>, ghost s: seq<int>)
    requires 1 < len && IsLength(len as int) && len as int == |s| <= a.Length
    requires 0 <= root < M && T.IsRoot(root as int, len as int)
    requires a != x && a != y && x.Length == y.Length == N as int
    requires LevelFits(x[..len / 2], y[..len / 2])
    requires ResiduesAre(x[..len / 2], T.Dft(T.Half(s, 0), Mod(root as int * root as int)))
    requires ResiduesAre(y[..len / 2], T.Dft(T.Half(s, 1), Mod(root as int * root as int)))
    modifies a
    ensures Ints(a[..len]) == T.Dft(s, root as int)
    ensures InField(a[..len]) && a[len..] == old(a[len..])
  {
    ghost var t := T.Dft(s, root as int);
    ghost var xs, ys := x[..len / 2], y[..len / 2];
    var h := len / 2;
    var base: Short := 1;
    var i: Short := 0;
    while i < h
      invariant 0 <= i <= h && base as int == Mod(Pow(root as int, i as int)) && (i == 0 ==> base == 1)
      invariant Agrees(a[..], t, 0, i as int) && Agrees(a[..], t, h as int, h as int + i as int)
      invariant a[len..] == old(a[len..])
    {
      ButterflyEntries(s, root as int, i as int, base as int, xs, ys);
      ButterflyFits(xs, ys, i as int, base as int);
      Update(a, i, h, base, x[i], y[i], t);
      Small(base as int, root as int);
      base := ModuloM(base * root);
      i := i + 1;
    }
  }

  /** Replaces the first `len` entries by their transform; a single entry stays as it is, and is
      its own transform up to multiples of 17. */
  method Dft(a: array<Short>, len: Short, root: Short)
    requires IsLength(len as int) && len as int <= a.Length
    requires 0 <= root < M && T.IsRoot(root as int, len as int)
    requires PairsFit(Ints(a[..len]))
    modifies a
    ensures ResiduesAre(a[..len], T.Dft(Ints(old(a[..len])), root as int))
    ensures if len > 1 then Ints(a[..len]) == T.Dft(Ints(old(a[..len])), root as int) && InField(a[..len])
            else a[..len] == old(a[..len])
    ensures a[len..] == old(a[len..])
    decreases len
  {
    RootEndsAtOne(root, len);
    hide T.Dft, T.Half, T.IsRoot, Mod, Pow, PairsFit, Ints, ResiduesAre, LevelFits;
    ghost var s := Ints(a[..len]);
    if root == 1 {
      DftOfOne(a[..len], root as int);
      return;
    }
    var x, y := SplitHalves(a, len);
    var h := len / 2;
    Small(root as int, root as int);
    var square := ModuloM(root * root);
    HalvesPairsFit(s, 0);
    HalvesPairsFit(s, 1);
    Dft(x, h, square);
    Dft(y, h, square);
    if len == 2 {
      FirstLevelFits(s, x[..h], y[..h]);
    } else {
      NextLevelFits(x[..h], y[..h]);
    }
    Combine(a, len, root, x, y, s);
    DftIsResidues(a[..len], s, root as int);
  }

  // ---- multiplication -------------------------------------------------------------------

  /** The lowest `n` bits of `x` in two's complement, lowest first. */
  function Bits(x: int, n: nat): (b: seq<int>)
    ensures |b| == n
    decreases n
  {
    if n == 0 then [] else [x % 2] + Bits(x / 2, n - 1)
  }

  lemma {:induction false} BitsAreBits(x: int, n: nat)
    ensures forall i :: 0 <= i < n ==> Bits(x, n)[i] == 0 || Bits(x, n)[i] == 1
    decreases n
  {
    if n > 0 {
      BitsAreBits(x / 2, n - 1);
    }
  }

  /** Reading the bits as a polynomial at 2 gives the number back, modulo 2^n. */
  lemma {:induction false} BitsAtTwo(x: int, n: nat) returns (q: int)
    ensures 0 <= Eval(Bits(x, n), 2) < Pow(2, n)
    ensures x == Eval(Bits(x, n), 2) + Pow(2, n) * q
    decreases n
  {
    if n == 0 {
      q := x;
    } else {
      q := BitsAtTwo(x / 2, n - 1);
      assert Bits(x, n)[1..] == Bits(x / 2, n - 1);
      Assoc(2, Pow(2, n - 1), q);
    }
  }

  lemma Pow28()
    ensures Pow(2, 8) == 256
  {
    assert Pow(2, 4) == 16;
    PowAdd(2, 4, 4);
  }

  lemma LowByte(x: int, e: int, q: int)
    requires 0 <= e < 256 && x == e + 256 * q
    ensures e == x % 256
  {
  }

  lemma ByteAtTwo(x: int)
    ensures Eval(Bits(x, 8), 2) == x % 256
  {
    var q := BitsAtTwo(x, 8);
    Pow28();
    LowByte(x, Eval(Bits(x, 8), 2), q);
  }

  /** `x` shifted right by `i` bits, keeping the sign. */
  function Shifted(x: int, i: nat): int { if i == 0 then x else Shifted(x, i - 1) / 2 }

  lemma {:induction false} ShiftFirst(x: int, i: nat)
    ensures Shifted(x / 2, i) == Shifted(x, i + 1)
  {
    if i > 0 {
      ShiftFirst(x, i - 1);
    }
  }

  lemma {:induction false} BitAt(x: int, n: nat, i: nat)
    requires i < n
    ensures Bits(x, n)[i] == Shifted(x, i) % 2
    decreases n
  {
    if i > 0 {
      BitAt(x / 2, n - 1, i - 1);
      ShiftFirst(x, i - 1);
    }
  }

  method ToPoly(x: Short, a: array<Short>)
    requires a.Length == N as int
    modifies a
    ensures Ints(a[..]) == Bits(x as int, 8) && InField(a[..])
  {
    var y := x;
    var i: Short := 0;
    while i < N
      invariant 0 <= i <= N && y as int == Shifted(x as int, i as int)
      invariant forall k :: 0 <= k < i as int ==> a[k] as int == Shifted(x as int, k) % 2
    {
      if y % 2 == 1 {
        a[i] := 1;
      } else {
        a[i] := 0;
      }
      y := y / 2;
      i := i + 1;
    }
    forall k | 0 <= k < 8 ensures a[k] as int == Bits(x as int, 8)[k] {
      BitAt(x as int, 8, k);
    }
    BitsAreBits(x as int, 8);
    forall k | 0 <= k < 8 ensures 0 <= a[k] < M {
      assert a[k] as int == Bits(x as int, 8)[k];
    }
  }

  lemma {:induction false} PowerAt(b: int, ps: seq<int>, d: nat)
    requires d < |ps| && ps[0] == 1
    requires forall i :: 0 <= i < |ps| ==> 0 <= ps[i] < 17
    requires forall i :: 0 <= i < |ps| - 1 ==> ps[i + 1] == (b * ps[i]) % 17
    ensures Mod(Pow(b, d)) == ps[d]
  {
    if d > 0 {
      PowerAt(b, ps, d - 1);
      ModMul(b, b, Pow(b, d - 1), ps[d - 1]);
      ModIsRemainder(b * ps[d - 1]);
      assert ps[(d - 1) + 1] == (b * ps[d - 1]) % 17;
    }
  }

  lemma PowersOf(b: int, p1: int, p2: int, p3: int, p4: int, p5: int, p6: int, p7: int)
    requires b == 2 || b == 9
    requires [p1, p2, p3, p4, p5, p6, p7] == if b == 2 then [2, 4, 8, 16, 15, 13, 9] else [9, 13, 15, 16, 8, 4, 2]
    ensures Mod(Pow(b, 4)) == 16 && Mod(Pow(b, 8)) == 1
    ensures forall d: nat :: 0 < d < 8 ==> Mod(Pow(b, d)) != 1
  {
    var ps := [1, p1, p2, p3, p4, p5, p6, p7, 1];
    forall d: nat | d <= 8 ensures Mod(Pow(b, d)) == ps[d] {
      PowerAt(b, ps, d);
    }
  }

  /** 2 and 9 generate the eighth roots of unity modulo 17 and are inverse to each other. */
  lemma RootsFit()
    ensures T.IsRoot(2, 8) && T.IsRoot(9, 8)
    ensures T.InversePair(2, 9, 8) && T.InversePair(9, 2, 8) && Mod(8 * 15) == 1
  {
    ModIsRemainder(8 * 15);
    ModIsRemainder(18);
    PowersOf(2, 2, 4, 8, 16, 15, 13, 9);
    PowersOf(9, 9, 13, 15, 16, 8, 4, 2);
  }

  /** The result of `mult`: the product of the low bytes. */
  function Product(x: int, y: int): nat { Mod((x % 256) * (y % 256)) }

  lemma ProductOfBytes(x: int, y: int)
    ensures 0 <= x < 256 && 0 <= y < 256 ==> Product(x, y) == (x * y) % 17
  {
    ModIsRemainder((x % 256) * (y % 256));
  }

  /** The pointwise product of the two transforms. */
  ghost function Spectrum(x: int, y: int): (c: seq<int>)
    ensures |c| == 8
  {
    T.Pointwise(T.Dft(Bits(x, 8), 2), T.Dft(Bits(y, 8), 2))
  }

  lemma WholeArray(a: seq<Short>)
    requires |a| == 8
    ensures a[..N] == a && a[..8] == a
  {
  }

  /** Bits, transforms, and their pointwise product in `a`. */
  method Transformed(x: Short, a: array<Short>)
    requires a.Length == N as int
    modifies a
    ensures Ints(a[..]) == T.Dft(Bits(x as int, 8), 2) && InField(a[..])
  {
    RootsFit();
    hide T.Dft, T.IsRoot, T.InversePair, Bits, Mod;
    ToPoly(x, a);
    FieldPairsFit(a[..]);
    WholeArray(a[..]);
    Dft(a, N, W);
    WholeArray(a[..]);
  }

  method MultiplyEntries(a: array<Short>, b: array<Short>)
    requires a.Length == b.Length == N as int && a != b && InField(a[..]) && InField(b[..])
    modifies a
    ensures Ints(a[..]) == T.Pointwise(Ints(old(a[..])), Ints(b[..])) && InField(a[..])
  {
    ghost var s := a[..];
    var i: Short := 0;
    while i < N
      invariant 0 <= i <= N && b[..] == old(b[..])
      invariant forall k :: 0 <= k < i as int ==> a[k] as int == Mod(s[k] as int * b[k] as int)
      invariant forall k :: i as int <= k < 8 ==> a[k] == s[k]
    {
      assert a[..][i] == s[i] && b[..][i] == b[i];
      Small(a[i] as int, b[i] as int);
      a[i] := ModuloM(a[i] * b[i]);
      i := i + 1;
    }
  }

  lemma StartSum(t: seq<int>)
    ensures Mod(Pow(2, 0)) == 1 && Mod(EvalSum(t, 2, 0)) == 0
  {
  }

  lemma EvalStep(t: seq<int>, i: nat, base: int, sum: int)
    requires i < |t| && base == Mod(Pow(2, i)) && sum == Mod(EvalSum(t, 2, i))
    ensures Mod(sum + base * t[i]) == Mod(EvalSum(t, 2, i + 1))
    ensures Mod(base * 2) == Mod(Pow(2, i + 1))
  {
    ModMul(base, Pow(2, i), t[i], t[i]);
    ModAdd(sum, EvalSum(t, 2, i), base * t[i], Pow(2, i) * t[i]);
    ModMul(base, Pow(2, i), 2, 2);
  }

  /** Adds one term and moves on to the next power of 2. */
  method AddTerm(sum: Short, base: Short, x: Short, ghost t: seq<int>, ghost i: nat)
    returns (sum': Short, base': Short)
    requires 0 <= sum < M && 0 <= base < M && 0 <= x < M
    requires i < |t| && x as int == t[i]
    requires base as int == Mod(Pow(2, i)) && sum as int == Mod(EvalSum(t, 2, i))
    ensures base' as int == Mod(Pow(2, i + 1)) && sum' as int == Mod(EvalSum(t, 2, i + 1))
  {
    EvalStep(t, i, base as int, sum as int);
    Small(base as int, x as int);
    sum' := ModuloM(sum + base * x);
    base' := ModuloM(base * W);
  }

  /** The last loop: scales every entry by 1/8 and sums entry times power of 2. */
  method ScaleAndEvaluate(a: array<Short>, ghost c: seq<int>) returns (result: Short)
    requires a.Length == N as int && InField(a[..]) && |c| == 8
    requires Ints(a[..]) == T.Dft(c, 9)
    modifies a
    ensures Ints(a[..]) == T.Scale(T.Dft(c, 9), 15)
    ensures result as int == Mod(Eval(T.Scale(T.Dft(c, 9), 15), 2))
  {
    hide T.Dft, Pow, Eval, EvalSum, Mod;
    ghost var d := T.Dft(c, 9);
    ghost var t := T.Scale(d, 15);
    StartSum(t);
    var base: Short := 1;
    result := 0;
    var i: Short := 0;
    while i < N
      invariant 0 <= i <= N && base as int == Mod(Pow(2, i as int))
      invariant result as int == Mod(EvalSum(t, 2, i as int))
      invariant forall k :: 0 <= k < i as int ==> a[k] as int == t[k]
      invariant forall k :: i as int <= k < 8 ==> 0 <= a[k] < M && a[k] as int == d[k]
    {
      a[i] := ModuloM(a[i] * N_R);
      result, base := AddTerm(result, base, a[i], t, i as int);
      i := i + 1;
    }
    EvalIsSum(t, 2, 8);
    assert t[..8] == t;
  }

  method TransformBack(a: array<Short>, ghost c: seq<int>) returns (result: Short)
    requires a.Length == N as int && InField(a[..]) && |c| == 8 && Ints(a[..]) == c
    modifies a
    ensures Ints(a[..]) == T.Scale(T.Dft(c, 9), 15)
    ensures result as int == Mod(Eval(T.Scale(T.Dft(c, 9), 15), 2))
  {
    RootsFit();
    hide T.Dft, T.IsRoot, T.InversePair, T.Scale, Mod, Eval;
    FieldPairsFit(a[..]);
    WholeArray(a[..]);
    Dft(a, N, W_R);
    WholeArray(a[..]);
    result := ScaleAndEvaluate(a, c);
  }

  lemma SecondEntry(s: seq<int>)
    requires |s| == 8
    ensures T.Dft(s, 2)[1] == Mod(Eval(s, 2))
  {
    assert Pow(2, 1) == 2;
  }

  /** Evaluating the scaled inverse transform at 2 gives the second entry of the
      spectrum, which is the product of the two numbers. */
  lemma ProductAtTwo(x: int, y: int)
    ensures Mod(Eval(T.Scale(T.Dft(Spectrum(x, y), 9), 15), 2)) == Product(x, y)
  {
    var c := Spectrum(x, y);
    RootsFit();
    T.InverseThenForward(c, 2, 9, 15);
    SecondEntry(T.Scale(T.Dft(c, 9), 15));
    SecondEntry(Bits(x, 8));
    SecondEntry(Bits(y, 8));
    ByteAtTwo(x);
    ByteAtTwo(y);
    ModMul(Mod(x % 256), x % 256, Mod(y % 256), y % 256);
  }

  /** The product, computed by transforming the bits, multiplying entry by entry,
      transforming back, scaling, and evaluating at 2. */
  method Mult(x: Short, y: Short) returns (result: Short)
    ensures result as int == Product(x as int, y as int)
    ensures 0 <= x < 256 && 0 <= y < 256 ==> result as int == (x as int * y as int) % 17
  {
    var a := new Short[N](_ => 0);
    var b := new Short[N](_ => 0);
    Transformed(x, a);
    Transformed(y, b);
    MultiplyEntries(a, b);
    assert Ints(a[..]) == Spectrum(x as int, y as int);
    result := TransformBack(a, Spectrum(x as int, y as int));
    ProductAtTwo(x as int, y as int);
    ProductOfBytes(x as int, y as int);
  }

  /** The entries after scaling are the cyclic convolution of the bits. */
  lemma ScaledEntriesAreConvolution(x: int, y: int)
    ensures T.Scale(T.Dft(Spectrum(x, y), 9), 15) == T.Reduce(T.Convolve(Bits(x, 8), Bits(y, 8)))
  {
    RootsFit();
    T.ConvolutionTheorem(Bits(x, 8), Bits(y, 8), 2, 9, 15);
  }
}
