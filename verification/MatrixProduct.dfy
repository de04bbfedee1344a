/** The program `matrix_mult_rec.c`: a matrix product by recursion over three static counters. */
module MatrixProduct {

  const BOUND := 100

  /** A 32-bit signed integer.  Sums and products wrap around, as `add` and `mul` do. */
  newtype Int32 = x: int | -0x8000_0000 <= x < 0x8000_0000

  function Wrap(x: int): Int32 { ((x + 0x8000_0000) % 0x1_0000_0000 - 0x8000_0000) as Int32 }

  lemma WrapFits(x: Int32)
    ensures Wrap(x as int) == x
  {
  }

  /** Wrapping keeps a number up to multiples of 2^32, and numbers in range as they are. */
  lemma WrapIsCongruent(x: int)
    ensures (x - Wrap(x) as int) % 0x1_0000_0000 == 0
    ensures -0x8000_0000 <= x < 0x8000_0000 ==> Wrap(x) as int == x
  {
  }

  lemma WrapSum(x: int, y: int)
    ensures Wrap(Wrap(x) as int + y) == Wrap(x + y) && Wrap(y + Wrap(x) as int) == Wrap(x + y)
  {
  }

  /** The input matrices are only read. */
  type Matrix = seq<seq<int>>

  ghost predicate Covers(m: Matrix, rows: int, cols: int) {
    rows <= |m| && forall r :: 0 <= r < |m| ==> cols <= |m[r]|
  }

  /** Inner product of row `r` of `a` and column `s` of `b`, from position `k` to `n`. */
  ghost function Dot(a: Matrix, b: Matrix, r: nat, s: nat, k: nat, n: int): int
    requires Covers(a, r + 1, n) && Covers(b, n, s + 1)
    decreases n - k
  {
    if k >= n then 0 else a[r][k] * b[k][s] + Dot(a, b, r, s, k + 1, n)
  }

  lemma {:induction false} DotZeroRow(a: Matrix, b: Matrix, r: nat, s: nat, k: nat, n: int)
    requires Covers(a, r + 1, n) && Covers(b, n, s + 1)
    requires forall x :: k <= x < n ==> a[r][x] == 0
    ensures Dot(a, b, r, s, k, n) == 0
    decreases n - k
  {
    if k < n {
      DotZeroRow(a, b, r, s, k + 1, n);
    }
  }

  /** A row of the identity matrix picks out an entry of the right operand. */
  lemma {:induction false} DotUnitRow(a: Matrix, b: Matrix, r: nat, s: nat, k: nat, n: int, at: nat)
    requires Covers(a, r + 1, n) && Covers(b, n, s + 1) && k <= at < n
    requires forall x :: k <= x < n ==> a[r][x] == if x == at then 1 else 0
    ensures Dot(a, b, r, s, k, n) == b[at][s]
    decreases n - k
  {
    if k == at {
      DotZeroRow(a, b, r, s, k + 1, n);
    } else {
      DotUnitRow(a, b, r, s, k + 1, n, at);
    }
  }

  lemma {:induction false} DotZeroColumn(a: Matrix, b: Matrix, r: nat, s: nat, k: nat, n: int)
    requires Covers(a, r + 1, n) && Covers(b, n, s + 1)
    requires forall x :: k <= x < n ==> b[x][s] == 0
    ensures Dot(a, b, r, s, k, n) == 0
    decreases n - k
  {
    if k < n {
      DotZeroColumn(a, b, r, s, k + 1, n);
    }
  }

  /** A column of the identity matrix picks out an entry of the left operand. */
  lemma {:induction false} DotUnitColumn(a: Matrix, b: Matrix, r: nat, s: nat, k: nat, n: int, at: nat)
    requires Covers(a, r + 1, n) && Covers(b, n, s + 1) && k <= at < n
    requires forall x :: k <= x < n ==> b[x][s] == if x == at then 1 else 0
    ensures Dot(a, b, r, s, k, n) == a[r][at]
    decreases n - k
  {
    if k == at {
      DotZeroColumn(a, b, r, s, k + 1, n);
    } else {
      DotUnitColumn(a, b, r, s, k + 1, n, at);
    }
  }

  lemma LinearLeft(x: int, a: int, d: int, b: int, rest: int)
    ensures (x * a + d) * b + x * rest == x * (a * b + rest) + d * b
  {
  }

  /** The inner product is linear in the left operand, here `c`, which is `x` times `a` plus `d`. */
  lemma {:induction false} DotLinearLeft(x: int, a: Matrix, d: Matrix, c: Matrix, b: Matrix,
                                         r: nat, s: nat, k: nat, n: int)
    requires Covers(a, r + 1, n) && Covers(d, r + 1, n) && Covers(c, r + 1, n) && Covers(b, n, s + 1)
    requires forall y :: k <= y < n ==> c[r][y] == x * a[r][y] + d[r][y]
    ensures Dot(c, b, r, s, k, n) == x * Dot(a, b, r, s, k, n) + Dot(d, b, r, s, k, n)
    decreases n - k
  {
    if k < n {
      DotLinearLeft(x, a, d, c, b, r, s, k + 1, n);
      LinearLeft(x, a[r][k], d[r][k], b[k][s], Dot(a, b, r, s, k + 1, n));
    }
  }

  lemma LinearRight(x: int, b: int, d: int, a: int, rest: int)
    ensures a * (x * b + d) + x * rest == x * (a * b + rest) + a * d
  {
    assert a * (x * b + d) == a * (x * b) + a * d;
    assert a * (x * b) == x * (a * b);
  }

  /** The inner product is linear in the right operand, here `c`, which is `x` times `b` plus `d`. */
  lemma {:induction false} DotLinearRight(x: int, b: Matrix, d: Matrix, c: Matrix, a: Matrix,
                                          r: nat, s: nat, k: nat, n: int)
    requires Covers(a, r + 1, n) && Covers(b, n, s + 1) && Covers(d, n, s + 1) && Covers(c, n, s + 1)
    requires forall y :: k <= y < n ==> c[y][s] == x * b[y][s] + d[y][s]
    ensures Dot(a, c, r, s, k, n) == x * Dot(a, b, r, s, k, n) + Dot(a, d, r, s, k, n)
    decreases n - k
  {
    if k < n {
      DotLinearRight(x, b, d, c, a, r, s, k + 1, n);
      LinearRight(x, b[k][s], d[k][s], a[r][k], Dot(a, b, r, s, k + 1, n));
    }
  }

  /** What is still to be added to row `r` and column `s` of the result when the counters
      stand at `i`, `j` and `k`.  The end of a row moves on to the next one but keeps `k`. */
  ghost function ToAdd(a: Matrix, b: Matrix, row1: int, col1: int, col2: int, r: nat, s: nat,
                       i: nat, j: nat, k: nat): int
    requires Covers(a, row1, col1) && Covers(b, col1, col2)
  {
    var (x, y) := if j < col2 then (i, j) else (i + 1, 0);
    if r >= row1 || s >= col2 || r < x || (r == x && s < y) then 0
    else Dot(a, b, r, s, if r == x && s == y then k else 0, col1)
  }

  /** What one assignment adds. */
  ghost function ProductAt(a: Matrix, b: Matrix, row1: int, col1: int, col2: int, r: nat, s: nat,
                           i: nat, j: nat, k: nat): int
    requires Covers(a, row1, col1) && Covers(b, col1, col2) && i < row1 && j < col2 && k < col1
  {
    if r == i && s == j then a[i][k] * b[k][j] else 0
  }

  lemma ToAddProduct(a: Matrix, b: Matrix, row1: int, col1: int, col2: int, i: nat, j: nat, k: nat)
    requires Covers(a, row1, col1) && Covers(b, col1, col2) && i < row1 && j < col2 && k < col1
    ensures forall r: nat, s: nat ::
      ToAdd(a, b, row1, col1, col2, r, s, i, j, k)
      == ProductAt(a, b, row1, col1, col2, r, s, i, j, k) + ToAdd(a, b, row1, col1, col2, r, s, i, j, k + 1)
  {
  }

  lemma NothingToAdd(a: Matrix, b: Matrix, row1: int, col1: int, col2: int, i: nat, j: nat, k: nat)
    requires Covers(a, row1, col1) && Covers(b, col1, col2) && i >= row1
    ensures forall r: nat, s: nat :: ToAdd(a, b, row1, col1, col2, r, s, i, j, k) == 0
  {
  }

  lemma ToAddColumn(a: Matrix, b: Matrix, row1: int, col1: int, col2: int, i: nat, j: nat, k: nat)
    requires Covers(a, row1, col1) && Covers(b, col1, col2) && i < row1 && j < col2 && k >= col1
    ensures forall r: nat, s: nat ::
      ToAdd(a, b, row1, col1, col2, r, s, i, j, k) == ToAdd(a, b, row1, col1, col2, r, s, i, j + 1, 0)
  {
  }

  lemma ToAddRow(a: Matrix, b: Matrix, row1: int, col1: int, col2: int, i: nat, j: nat, k: nat)
    requires Covers(a, row1, col1) && Covers(b, col1, col2) && i < row1 && j >= col2
    ensures forall r: nat, s: nat ::
      ToAdd(a, b, row1, col1, col2, r, s, i, j, k) == ToAdd(a, b, row1, col1, col2, r, s, i + 1, 0, k)
  {
  }

  /** From counters `i`, `j` and `k` on, the result becomes the product of `a` and `b`. */
  ghost predicate GivesProduct(a: Matrix, b: Matrix, row1: int, col1: int, col2: int, i: nat, j: nat, k: nat)
    requires Covers(a, row1, col1) && Covers(b, col1, col2)
  {
    forall r: nat, s: nat :: r < row1 && s < col2 ==>
      Wrap(ToAdd(a, b, row1, col1, col2, r, s, i, j, k)) == Wrap(Dot(a, b, r, s, 0, col1))
  }

  function Ones(rows: nat, cols: nat): Matrix { seq(rows, _ => seq(cols, _ => 1)) }

  lemma {:induction false} DotOfOnes(a: Matrix, b: Matrix, k: nat, n: nat)
    requires |a| > 0 && a[0] == seq(n, _ => 1) && Covers(a, 1, n) && Covers(b, n, 1)
    requires forall x :: 0 <= x < n ==> b[x][0] == 1
    ensures Dot(a, b, 0, 0, k, n) == if k < n then n - k else 0
    decreases n - k
  {
    if k < n {
      DotOfOnes(a, b, k + 1, n);
    }
  }

  lemma FreshGivesProduct(a: Matrix, b: Matrix, row1: int, col1: int, col2: int)
    requires Covers(a, row1, col1) && Covers(b, col1, col2)
    ensures GivesProduct(a, b, row1, col1, col2, 0, 0, 0)
  {
  }

  lemma WrapDiffers(x: int, y: int)
    requires 0 <= x < y < 0x8000_0000
    ensures Wrap(x) != Wrap(y)
  {
  }

  lemma OnesTell(row1: nat, col1: nat, col2: nat, i: nat, j: nat, k: nat)
    requires row1 > 0 && 0 < col1 < 0x8000_0000 && col2 > 0 && (i > 0 || j > 0 || k > 0)
    ensures Covers(Ones(row1, col1), row1, col1) && Covers(Ones(col1, col2), col1, col2)
    ensures !GivesProduct(Ones(row1, col1), Ones(col1, col2), row1, col1, col2, i, j, k)
  {
    var a, b := Ones(row1, col1), Ones(col1, col2);
    DotOfOnes(a, b, 0, col1);
    DotOfOnes(a, b, k, col1);
    var t := ToAdd(a, b, row1, col1, col2, 0, 0, i, j, k);
    assert t == if i > 0 || j > 0 || k >= col1 then 0 else col1 - k;
    hide Wrap, Ones, ToAdd, Dot;
    WrapDiffers(t, col1);
  }

  /** Only counters at their start give the product of all matrices. */
  lemma ProductIffFresh(row1: nat, col1: nat, col2: nat, i: nat, j: nat, k: nat)
    requires row1 > 0 && 0 < col1 < 0x8000_0000 && col2 > 0
    ensures (forall a, b :: Covers(a, row1, col1) && Covers(b, col1, col2) ==>
              GivesProduct(a, b, row1, col1, col2, i, j, k))
            <==> i == 0 && j == 0 && k == 0
  {
    hide Covers, GivesProduct, Ones;
    if i == 0 && j == 0 && k == 0 {
      forall a, b | Covers(a, row1, col1) && Covers(b, col1, col2)
        ensures GivesProduct(a, b, row1, col1, col2, i, j, k)
      {
        FreshGivesProduct(a, b, row1, col1, col2);
      }
    } else {
      OnesTell(row1, col1, col2, i, j, k);
    }
  }

  function Clip(n: int): nat { if n < 0 then 0 else n }

  function Whole(n: nat, each: nat): nat { if n == 0 then 0 else each + Whole(n - 1, each) }

  /** Moves of `j` and `k` left: on the current row from column `j` and position `k` on,
      and then on `rows` whole rows. */
  function Steps(rows: nat, col1: int, col2: int, j: nat, k: nat): nat {
    var each := Clip(col1) + 1;
    if j < col2 then
      Whole(rows, col2 * each) + Whole(col2 - j - 1, each) + Clip(Clip(col1) - k) + 1
    else if rows == 0 || col2 <= 0 then 0
    else Whole(rows - 1, col2 * each) + Whole(col2 - 1, each) + Clip(Clip(col1) - k) + 1
  }

  lemma {:induction false} WholeIsProduct(n: nat, each: nat)
    ensures Whole(n, each) == n * each
  {
    if n > 0 {
      WholeIsProduct(n - 1, each);
      assert n * each == (n - 1) * each + each;
    }
  }

  lemma StepsOfProduct(rows: nat, col1: int, col2: int, j: nat, k: nat)
    requires j < col2 && k < col1
    ensures Steps(rows, col1, col2, j, k) == 1 + Steps(rows, col1, col2, j, k + 1)
  {
  }

  /** At the end of a cell all of the next cell is left, on this row or on the next one. */
  lemma StepsOfColumn(rows: nat, col1: int, col2: int, j: nat, k: nat)
    requires j < col2 && k >= col1
    ensures Steps(rows, col1, col2, j, k) == 1 + Steps(rows, col1, col2, j + 1, 0)
  {
    WholeIsProduct(col2, Clip(col1) + 1);
  }

  lemma StepsOfRow(rows: nat, col1: int, col2: int, j: nat, k: nat)
    requires j >= col2
    ensures Steps(rows, col1, col2, j, k) == if rows == 0 then 0 else Steps(rows - 1, col1, col2, 0, k)
  {
    if rows > 0 && col2 <= 0 {
      StepsOfRow(rows - 1, col1, col2, 0, k);
    }
  }

  class Multiplier {
    var i: nat
    var j: nat
    var k: nat

    constructor ()
      ensures i == 0 && j == 0 && k == 0
    {
      i, j, k := 0, 0, 0;
    }

    twostate predicate Added(c: array2<Int32>, a: Matrix, b: Matrix, row1: int, col1: int, col2: int,
                             i: nat, j: nat, k: nat)
      requires Covers(a, row1, col1) && Covers(b, col1, col2)
      reads c
    {
      forall r: nat, s: nat :: r < c.Length0 && s < c.Length1 ==>
        c[r, s] == Wrap(old(c[r, s]) as int + ToAdd(a, b, row1, col1, col2, r, s, i, j, k))
    }

    lemma AllFit(c: array2<Int32>)
      ensures forall r: nat, s: nat :: r < c.Length0 && s < c.Length1 ==> c[r, s] == Wrap(c[r, s] as int)
    {
      forall r: nat, s: nat | r < c.Length0 && s < c.Length1 ensures c[r, s] == Wrap(c[r, s] as int) {
        WrapFits(c[r, s]);
      }
    }

    /** The innermost assignment. */
    method AddProduct(a: Matrix, b: Matrix, row1: int, col1: int, col2: int, c: array2<Int32>)
      requires Covers(a, row1, col1) && Covers(b, col1, col2) && i < row1 && j < col2 && k < col1
      requires row1 <= c.Length0 && col2 <= c.Length1
      modifies c
      ensures forall r: nat, s: nat :: r < c.Length0 && s < c.Length1 ==>
        c[r, s] == Wrap(old(c[r, s]) as int + ProductAt(a, b, row1, col1, col2, r, s, i, j, k))
    {
      hide Wrap;
      AllFit(c);
      WrapSum(a[i][k] * b[k][j], c[i, j] as int);
      c[i, j] := Wrap(c[i, j] as int + Wrap(a[i][k] * b[k][j]) as int);
    }

    /** Every product that the counters have not passed yet is added exactly once.  The
        counters are never put back: the returns run on, and every frame that moved `k`
        or `j` counts `i` up once more. */
    method MultiplyMatrixRec(row1: int, col1: int, a: Matrix, row2: int, col2: int, b: Matrix, c: array2<Int32>)
      requires Covers(a, row1, col1) && Covers(b, col1, col2)
      requires row1 <= c.Length0 && col2 <= c.Length1
      modifies this, c
      ensures old(i) < row1 ==> Added(c, a, b, row1, col1, col2, old(i), old(j), old(k))
      ensures old(i) >= row1 ==> unchanged(this) && unchanged(c)
      ensures old(i) < row1 ==>
        i == row1 + Steps(row1 - old(i) - 1, col1, col2, old(j), old(k)) && j == 0
      decreases row1 - i, col2 - j, col1 - k
    {
      hide Steps, ToAdd, Wrap, Covers, ProductAt;
      if i >= row1 {
        return;
      }
      ghost var rest, x, y, z := row1 - i - 1, i, j, k;
      if j < col2 {
        if k < col1 {
          StepsOfProduct(rest, col1, col2, j, k);
          ToAddProduct(a, b, row1, col1, col2, i, j, k);
          AddProduct(a, b, row1, col1, col2, c);
          k := k + 1;
          label Written:
          MultiplyMatrixRec(row1, col1, a, row2, col2, b, c);
          forall r: nat, s: nat | r < c.Length0 && s < c.Length1
            ensures c[r, s] == Wrap(old(c[r, s]) as int + ToAdd(a, b, row1, col1, col2, r, s, x, y, z))
          {
            var p := ProductAt(a, b, row1, col1, col2, r, s, x, y, z);
            var t := ToAdd(a, b, row1, col1, col2, r, s, x, y, z + 1);
            assert old@Written(c[r, s]) == Wrap(old(c[r, s]) as int + p);
            WrapSum(old(c[r, s]) as int + p, t);
            assert c[r, s] == Wrap(old@Written(c[r, s]) as int + t);
          }
        } else {
          StepsOfColumn(rest, col1, col2, j, k);
          ToAddColumn(a, b, row1, col1, col2, i, j, k);
        }
        k := 0;
        j := j + 1;
        label Column:
        MultiplyMatrixRec(row1, col1, a, row2, col2, b, c);
        forall r: nat, s: nat | r < c.Length0 && s < c.Length1
          ensures c[r, s] == Wrap(old(c[r, s]) as int + ToAdd(a, b, row1, col1, col2, r, s, x, y, z))
        {
          if z < col1 {
            assert c[r, s] == old@Column(c[r, s]);
          } else {
            assert old@Column(c[r, s]) == old(c[r, s]);
          }
        }
      } else {
        StepsOfRow(rest, col1, col2, j, k);
        ToAddRow(a, b, row1, col1, col2, i, j, k);
        NothingToAdd(a, b, row1, col1, col2, row1, 0, k);
      }
      j := 0;
      i := i + 1;
      label Row:
      MultiplyMatrixRec(row1, col1, a, row2, col2, b, c);
      forall r: nat, s: nat | r < c.Length0 && s < c.Length1
        ensures c[r, s] == Wrap(old(c[r, s]) as int + ToAdd(a, b, row1, col1, col2, r, s, x, y, z))
      {
        if y < col2 || rest == 0 {
          assert c[r, s] == old@Row(c[r, s]);
        }
        if y >= col2 {
          assert old@Row(c[r, s]) == old(c[r, s]);
          WrapFits(old(c[r, s]));
        }
      }
    }

    /** No product for mismatched sizes.  Otherwise the result is whatever the counters still
        let through: by `ProductIffFresh` the product exactly if they stand at their start,
        and nothing at all after an earlier product of at least `row1` rows. */
    method MultiplyMatrix(row1: int, col1: int, a: Matrix, row2: int, col2: int, b: Matrix)
      returns (c: array2?<Int32>)
      requires Covers(a, row1, col1) && Covers(b, row2, col2)
      requires row1 <= BOUND && col2 <= BOUND
      modifies this
      ensures c == null <==> row2 != col1
      ensures c == null ==> unchanged(this)
      ensures c != null ==>
        fresh(c) && c.Length0 == c.Length1 == 100 && forall r: nat, s: nat :: r < BOUND && s < BOUND ==>
          c[r, s] == Wrap(ToAdd(a, b, row1, col1, col2, r, s, old(i), old(j), old(k)))
      ensures c != null && old(i) == old(j) == old(k) == 0 ==>
        forall r: nat, s: nat :: r < row1 && s < col2 ==> c[r, s] == Wrap(Dot(a, b, r, s, 0, col1))
      ensures c != null ==> i >= row1
      ensures c != null && old(i) >= row1 ==> forall r: nat, s: nat :: r < BOUND && s < BOUND ==> c[r, s] == 0
    {
      if row2 != col1 {
        return null;
      }
      c := new Int32[BOUND, BOUND]((_, _) => 0);
      MultiplyMatrixRec(row1, col1, a, row2, col2, b, c);
      if old(i) >= row1 {
        NothingToAdd(a, b, row1, col1, col2, old(i), old(j), old(k));
      }
      for x := 0 to Clip(row1) {
        for y := 0 to Clip(col2) {
          var q := 0;
          q := q + 1;
        }
      }
    }
  }
}
