/** The program `backtrack.c`: knight's tours by backtracking on a board that is
    written and undone in place.  The board size is symbolic. */
module KnightTour {

  import opened FiniteSets

  datatype Square = Square(x: int, y: int)

  /** The move tables: entry `k` is one kind of step. */
  datatype Moves = Moves(dx: seq<int>, dy: seq<int>) {
    ghost predicate Valid() { |dx| == |dy| == 8 }

    function After(a: Square, k: nat): Square
      requires Valid() && k < 8
    {
      Square(a.x + dx[k], a.y + dy[k])
    }

    /** Some kind of step leads from `a` to `b`. */
    ghost predicate Step(a: Square, b: Square)
      requires Valid()
    {
      exists k :: 0 <= k < 8 && b == After(a, k)
    }
  }

  const KNIGHT := Moves([2, 1, -1, -2, -2, -1, 1, 2], [1, 2, 2, 1, -1, -2, -2, -1])

  function Distance(a: int, b: int): nat { if a < b then b - a else a - b }

  /** A knight's move: one square along one axis and two along the other. */
  ghost predicate KnightStep(a: Square, b: Square) {
    || (Distance(a.x, b.x) == 1 && Distance(a.y, b.y) == 2)
    || (Distance(a.x, b.x) == 2 && Distance(a.y, b.y) == 1)
  }

  ghost predicate OnBoard(n: nat, s: Square) { 0 <= s.x < n && 0 <= s.y < n }

  /** Different squares of the board, each one step from the one before. */
  ghost predicate IsPath(n: nat, m: Moves, path: seq<Square>)
    requires m.Valid()
  {
    && (forall i :: 0 <= i < |path| ==> OnBoard(n, path[i]))
    && Distinct(path)
    && (forall i :: 0 < i < |path| ==> m.Step(path[i - 1], path[i]))
  }

  /** A path over all squares. */
  ghost predicate IsTour(n: nat, m: Moves, path: seq<Square>)
    requires m.Valid()
  {
    IsPath(n, m, path) && |path| == n * n
  }

  /** The board shows the path: visit numbers on its squares, -1 elsewhere. */
  ghost predicate Shows(sol: array2<int>, path: seq<Square>)
    reads sol
  {
    && sol.Length0 == sol.Length1
    && (forall i :: 0 <= i < |path| ==>
          OnBoard(sol.Length0, path[i]) && sol[path[i].x, path[i].y] == i)
    && (forall x, y :: 0 <= x < sol.Length0 && 0 <= y < sol.Length1 && Square(x, y) !in path ==>
          sol[x, y] == -1)
  }

  // ---- the knight ------------------------------------------------------------------------

  /** The table of the program lists the knight's moves: all of them and nothing else. */
  lemma TableIsKnight(a: Square, b: Square)
    ensures KNIGHT.Step(a, b) <==> KnightStep(a, b)
  {
    if KnightStep(a, b) {
      var dx, dy := b.x - a.x, b.y - a.y;
      var k := if dx == 2 then (if dy == 1 then 0 else 7)
               else if dx == 1 then (if dy == 2 then 1 else 6)
               else if dx == -1 then (if dy == 2 then 2 else 5)
               else if dy == 1 then 3 else 4;
      assert b == KNIGHT.After(a, k);
    }
  }

  /** A knight's tour of the `n` by `n` board from the corner: it visits all squares, each once. */
  ghost predicate IsKnightsTour(n: nat, tour: seq<Square>) {
    && |tour| == n * n > 0 && tour[0] == Square(0, 0)
    && (forall i :: 0 <= i < |tour| ==> 0 <= tour[i].x < n && 0 <= tour[i].y < n)
    && (forall i, j :: 0 <= i < j < |tour| ==> tour[i] != tour[j])
    && (forall i :: 0 < i < |tour| ==> KnightStep(tour[i - 1], tour[i]))
  }

  lemma ToursAreKnights(n: nat, tour: seq<Square>)
    requires n > 0
    ensures IsKnightsTour(n, tour) <==> IsTour(n, KNIGHT, tour) && [Square(0, 0)] <= tour
  {
    forall i | 0 < i < |tour| ensures KNIGHT.Step(tour[i - 1], tour[i]) <==> KnightStep(tour[i - 1], tour[i]) {
      TableIsKnight(tour[i - 1], tour[i]);
    }
  }

  // ---- how long a path can be ----------------------------------------------------------

  function Row(x: nat, n: nat): (s: set<Square>)
    ensures forall q :: q in s <==> q.x == x && 0 <= q.y < n
    ensures |s| == n
  {
    if n == 0 then {} else Row(x, n - 1) + {Square(x, n - 1)}
  }

  function Rows(n: nat, m: nat): (s: set<Square>)
    ensures forall q :: q in s <==> 0 <= q.x < m && 0 <= q.y < n
    ensures m * n >= 0 && |s| == m * n
  {
    if m == 0 then {}
    else
      assert m * n == (m - 1) * n + n;
      assert Rows(n, m - 1) !! Row(m - 1, n);
      Rows(n, m - 1) + Row(m - 1, n)
  }

  /** No path is longer than the board has squares. */
  lemma PathFits(n: nat, m: Moves, path: seq<Square>)
    requires m.Valid() && IsPath(n, m, path)
    ensures |path| <= n * n
  {
    DistinctCount(path);
    SubsetSize(Elements(path), Rows(n, n));
  }

  /** A path of full length visits every square. */
  lemma TourCovers(n: nat, m: Moves, path: seq<Square>, q: Square)
    requires m.Valid() && IsTour(n, m, path) && OnBoard(n, q)
    ensures q in path
  {
    if q !in path {
      DistinctCount(path);
      SubsetSize(Elements(path) + {q}, Rows(n, n));
    }
  }

  // ---- search --------------------------------------------------------------------------

  method IsSafe(x: int, y: int, sol: array2<int>) returns (safe: bool)
    requires sol.Length0 == sol.Length1
    ensures safe <==> OnBoard(sol.Length0, Square(x, y)) && sol[x, y] == -1
  {
    safe := 0 <= x < sol.Length0 && 0 <= y < sol.Length0 && sol[x, y] == -1;
  }

  /** `tour` goes on from `path` by a step of kind `j`. */
  ghost predicate GoesOnBy(m: Moves, path: seq<Square>, tour: seq<Square>, j: nat)
    requires m.Valid() && path != [] && j < 8
  {
    path < tour && tour[|path|] == m.After(path[|path| - 1], j)
  }

  /** Going on from `path` by steps of kind less than `k` only leads to no tour. */
  ghost predicate Exhausted(n: nat, m: Moves, path: seq<Square>, k: nat)
    requires m.Valid() && path != [] && k <= 8
  {
    forall tour, j :: 0 <= j < k && GoesOnBy(m, path, tour, j) ==> !IsTour(n, m, tour)
  }

  ghost predicate IsFirstMove(n: nat, m: Moves, tour: seq<Square>, i: nat)
    requires m.Valid() && 0 < i < |tour|
  {
    exists k :: 0 <= k < 8 && tour[i] == m.After(tour[i - 1], k) && Exhausted(n, m, tour[..i], k)
  }

  /** From position `from` on every move of the tour is the first one that leads to a tour. */
  ghost predicate IsFirst(n: nat, m: Moves, from: nat, tour: seq<Square>)
    requires m.Valid() && from > 0
  {
    forall i :: from <= i < |tour| ==> IsFirstMove(n, m, tour, i)
  }

  lemma TourGoesOn(n: nat, m: Moves, path: seq<Square>, tour: seq<Square>)
    requires m.Valid() && path != [] && path <= tour && IsTour(n, m, tour) && |path| != n * n
    ensures exists j :: 0 <= j < 8 && GoesOnBy(m, path, tour, j)
  {
    assert m.Step(tour[|path| - 1], tour[|path|]);
    var j :| 0 <= j < 8 && tour[|path|] == m.After(tour[|path| - 1], j);
    assert GoesOnBy(m, path, tour, j);
  }

  lemma ExtendPath(n: nat, m: Moves, path: seq<Square>, k: nat)
    requires m.Valid() && path != [] && IsPath(n, m, path) && k < 8
    requires OnBoard(n, m.After(path[|path| - 1], k)) && m.After(path[|path| - 1], k) !in path
    ensures IsPath(n, m, path + [m.After(path[|path| - 1], k)])
  {
    var q := m.After(path[|path| - 1], k);
    assert m.Step(path[|path| - 1], q);
  }

  /** A step off the board or onto the path is not part of any tour. */
  lemma BlockedStep(n: nat, m: Moves, path: seq<Square>, k: nat)
    requires m.Valid() && path != [] && k < 8 && Exhausted(n, m, path, k)
    requires !OnBoard(n, m.After(path[|path| - 1], k)) || m.After(path[|path| - 1], k) in path
    ensures Exhausted(n, m, path, k + 1)
  {
    var q := m.After(path[|path| - 1], k);
    forall tour | GoesOnBy(m, path, tour, k) ensures !IsTour(n, m, tour) {
      if q in path {
        var i :| 0 <= i < |path| && path[i] == q;
        assert tour[i] == tour[|path|];
      }
    }
  }

  lemma TriedStep(n: nat, m: Moves, path: seq<Square>, k: nat)
    requires m.Valid() && path != [] && k < 8 && Exhausted(n, m, path, k)
    requires forall tour :: path + [m.After(path[|path| - 1], k)] <= tour ==> !IsTour(n, m, tour)
    ensures Exhausted(n, m, path, k + 1)
  {
    var q := m.After(path[|path| - 1], k);
    forall tour | GoesOnBy(m, path, tour, k) ensures !IsTour(n, m, tour) {
      assert path + [q] <= tour;
    }
  }

  lemma SafeIsNew(sol: array2<int>, path: seq<Square>, q: Square)
    requires Shows(sol, path)
    ensures OnBoard(sol.Length0, q) ==> (sol[q.x, q.y] == -1 <==> q !in path)
  {
    if q in path {
      var i :| 0 <= i < |path| && path[i] == q;
    }
  }

  /** `solveKTUtil`: sound and complete.  Either the board ends up showing a tour that
      extends the path shown before, or there is none and the board is as before. */
  method SolveKTUtil(x: int, y: int, movei: nat, sol: array2<int>, m: Moves, ghost path: seq<Square>)
    returns (found: bool, ghost tour: seq<Square>)
    requires m.Valid() && IsPath(sol.Length0, m, path) && Shows(sol, path)
    requires |path| == movei > 0 && path[movei - 1] == Square(x, y)
    modifies sol
    ensures found ==> path <= tour && IsTour(sol.Length0, m, tour) && Shows(sol, tour)
    ensures found ==> IsFirst(sol.Length0, m, movei, tour)
    ensures !found ==> forall t :: path <= t ==> !IsTour(sol.Length0, m, t)
    ensures !found ==>
      forall a, b :: 0 <= a < sol.Length0 && 0 <= b < sol.Length1 ==> sol[a, b] == old(sol[a, b])
    decreases sol.Length0 * sol.Length0 - movei
  {
    var n := sol.Length0;
    PathFits(n, m, path);
    tour := path;
    if movei == n * n {
      return true, path;
    }
    for k := 0 to 8
      invariant Shows(sol, path) && Exhausted(n, m, path, k)
      invariant forall a, b :: 0 <= a < n && 0 <= b < n ==> sol[a, b] == old(sol[a, b])
    {
      var nextX := x + m.dx[k];
      var nextY := y + m.dy[k];
      ghost var q := m.After(path[movei - 1], k);
      var safe := IsSafe(nextX, nextY, sol);
      SafeIsNew(sol, path, q);
      if safe {
        ExtendPath(n, m, path, k);
        PathFits(n, m, path + [q]);
        sol[nextX, nextY] := movei;
        found, tour := SolveKTUtil(nextX, nextY, movei + 1, sol, m, path + [q]);
        if found {
          assert path <= tour && tour[..movei] == path && tour[movei] == q;
          assert IsFirstMove(n, m, tour, movei);
          return;
        } else {
          sol[nextX, nextY] := -1;
        }
        TriedStep(n, m, path, k);
      } else {
        BlockedStep(n, m, path, k);
      }
    }
    forall t | path <= t ensures !IsTour(n, m, t) {
      if IsTour(n, m, t) {
        TourGoesOn(n, m, path, t);
      }
    }
    return false, path;
  }

  /** `solveKT`: the answer is whether a knight's tour from the corner exists.  The board then
      numbers its squares, and every earlier choice of a move was tried in vain. */
  method SolveKT(n: nat) returns (found: bool, sol: array2<int>, ghost tour: seq<Square>)
    requires n > 0
    ensures fresh(sol) && sol.Length0 == sol.Length1 == n
    ensures found <==> exists t :: IsKnightsTour(n, t)
    ensures found ==> IsKnightsTour(n, tour)
    ensures found ==> forall i :: 0 <= i < n * n ==> sol[tour[i].x, tour[i].y] == i
    ensures found ==> IsFirst(n, KNIGHT, 1, tour)
  {
    sol := new int[n, n]((_, _) => 0);
    for x := 0 to n
      invariant forall a, b :: 0 <= a < x && 0 <= b < n ==> sol[a, b] == -1
    {
      for y := 0 to n
        invariant forall a, b :: 0 <= a < x && 0 <= b < n ==> sol[a, b] == -1
        invariant forall b :: 0 <= b < y ==> sol[x, b] == -1
      {
        sol[x, y] := -1;
      }
    }
    sol[0, 0] := 0;
    found, tour := SolveKTUtil(0, 0, 1, sol, KNIGHT, [Square(0, 0)]);
    if found {
      assert [Square(0, 0)] <= tour;
      ToursAreKnights(n, tour);
    }
    forall t | IsKnightsTour(n, t) ensures found {
      ToursAreKnights(n, t);
    }
  }

  lemma CentreUnreachable(a: Square)
    requires OnBoard(3, a)
    ensures !KNIGHT.Step(a, Square(1, 1))
  {
  }

  /** On the 3 by 3 board of the program there is no tour: no step reaches the centre. */
  lemma NoTourOnThree(tour: seq<Square>)
    ensures !IsKnightsTour(3, tour)
  {
    if IsKnightsTour(3, tour) {
      ToursAreKnights(3, tour);
      TourCovers(3, KNIGHT, tour, Square(1, 1));
      var i :| 0 <= i < |tour| && tour[i] == Square(1, 1);
      CentreUnreachable(tour[i - 1]);
    }
  }
}
