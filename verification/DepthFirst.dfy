/** `depthFirstSearch` of the program `graph.c`, over the vertex list and the adjacency matrix
    that it shares with `bfs.c`, with an array stack. */
module DepthFirst {

  import opened BreadthFirst
  import opened FiniteSets

  // ---- depth-first orders -------------------------------------------------------------------

  /** Vertex `v` is among the first `n` of `order`. */
  ghost predicate Before(order: seq<nat>, n: nat, v: nat) {
    exists j :: 0 <= j < n && j < |order| && order[j] == v
  }

  /** All neighbours of entry `a` are among the first `n`. */
  ghost predicate Finished(e: Edges, order: seq<nat>, n: nat, a: nat)
    requires a < |order|
  {
    forall v: nat :: (order[a], v) in e ==> Before(order, n, v)
  }

  /** The mark of a depth-first order: if entry `b` comes before entry `c` although only `c` is a
      neighbour of the earlier entry `a`, then `b` was reached from an entry after `a`. */
  ghost predicate IsDepthFirst(e: Edges, order: seq<nat>) {
    forall a, b, c :: 0 <= a < b < c < |order| && (order[a], order[c]) in e && (order[a], order[b]) !in e ==>
      exists d :: a < d < b && (order[d], order[b]) in e
  }

  // ---- what the stack knows -----------------------------------------------------------------

  ghost predicate Increasing(pos: seq<nat>, n: nat) {
    (forall i, j :: 0 <= i < j < |pos| ==> pos[i] < pos[j]) && (forall i :: 0 <= i < |pos| ==> pos[i] < n)
  }

  /** Entry `k` was pushed as a neighbour of entry `parent[k]`. */
  ghost predicate IsParent(e: Edges, order: seq<nat>, parent: seq<nat>, k: nat)
    requires k < |order| == |parent|
  {
    parent[k] < k && (order[parent[k]], order[k]) in e
  }

  /** When entry `b` was pushed, every entry before it was finished or not above the parent of `b`. */
  ghost predicate Nested(e: Edges, order: seq<nat>, parent: seq<nat>, a: nat, b: nat)
    requires a < |order| && b < |parent|
  {
    Finished(e, order, b, a) || a <= parent[b]
  }

  /** The pushes so far; the stack holds the entries at the positions `pos`. */
  ghost predicate Searched(e: Edges, order: seq<nat>, parent: seq<nat>, pos: seq<nat>) {
    && |order| == |parent| > 0 && Distinct(order) && order[0] == 0
    && (forall k :: 0 < k < |order| ==> IsParent(e, order, parent, k))
    && Increasing(pos, |order|)
    && (forall a :: 0 <= a < |order| && a !in pos ==> Finished(e, order, |order|, a))
    && (forall a, b :: 0 <= a < b < |order| ==> Nested(e, order, parent, a, b))
  }

  lemma SearchStart(e: Edges) returns (order: seq<nat>, parent: seq<nat>, pos: seq<nat>)
    ensures Searched(e, order, parent, pos) && order == [0] && pos == [0]
  {
    order, parent, pos := [0], [0], [0];
  }

  lemma FinishedStays(e: Edges, order: seq<nat>, n: nat, a: nat, v: nat)
    requires a < |order| && n <= |order|
    ensures Finished(e, order, n, a) <==> Finished(e, order + [v], n, a)
  {
    forall w: nat ensures Before(order, n, w) <==> Before(order + [v], n, w) {
      if Before(order, n, w) {
        var j :| 0 <= j < n && j < |order| && order[j] == w;
        assert (order + [v])[j] == w;
      }
    }
    assert (order + [v])[a] == order[a];
  }

  lemma FinishedGrows(e: Edges, order: seq<nat>, n: nat, m: nat, a: nat)
    requires a < |order| && n <= m && Finished(e, order, n, a)
    ensures Finished(e, order, m, a)
  {
    forall w: nat | (order[a], w) in e ensures Before(order, m, w) {
      var j :| 0 <= j < n && j < |order| && order[j] == w;
    }
  }

  lemma SearchPush(e: Edges, order: seq<nat>, parent: seq<nat>, pos: seq<nat>, v: nat)
    requires Searched(e, order, parent, pos) && |pos| > 0
    requires (order[pos[|pos| - 1]], v) in e && v !in order
    ensures Searched(e, order + [v], parent + [pos[|pos| - 1]], pos + [|order|])
  {
    var n, top := |order|, pos[|pos| - 1];
    var order', parent', pos' := order + [v], parent + [top], pos + [n];
    forall k | 0 < k < |order'| ensures IsParent(e, order', parent', k) {
      assert k < n ==> IsParent(e, order, parent, k);
    }
    forall a | 0 <= a < |order'| && a !in pos' ensures Finished(e, order', n + 1, a) {
      assert pos'[|pos|] == n;
      assert a !in pos;
      FinishedStays(e, order, n, a, v);
      FinishedGrows(e, order', n, n + 1, a);
    }
    forall a, b | 0 <= a < b < |order'| ensures Nested(e, order', parent', a, b) {
      if b < n {
        assert Nested(e, order, parent, a, b);
        FinishedStays(e, order, b, a, v);
      } else if a in pos {
        var i :| 0 <= i < |pos| && pos[i] == a;
        assert a <= top;
      } else {
        FinishedStays(e, order, n, a, v);
      }
    }
  }

  lemma SearchPop(e: Edges, order: seq<nat>, parent: seq<nat>, pos: seq<nat>)
    requires Searched(e, order, parent, pos) && |pos| > 0
    requires forall v: nat :: (order[pos[|pos| - 1]], v) in e ==> v in order
    ensures Searched(e, order, parent, pos[..|pos| - 1])
  {
    var top, rest := pos[|pos| - 1], pos[..|pos| - 1];
    forall a | 0 <= a < |order| && a !in rest ensures Finished(e, order, |order|, a) {
      if a == top {
        forall v: nat | (order[a], v) in e ensures Before(order, |order|, v) {
          assert v in order;
          var j :| 0 <= j < |order| && order[j] == v;
        }
      } else {
        assert pos == rest + [top];
        assert a !in pos;
      }
    }
  }

  // ---- what the search found ------------------------------------------------------------------

  lemma {:induction false} PushedIsReachable(e: Edges, order: seq<nat>, parent: seq<nat>, pos: seq<nat>, k: nat)
    requires Searched(e, order, parent, pos) && k < |order|
    ensures Reachable(e, order[k])
    decreases k
  {
    if k == 0 {
      StartWalk(e);
      assert HasWalk(e, order[k], 0);
    } else {
      assert IsParent(e, order, parent, k);
      PushedIsReachable(e, order, parent, pos, parent[k]);
      var n: nat :| HasWalk(e, order[parent[k]], n);
      ExtendWalk(e, order[parent[k]], order[k], n);
    }
  }

  lemma {:induction false} ReachableIsPushed(e: Edges, order: seq<nat>, parent: seq<nat>, v: nat, n: nat)
    requires Searched(e, order, parent, []) && HasWalk(e, v, n)
    ensures v in order
    decreases n
  {
    if n == 0 {
      assert v == 0 == order[0];
    } else {
      var u := LastStep(e, v, n);
      ReachableIsPushed(e, order, parent, u, n - 1);
      var a :| 0 <= a < |order| && order[a] == u;
      assert Finished(e, order, |order|, a);
      assert Before(order, |order|, v);
    }
  }

  /** With the stack empty, exactly the reachable vertices were pushed. */
  lemma SearchIsComplete(e: Edges, order: seq<nat>, parent: seq<nat>)
    requires Searched(e, order, parent, [])
    ensures forall v: nat :: v in order <==> Reachable(e, v)
  {
    forall v: nat | v in order ensures Reachable(e, v) {
      var k :| 0 <= k < |order| && order[k] == v;
      PushedIsReachable(e, order, parent, [], k);
    }
    forall v: nat, n: nat | HasWalk(e, v, n) ensures v in order {
      ReachableIsPushed(e, order, parent, v, n);
    }
  }

  /** And the pushes are in depth-first order. */
  lemma SearchIsDepthFirst(e: Edges, order: seq<nat>, parent: seq<nat>, pos: seq<nat>)
    requires Searched(e, order, parent, pos)
    ensures Distinct(order) && IsDepthFirst(e, order)
  {
    forall a, b, c | 0 <= a < b < c < |order| && (order[a], order[c]) in e && (order[a], order[b]) !in e
      ensures exists d :: a < d < b && (order[d], order[b]) in e
    {
      assert Nested(e, order, parent, a, b);
      assert !Finished(e, order, b, a) by {
        assert !Before(order, b, order[c]);
      }
      assert IsParent(e, order, parent, b);
      assert a < parent[b] < b;
    }
  }

  lemma {:induction false} StackFits(pos: seq<nat>, n: nat)
    requires Increasing(pos, n)
    ensures |pos| <= n
  {
    if |pos| > 0 {
      StackFits(pos[..|pos| - 1], pos[|pos| - 1]);
    }
  }

  lemma PushesFit(e: Edges, order: seq<nat>, parent: seq<nat>, pos: seq<nat>, reach: set<nat>)
    requires Searched(e, order, parent, pos) && IsReach(e, reach)
    ensures |pos| <= |order| <= |reach|
  {
    forall v: nat | v in Elements(order) ensures v in reach {
      var k :| 0 <= k < |order| && order[k] == v;
      PushedIsReachable(e, order, parent, pos, k);
      assert Reachable(e, v);
    }
    DistinctCount(order);
    SubsetSize(Elements(order), reach);
    StackFits(pos, |order|);
  }

  // ---- the program ------------------------------------------------------------------------------

  class Searcher {
    const graph: Graph
    const stack: array<int>
    var top: int

    ghost predicate Valid()
      reads this, graph
    {
      && graph.Valid() && stack != graph.queue
      && |graph.lstVertices| <= stack.Length && -1 <= top < stack.Length
    }

    constructor (graph: Graph)
      requires graph.Valid()
      ensures Valid() && top == -1 && this.graph == graph && fresh(stack)
    {
      this.graph := graph;
      stack := new int[graph.queue.Length](_ => 0);
      top := -1;
    }

    method Push(item: int)
      requires Valid() && top + 1 < stack.Length
      modifies this`top, stack
      ensures Valid() && top == old(top) + 1 && stack[top] == item
      ensures forall k :: 0 <= k < top ==> stack[k] == old(stack[k])
    {
      top := top + 1;
      stack[top] := item;
    }

    method Pop() returns (item: int)
      requires Valid() && top >= 0
      modifies this`top
      ensures Valid() && top == old(top) - 1 && item == stack[old(top)]
    {
      item := stack[top];
      top := top - 1;
    }

    /** The stack holds the entries of `order` at the positions `pos`. */
    ghost predicate StackHolds(order: seq<nat>, pos: seq<nat>)
      reads this`top, stack
    {
      && top + 1 == |pos| <= stack.Length
      && forall k :: 0 <= k < |pos| ==> pos[k] < |order| && stack[k] == order[pos[k]]
    }

    ghost predicate Listed(order: seq<nat>)
      reads graph`lstVertices
    {
      forall k :: 0 <= k < |order| ==> order[k] < |graph.lstVertices|
    }

    /** Marks vertex `v` and pushes it. */
    method Discover(v: nat, ghost order: seq<nat>, ghost pos: seq<nat>)
      requires Valid() && StackHolds(order, pos) && Listed(order) && graph.Marked(order)
      requires v < |graph.lstVertices| && top + 1 < stack.Length
      modifies this`top, stack, graph.lstVertices
      ensures Valid() && StackHolds(order + [v], pos + [|order|]) && Listed(order + [v])
      ensures graph.Marked(order + [v])
    {
      graph.lstVertices[v].visited := true;
      Push(v);
    }

    method ResetVisited()
      requires Valid()
      modifies graph.lstVertices
      ensures Valid() && graph.Marked([])
    {
      for i := 0 to |graph.lstVertices|
        invariant Valid() && forall k :: 0 <= k < i ==> !graph.lstVertices[k].visited
      {
        graph.lstVertices[i].visited := false;
      }
    }

    /** One round: the vertex on top of the stack leaves it if all its neighbours are marked,
        and otherwise its first unmarked neighbour is marked and pushed. */
    method SearchStep(ghost e: Edges, ghost reach: set<nat>,
                      ghost order: seq<nat>, ghost parent: seq<nat>, ghost pos: seq<nat>)
      returns (ghost order': seq<nat>, ghost parent': seq<nat>, ghost pos': seq<nat>)
      requires Valid() && graph.HasEdges(e) && IsReach(e, reach) && |reach| <= stack.Length
      requires StackHolds(order, pos) && Listed(order) && graph.Marked(order)
      requires Searched(e, order, parent, pos) && |pos| > 0
      modifies this`top, stack, graph.lstVertices
      ensures Valid() && StackHolds(order', pos') && Listed(order') && graph.Marked(order')
      ensures Searched(e, order', parent', pos') && |order'| <= |reach|
      ensures |order'| > |order| || (order' == order && |pos'| < |pos|)
    {
      hide Searched, IsReach;
      ghost var u := pos[|pos| - 1];
      PushesFit(e, order, parent, pos, reach);
      var unvisitedVertex := graph.GetAdjUnvisitedVertex(stack[top]);
      graph.NextIsNew(e, order, order[u], unvisitedVertex);
      if unvisitedVertex == -1 {
        SearchPop(e, order, parent, pos);
        order', parent', pos' := order, parent, pos[..|pos| - 1];
        var _ := Pop();
      } else {
        SearchPush(e, order, parent, pos, unvisitedVertex);
        order', parent', pos' := order + [unvisitedVertex], parent + [u], pos + [|order|];
        PushesFit(e, order', parent', pos', reach);
        Discover(unvisitedVertex, order, pos);
      }
    }

    /** `depthFirstSearch`: the vertices that are pushed are the reachable ones, each once, in
        depth-first order; the stack has room for them and is empty again at the end. */
    method DepthFirstSearch() returns (ghost e: Edges, ghost order: seq<nat>)
      requires Valid() && top == -1 && |graph.lstVertices| > 0 && graph.Marked([])
      modifies this`top, stack, graph.lstVertices
      ensures Valid() && top == -1 && graph.Marked([])
      ensures graph.HasEdges(e) && Distinct(order) && IsDepthFirst(e, order)
      ensures forall v: nat :: v in order <==> Reachable(e, v)
    {
      hide Searched, IsDepthFirst, Distinct, IsReach, Reachable, Graph.HasEdges, Graph.Marked, Graph.Valid;
      ghost var reach, parent, pos;
      ghost var none: seq<nat> := [];
      e := graph.EdgesOf();
      reach := graph.ReachOf(e);
      order, parent, pos := SearchStart(e);
      PushesFit(e, order, parent, pos, reach);
      Discover(0, none, none);
      assert order == none + [0] && pos == none + [0];
      while top != -1
        invariant Valid() && StackHolds(order, pos) && Listed(order) && graph.Marked(order)
        invariant Searched(e, order, parent, pos) && |order| <= |reach|
        decreases |reach| - |order|, |pos|
      {
        order, parent, pos := SearchStep(e, reach, order, parent, pos);
      }
      assert pos == [];
      SearchIsComplete(e, order, parent);
      SearchIsDepthFirst(e, order, parent, pos);
      ResetVisited();
    }
  }
}
