/** The program `bfs.c`: breadth-first search with an array queue, an adjacency matrix
    and a list of vertex records whose flags are set and reset in place. */
module BreadthFirst {

  import opened FiniteSets

  type Edges = set<(nat, nat)>

  // ---- walks and distances --------------------------------------------------------------

  ghost predicate IsStep(e: Edges, p: seq<nat>, k: nat)
    requires k + 1 < |p|
  {
    (p[k], p[k + 1]) in e
  }

  /** A walk of `|p| - 1` steps. */
  ghost predicate IsWalk(e: Edges, p: seq<nat>) {
    |p| > 0 && forall k :: 0 <= k < |p| - 1 ==> IsStep(e, p, k)
  }

  /** Vertex `v` can be reached from vertex 0 in exactly `n` steps. */
  ghost predicate HasWalk(e: Edges, v: nat, n: nat) {
    exists p: seq<nat> :: IsWalk(e, p) && |p| == n + 1 && p[0] == 0 && p[n] == v
  }

  ghost predicate Reachable(e: Edges, v: nat) { exists n: nat :: HasWalk(e, v, n) }

  ghost predicate IsReach(e: Edges, reach: set<nat>) {
    forall v: nat {:trigger Reachable(e, v)} :: v in reach <==> Reachable(e, v)
  }

  /** The length of a shortest walk. */
  ghost predicate IsDistance(e: Edges, v: nat, d: nat) {
    HasWalk(e, v, d) && forall n: nat :: HasWalk(e, v, n) ==> d <= n
  }

  lemma StartWalk(e: Edges)
    ensures HasWalk(e, 0, 0)
  {
    assert IsWalk(e, [0]);
  }

  lemma ExtendWalk(e: Edges, u: nat, v: nat, n: nat)
    requires HasWalk(e, u, n) && (u, v) in e
    ensures HasWalk(e, v, n + 1)
  {
    var p: seq<nat> :| IsWalk(e, p) && |p| == n + 1 && p[0] == 0 && p[n] == u;
    var q := p + [v];
    forall k | 0 <= k < |q| - 1 ensures IsStep(e, q, k) {
      assert k < n ==> IsStep(e, p, k);
    }
    assert IsWalk(e, q);
  }

  lemma LastStep(e: Edges, v: nat, n: nat) returns (u: nat)
    requires n > 0 && HasWalk(e, v, n)
    ensures HasWalk(e, u, n - 1) && (u, v) in e
  {
    var p: seq<nat> :| IsWalk(e, p) && |p| == n + 1 && p[0] == 0 && p[n] == v;
    u := p[n - 1];
    assert IsStep(e, p, n - 1);
    forall k | 0 <= k < |p[..n]| - 1 ensures IsStep(e, p[..n], k) {
      assert IsStep(e, p, k);
    }
    assert IsWalk(e, p[..n]);
  }

  // ---- what the queue knows ---------------------------------------------------------------

  /** Vertex `v` was queued at a distance of at most `d`. */
  ghost predicate Queued(order: seq<nat>, dist: seq<nat>, v: nat, d: nat)
    requires |order| == |dist|
  {
    exists j :: 0 <= j < |order| && order[j] == v && dist[j] <= d
  }

  /** The queue so far, with a walk length for every entry; the neighbours of the first
      `done` entries have been queued, and nothing is more than one step further away
      than entry `at`. */
  ghost predicate Explored(e: Edges, order: seq<nat>, dist: seq<nat>, done: nat, at: nat) {
    && |order| == |dist| > 0 && done <= |order| && Distinct(order)
    && order[0] == 0 && dist[0] == 0
    && (forall k {:trigger HasWalk(e, order[k], dist[k])} :: 0 <= k < |order| ==> HasWalk(e, order[k], dist[k]))
    && (forall j, k :: 0 <= j < k < |dist| ==> dist[j] <= dist[k])
    && (at < |order| ==> dist[|dist| - 1] <= dist[at] + 1)
    && (forall k, v: nat :: 0 <= k < done && (order[k], v) in e ==> Queued(order, dist, v, dist[k] + 1))
  }

  lemma ExploreStart(e: Edges) returns (order: seq<nat>, dist: seq<nat>)
    ensures Explored(e, order, dist, 0, 0) && order == [0]
  {
    order, dist := [0], [0];
    StartWalk(e);
  }

  lemma ExploreNeighbour(e: Edges, order: seq<nat>, dist: seq<nat>, c: nat, v: nat)
    requires Explored(e, order, dist, c, c) && c < |order|
    requires (order[c], v) in e && v !in order
    ensures Explored(e, order + [v], dist + [dist[c] + 1], c, c)
  {
    ExtendWalk(e, order[c], v, dist[c]);
    var order', dist' := order + [v], dist + [dist[c] + 1];
    forall k, w: nat | 0 <= k < c && (order'[k], w) in e
      ensures Queued(order', dist', w, dist'[k] + 1)
    {
      assert Queued(order, dist, w, dist[k] + 1);
      var j :| 0 <= j < |order| && order[j] == w && dist[j] <= dist[k] + 1;
      assert order'[j] == w && dist'[j] == dist[j];
    }
  }

  lemma ExploreDone(e: Edges, order: seq<nat>, dist: seq<nat>, c: nat)
    requires Explored(e, order, dist, c, c) && c < |order|
    requires forall v: nat :: (order[c], v) in e ==> v in order
    ensures Explored(e, order, dist, c + 1, c + 1)
  {
    forall v: nat | (order[c], v) in e ensures Queued(order, dist, v, dist[c] + 1) {
      var j :| 0 <= j < |order| && order[j] == v;
      assert dist[j] <= dist[|dist| - 1];
    }
  }

  /** Once every entry is done, every walk ends in the queue, not later than its length. */
  lemma {:induction false} WalksAreQueued(e: Edges, order: seq<nat>, dist: seq<nat>, v: nat, n: nat)
    requires Explored(e, order, dist, |order|, |order|) && HasWalk(e, v, n)
    ensures Queued(order, dist, v, n)
    decreases n
  {
    if n == 0 {
      assert v == 0;
      assert order[0] == v;
    } else {
      var u := LastStep(e, v, n);
      WalksAreQueued(e, order, dist, u, n - 1);
      var j :| 0 <= j < |order| && order[j] == u && dist[j] <= n - 1;
      assert Queued(order, dist, v, dist[j] + 1);
    }
  }

  /** Then the queue holds exactly the reachable vertices, each with its distance. */
  lemma ExploredIsComplete(e: Edges, order: seq<nat>, dist: seq<nat>)
    requires Explored(e, order, dist, |order|, |order|)
    ensures forall v: nat :: v in order <==> Reachable(e, v)
    ensures forall k :: 0 <= k < |order| ==> IsDistance(e, order[k], dist[k])
    ensures Distinct(order) && forall j, k :: 0 <= j < k < |order| ==> dist[j] <= dist[k]
  {
    forall v: nat, n: nat | HasWalk(e, v, n) ensures Queued(order, dist, v, n) {
      WalksAreQueued(e, order, dist, v, n);
    }
    forall k | 0 <= k < |order| ensures Reachable(e, order[k]) {
      assert HasWalk(e, order[k], dist[k]);
    }
    forall k, n: nat | 0 <= k < |order| && HasWalk(e, order[k], n) ensures dist[k] <= n {
      var j :| 0 <= j < |order| && order[j] == order[k] && dist[j] <= n;
    }
  }

  /** A walk from vertex 0 stays among the first `n` vertices if all edges end there. */
  lemma {:induction false} WalkStaysBelow(e: Edges, v: nat, k: nat, n: nat)
    requires n > 0 && HasWalk(e, v, k)
    requires forall u: nat, w: nat :: (u, w) in e ==> w < n
    ensures v < n
  {
    if k > 0 {
      var u := LastStep(e, v, k);
    }
  }

  /** Distinct reachable vertices are no more than there are reachable vertices. */
  lemma QueueFits(e: Edges, order: seq<nat>, dist: seq<nat>, done: nat, at: nat, reach: set<nat>)
    requires Explored(e, order, dist, done, at)
    requires IsReach(e, reach)
    ensures |order| == |dist| && |order| <= |reach|
  {
    forall v: nat | v in Elements(order) ensures v in reach {
      var k :| 0 <= k < |order| && order[k] == v;
      assert HasWalk(e, order[k], dist[k]);
      assert Reachable(e, v);
    }
    DistinctCount(order);
    SubsetSize(Elements(order), reach);
  }

  lemma QueuedAreReachable(e: Edges, order: seq<nat>, dist: seq<nat>, done: nat)
    requires Explored(e, order, dist, done, done)
    ensures Distinct(order) && forall v: nat :: v in order ==> Reachable(e, v)
  {
    forall v: nat | v in order ensures Reachable(e, v) {
      var k :| 0 <= k < |order| && order[k] == v;
      assert HasWalk(e, order[k], dist[k]);
    }
  }

  lemma SameReach(e: Edges, a: set<nat>, b: set<nat>)
    requires IsReach(e, a) && IsReach(e, b)
    ensures a == b
  {
    forall v: nat ensures v in a <==> v in b {
      assert Reachable(e, v) <==> v in a;
    }
  }

  lemma QueueIsFull(e: Edges, order: seq<nat>, dist: seq<nat>, reach: set<nat>)
    requires Explored(e, order, dist, |order|, |order|) && IsReach(e, reach)
    ensures |order| == |reach| == |dist|
  {
    ExploredIsComplete(e, order, dist);
    forall v: nat ensures v in Elements(order) <==> v in reach {
      assert Reachable(e, v) <==> v in reach;
    }
    assert Elements(order) == reach;
    DistinctCount(order);
  }

  // ---- the program --------------------------------------------------------------------------

  class Vertex {
    const name: char
    var visited: bool

    constructor (name: char)
      ensures this.name == name && !visited
    {
      this.name := name;
      visited := false;
    }
  }

  class Graph {
    const queue: array<int>
    var rear: int
    var front: int
    var queueItemCount: int
    var lstVertices: seq<Vertex>
    const adjMatrix: array2<int>

    ghost predicate Valid()
      reads this
    {
      && adjMatrix.Length0 == adjMatrix.Length1 == queue.Length
      && |lstVertices| <= queue.Length
      && (forall i, j :: 0 <= i < j < |lstVertices| ==> lstVertices[i] != lstVertices[j])
      && -1 <= rear < queue.Length && 0 <= front <= rear + 1
      && queueItemCount == rear + 1 - front
    }

    ghost predicate Adjacent(u: nat, v: nat)
      reads this`lstVertices, adjMatrix
    {
      && u < |lstVertices| && v < |lstVertices| && u < adjMatrix.Length0 && v < adjMatrix.Length1
      && adjMatrix[u, v] == 1
    }

    /** The adjacency matrix describes the edges `e`. */
    ghost predicate HasEdges(e: Edges)
      reads this`lstVertices, adjMatrix
    {
      forall u: nat, v: nat :: (u, v) in e <==> Adjacent(u, v)
    }

    /** The flags mark exactly the vertices in `order`. */
    ghost predicate Marked(order: seq<nat>)
      reads this`lstVertices, lstVertices
    {
      forall i: nat :: i < |lstVertices| ==> (lstVertices[i].visited <==> i in order)
    }

    constructor (max: nat)
      ensures Valid() && fresh(queue) && fresh(adjMatrix) && queue.Length == max
      ensures rear == -1 && front == 0 && lstVertices == []
      ensures forall i, j :: 0 <= i < max && 0 <= j < max ==> adjMatrix[i, j] == 0
    {
      queue := new int[max](_ => 0);
      adjMatrix := new int[max, max]((_, _) => 0);
      rear, front, queueItemCount := -1, 0, 0;
      lstVertices := [];
    }

    method Insert(data: int)
      requires Valid() && rear + 1 < queue.Length
      modifies this`rear, this`queueItemCount, queue
      ensures Valid() && rear == old(rear) + 1 && queueItemCount == old(queueItemCount) + 1
      ensures queue[rear] == data && forall k :: 0 <= k < rear ==> queue[k] == old(queue[k])
    {
      rear := rear + 1;
      queue[rear] := data;
      queueItemCount := queueItemCount + 1;
    }

    method RemoveData() returns (data: int)
      requires Valid() && queueItemCount > 0
      modifies this`front, this`queueItemCount
      ensures Valid() && front == old(front) + 1 && queueItemCount == old(queueItemCount) - 1
      ensures data == queue[old(front)]
    {
      queueItemCount := queueItemCount - 1;
      data := queue[front];
      front := front + 1;
    }

    method AddVertex(name: char)
      requires Valid() && |lstVertices| < queue.Length
      modifies this`lstVertices
      ensures Valid() && |lstVertices| == |old(lstVertices)| + 1
      ensures lstVertices[..|old(lstVertices)|] == old(lstVertices)
      ensures fresh(lstVertices[|old(lstVertices)|]) && !lstVertices[|old(lstVertices)|].visited
      ensures lstVertices[|old(lstVertices)|].name == name
    {
      var vertex := new Vertex(name);
      lstVertices := lstVertices + [vertex];
    }

    /** Edges are symmetric. */
    method AddEdge(start: nat, end: nat, ghost e: Edges)
      requires Valid() && start < |lstVertices| && end < |lstVertices| && HasEdges(e)
      modifies adjMatrix
      ensures Valid() && HasEdges(e + {(start, end), (end, start)})
    {
      adjMatrix[start, end] := 1;
      adjMatrix[end, start] := 1;
    }

    /** `v` is the first unvisited neighbour of `u`, or -1 when every neighbour is visited. */
    ghost predicate NextUnvisited(u: nat, v: int)
      reads this`lstVertices, adjMatrix, lstVertices
    {
      && (v == -1 || (0 <= v < |lstVertices| && Adjacent(u, v) && !lstVertices[v].visited))
      && forall i: nat :: i < |lstVertices| && (v == -1 || i < v) && Adjacent(u, i) ==> lstVertices[i].visited
    }

    method GetAdjUnvisitedVertex(vertexIndex: nat) returns (v: int)
      requires Valid() && vertexIndex < |lstVertices|
      ensures NextUnvisited(vertexIndex, v)
    {
      for i := 0 to |lstVertices|
        invariant forall k: nat :: k < i && Adjacent(vertexIndex, k) ==> lstVertices[k].visited
      {
        if adjMatrix[vertexIndex, i] == 1 && !lstVertices[i].visited {
          return i;
        }
      }
      return -1;
    }

    lemma EdgesOf() returns (e: Edges)
      ensures HasEdges(e)
    {
      e := set u: nat, v: nat | u < |lstVertices| && v < |lstVertices| && Adjacent(u, v) :: (u, v);
    }

    lemma SameEdges(a: Edges, b: Edges)
      requires HasEdges(a) && HasEdges(b)
      ensures a == b
    {
      forall u: nat, v: nat ensures (u, v) in a <==> (u, v) in b {
        assert (u, v) in a <==> Adjacent(u, v);
      }
      assert forall p :: p in a <==> (p.0, p.1) in b;
    }

    lemma ReachOf(e: Edges) returns (reach: set<nat>)
      requires Valid() && |lstVertices| > 0 && HasEdges(e)
      ensures IsReach(e, reach) && |reach| <= |lstVertices|
    {
      reach := set v: nat | v < |lstVertices| && Reachable(e, v);
      forall v: nat, n: nat | HasWalk(e, v, n) ensures v < |lstVertices| {
        WalkStaysBelow(e, v, n, |lstVertices|);
      }
      SubsetSize(reach, Range(0, |lstVertices|));
    }

    /** On a queue that was never used there is room for the whole search. */
    lemma FirstSearchFits(e: Edges, reach: set<nat>)
      requires 0 < |lstVertices| <= queue.Length && HasEdges(e) && IsReach(e, reach)
      ensures |reach| <= |lstVertices| <= queue.Length
    {
      forall v | v in reach ensures v < |lstVertices| {
        assert Reachable(e, v);
        var n: nat :| HasWalk(e, v, n);
        WalkStaysBelow(e, v, n, |lstVertices|);
      }
      SubsetSize(reach, Range(0, |lstVertices|));
    }

    /** What `GetAdjUnvisitedVertex` finds, in terms of the vertices marked so far. */
    lemma NextIsNew(e: Edges, order: seq<nat>, u: nat, v: int)
      requires HasEdges(e) && Marked(order) && NextUnvisited(u, v)
      ensures v != -1 ==> 0 <= v < |lstVertices| && (u, v) in e && v !in order
      ensures v == -1 ==> forall w: nat :: (u, w) in e ==> w in order
    {
    }

    /** The queue content from position `base` on. */
    ghost predicate QueueHolds(base: nat, order: seq<nat>)
      reads this`rear, queue
    {
      && rear + 1 == base + |order| && rear < queue.Length
      && forall k :: 0 <= k < |order| ==> queue[base + k] == order[k]
    }

    /** State between two searches: the queue is used up and no vertex is marked. */
    ghost predicate Idle()
      reads this, lstVertices
    {
      Valid() && front == rear + 1 && forall i :: 0 <= i < |lstVertices| ==> !lstVertices[i].visited
    }

    /** A search in progress that started at queue position `base`. */
    ghost predicate Searching(base: nat, order: seq<nat>)
      reads this, queue, lstVertices
    {
      && Valid() && QueueHolds(base, order)
      && (forall k :: 0 <= k < |order| ==> order[k] < |lstVertices|)
      && Marked(order)
    }

    /** The first `n` queue positions are untouched. */
    twostate predicate Kept(n: nat)
      reads queue
    {
      n <= queue.Length && forall k :: 0 <= k < n ==> queue[k] == old(queue[k])
    }

    /** Marks vertex `v` and queues it.  The program would write behind the array when the
        queue is full; here that is reported. */
    method Discover(v: nat, ghost base: nat, ghost order: seq<nat>) returns (overrun: bool)
      requires Searching(base, order) && v < |lstVertices|
      modifies this`rear, this`queueItemCount, queue, lstVertices
      ensures overrun <==> old(rear) + 1 == queue.Length
      ensures !overrun ==> Searching(base, order + [v])
      ensures overrun ==> rear == old(rear) && QueueHolds(base, order)
      ensures Kept(base) && front == old(front)
    {
      lstVertices[v].visited := true;
      overrun := rear + 1 == queue.Length;
      if !overrun {
        Insert(v);
      }
    }

    method ResetVisited(ghost n: nat)
      requires Valid() && front == rear + 1 && n <= queue.Length
      modifies lstVertices
      ensures Idle() && Kept(n)
    {
      for i := 0 to |lstVertices|
        invariant Valid() && Kept(n)
        invariant forall k :: 0 <= k < i ==> !lstVertices[k].visited
      {
        lstVertices[i].visited := false;
      }
    }

    /** One round of the search: the vertex at the front of the queue leaves it and all its
        unvisited neighbours are queued, as long as there is room. */
    method SearchFrom(ghost base: nat, ghost e: Edges, ghost reach: set<nat>,
                      ghost order: seq<nat>, ghost dist: seq<nat>)
      returns (overrun: bool, ghost order': seq<nat>, ghost dist': seq<nat>)
      requires Searching(base, order) && queueItemCount > 0 && base <= front
      requires HasEdges(e) && IsReach(e, reach)
      requires Explored(e, order, dist, front - base, front - base)
      modifies this`rear, this`front, this`queueItemCount, queue, lstVertices
      ensures Kept(base) && QueueHolds(base, order') && front == old(front) + 1
      ensures |order'| == |dist'| && front - base - 1 < |order'|
      ensures var done := front - base - (if overrun then 1 else 0);
              Explored(e, order', dist', done, done)
      ensures !overrun ==> Searching(base, order') && |order'| <= |reach|
      ensures overrun ==> rear + 1 == queue.Length < base + |reach|
    {
      hide HasEdges, Marked, NextUnvisited, Explored, IsReach;
      overrun, order', dist' := false, order, dist;
      ghost var c := front - base;
      QueueFits(e, order', dist', c, c, reach);
      var tempVertex := RemoveData();
      assert tempVertex == order[c];
      var unvisitedVertex := GetAdjUnvisitedVertex(tempVertex);
      while unvisitedVertex != -1
        invariant Searching(base, order') && Kept(base)
        invariant front == base + c + 1 && c < |order'| == |dist'| && order'[c] == tempVertex
        invariant Explored(e, order', dist', c, c)
        invariant |order'| <= |reach|
        invariant NextUnvisited(tempVertex, unvisitedVertex)
        decreases |reach| - |order'|
      {
        NextIsNew(e, order', tempVertex, unvisitedVertex);
        ExploreNeighbour(e, order', dist', c, unvisitedVertex);
        QueueFits(e, order' + [unvisitedVertex], dist' + [dist'[c] + 1], c, c, reach);
        overrun := Discover(unvisitedVertex, base, order');
        if overrun {
          return;
        }
        order', dist' := order' + [unvisitedVertex], dist' + [dist'[c] + 1];
        unvisitedVertex := GetAdjUnvisitedVertex(tempVertex);
      }
      NextIsNew(e, order', tempVertex, unvisitedVertex);
      ExploreDone(e, order', dist', c);
    }

    /** `breadthFirstSearch`.  The queue has no wrap-around: it overruns exactly if there is
        not room for all vertices that can be reached.  Otherwise the new part of the queue
        lists exactly the vertices reachable from vertex 0, each once, by increasing distance. */
    method BreadthFirstSearch()
      returns (overrun: bool, ghost e: Edges, ghost reach: set<nat>, ghost order: seq<nat>, ghost dist: seq<nat>)
      requires Idle() && |lstVertices| > 0
      modifies this`rear, this`front, this`queueItemCount, queue, lstVertices
      ensures HasEdges(e) && IsReach(e, reach)
      ensures overrun <==> old(rear) + 1 + |reach| > queue.Length
      ensures Kept(old(rear) + 1) && QueueHolds(old(rear) + 1, order) && Distinct(order)
      ensures forall v: nat :: v in order ==> Reachable(e, v)
      ensures overrun ==> rear + 1 == queue.Length
      ensures !overrun ==> Idle() && |order| == |reach| == |dist|
      ensures !overrun ==> forall v: nat :: Reachable(e, v) ==> v in order
      ensures !overrun ==> forall k :: 0 <= k < |order| ==> IsDistance(e, order[k], dist[k])
      ensures !overrun ==> forall j, k :: 0 <= j < k < |dist| ==> dist[j] <= dist[k]
    {
      hide HasEdges, Marked, IsReach, Reachable, HasWalk, Explored, IsDistance, Queued;
      ghost var base := rear + 1;
      ghost var none: seq<nat> := [];
      e := EdgesOf();
      reach := ReachOf(e);
      order, dist := ExploreStart(e);
      QueueFits(e, order, dist, 0, 0, reach);
      overrun := Discover(0, base, none);
      if overrun {
        order := none;
        return;
      }
      assert order == none + [0];
      while queueItemCount != 0
        invariant Searching(base, order) && Kept(base)
        invariant base <= front && Explored(e, order, dist, front - base, front - base)
        invariant |order| <= |reach|
        decreases |reach| - (front - base)
      {
        overrun, order, dist := SearchFrom(base, e, reach, order, dist);
        if overrun {
          QueuedAreReachable(e, order, dist, front - base - 1);
          return;
        }
      }
      QueueIsFull(e, order, dist, reach);
      ExploredIsComplete(e, order, dist);
      ResetVisited(rear + 1);
    }

    /** On a queue that was never used a search has room, and a second one exactly if the
        queue has two places for every vertex that can be reached. */
    method SearchTwice() returns (overrun: bool, ghost reach: set<nat>)
      requires Idle() && |lstVertices| > 0 && rear == -1
      modifies this`rear, this`front, this`queueItemCount, queue, lstVertices
      ensures exists e :: HasEdges(e) && IsReach(e, reach)
      ensures overrun <==> 2 * |reach| > queue.Length
    {
      ghost var e, order, dist, e', reach';
      overrun, e, reach, order, dist := BreadthFirstSearch();
      FirstSearchFits(e, reach);
      overrun, e', reach', order, dist := BreadthFirstSearch();
      SameEdges(e, e');
      SameReach(e, reach, reach');
    }
  }
}
