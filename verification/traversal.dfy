/** Depth-first and breadth-first traversal of CA/GraphLists.java. Each
    returns the sequence of vertices the source prints, in printing order. */
module GraphTraversal {
  import opened GraphLists

  ghost function Vertices(g: Graph): set<int>
  {
    Ids(g.vertices + 1)
  }

  // ---------------------------------------------------------------------------
  // The order of a traversal

  /** The position in `list` of the first entry whose vertex `s` does not
      hold, or `|list|` when there is none. */
  function FirstOutside(list: seq<Edge>, s: seq<int>): (r: nat)
    ensures r <= |list|
    ensures r < |list| ==> list[r].vertex !in s
  {
    if list == [] then 0
    else if list[0].vertex !in s then 0
    else 1 + FirstOutside(list[1..], s)
  }

  /** Every entry before the first one outside `s` is in `s`. */
  lemma {:induction false} FirstOutsideSeen(list: seq<Edge>, s: seq<int>, i: int)
    requires 0 <= i < FirstOutside(list, s)
    ensures list[i].vertex in s
  {
    if i > 0 {
      FirstOutsideSeen(list[1..], s, i - 1);
    }
  }

  /** The list of `u` names a vertex that `s` does not hold. */
  ghost predicate Open(g: Graph, u: int, s: seq<int>)
  {
    0 <= u < |g.adj| && FirstOutside(g.adj[u], s) < |g.adj[u]|
  }

  /** `x` is the first vertex in the list of `u` that `s` does not hold. */
  ghost predicate NextOf(g: Graph, u: int, s: seq<int>, x: int)
  {
    Open(g, u, s) && g.adj[u][FirstOutside(g.adj[u], s)].vertex == x
  }

  /** `s[k]` is the first vertex in the list of `s[j]` missing from `s[..k]`. */
  ghost predicate Supplies(g: Graph, s: seq<int>, j: int, k: int)
    requires 0 <= j < k < |s|
  {
    NextOf(g, s[j], s[..k], s[k])
  }

  /** Breadth-first: `s[k]` is supplied by the earliest vertex before it whose
      list is still open. */
  ghost predicate BreadthNext(g: Graph, s: seq<int>, k: int)
    requires 0 < k < |s|
  {
    exists j :: 0 <= j < k && Supplies(g, s, j, k) && forall i :: 0 <= i < j ==> !Open(g, s[i], s[..k])
  }

  /** Depth-first: `s[k]` is supplied by the latest vertex before it whose
      list is still open. */
  ghost predicate DepthNext(g: Graph, s: seq<int>, k: int)
    requires 0 < k < |s|
  {
    exists j :: 0 <= j < k && Supplies(g, s, j, k) && forall i :: j < i < k ==> !Open(g, s[i], s[..k])
  }

  ghost predicate BreadthFirstOrder(g: Graph, s: seq<int>)
  {
    forall k :: 0 < k < |s| ==> BreadthNext(g, s, k)
  }

  ghost predicate DepthFirstOrder(g: Graph, s: seq<int>)
  {
    forall k :: 0 < k < |s| ==> DepthNext(g, s, k)
  }

  /** A list whose vertices `s` all holds is not open. */
  lemma Exhausted(g: Graph, u: int, s: seq<int>)
    requires 0 <= u < |g.adj| && forall j :: 0 <= j < |g.adj[u]| ==> g.adj[u][j].vertex in s
    ensures !Open(g, u, s)
  {
  }

  /** When the first `i` entries of `u`'s list are in `s` and entry `i` is
      not, entry `i` is the first one outside `s`. */
  lemma FirstOutsideAt(list: seq<Edge>, s: seq<int>, i: int)
    requires 0 <= i < |list| && list[i].vertex !in s
    requires forall j :: 0 <= j < i ==> list[j].vertex in s
    ensures FirstOutside(list, s) == i
  {
    if FirstOutside(list, s) > i {
      FirstOutsideSeen(list, s, i);
    }
  }

  /** Whether `s[k]` follows either rule depends on `s[..k + 1]` only. */
  lemma NextPrefix(g: Graph, s: seq<int>, t: seq<int>, k: int)
    requires 0 < k < |s| <= |t| && s == t[..|s|]
    ensures BreadthNext(g, s, k) ==> BreadthNext(g, t, k)
    ensures DepthNext(g, s, k) ==> DepthNext(g, t, k)
  {
    assert s[..k] == t[..k] && s[k] == t[k];
    assert forall i :: 0 <= i < k ==> s[i] == t[i];
    if BreadthNext(g, s, k) {
      var j :| 0 <= j < k && Supplies(g, s, j, k) && forall i :: 0 <= i < j ==> !Open(g, s[i], s[..k]);
      assert Supplies(g, t, j, k);
    }
    if DepthNext(g, s, k) {
      var j :| 0 <= j < k && Supplies(g, s, j, k) && forall i :: j < i < k ==> !Open(g, s[i], s[..k]);
      assert Supplies(g, t, j, k);
    }
  }

  /** When `vertex`, emitted at position `|before|`, reaches its neighbour
      `i` unseen, every vertex emitted after it is already closed, so that
      neighbour follows the depth-first rule. */
  lemma DepthChild(g: Graph, before: seq<int>, order: seq<int>, vertex: int, i: int, seen: set<int>)
    requires 0 <= vertex < |g.adj| && 0 <= i < |g.adj[vertex]|
    requires |order| > 0 && order[0] == vertex && Distinct(order)
    requires forall x :: x in seen <==> x in before + order
    requires forall x :: x in order && x != vertex ==> NeighboursIn(g, x, seen)
    requires forall j :: 0 <= j < i ==> g.adj[vertex][j].vertex in seen
    requires g.adj[vertex][i].vertex !in seen
    ensures DepthNext(g, before + order + [g.adj[vertex][i].vertex], |before + order|)
  {
    var s, k := before + order + [g.adj[vertex][i].vertex], |before + order|;
    assert s[..k] == before + order;
    assert forall j :: 0 <= j < i ==> g.adj[vertex][j].vertex in s[..k];
    FirstOutsideAt(g.adj[vertex], s[..k], i);
    assert Supplies(g, s, |before|, k);
    forall p | |before| < p < k
      ensures !Open(g, s[p], s[..k])
    {
      assert s[p] == order[p - |before|] && s[p] != vertex;
      assert s[p] in order && NeighboursIn(g, s[p], seen);
      Exhausted(g, s[p], s[..k]);
    }
  }

  /** Appending what a recursive call emitted keeps the depth-first rule
      for every position from `|before|` on. */
  lemma DepthAppend(g: Graph, before: seq<int>, order: seq<int>, sub: seq<int>)
    requires forall k :: |before| <= k < |before + order| && 0 < k ==> DepthNext(g, before + order, k)
    requires forall k :: |before + order| <= k < |before + order + sub| && 0 < k ==> DepthNext(g, before + order + sub, k)
    ensures forall k :: |before| <= k < |before + (order + sub)| && 0 < k ==> DepthNext(g, before + (order + sub), k)
  {
    assert before + order + sub == before + (order + sub);
    forall k | |before| <= k < |before + order| && 0 < k
      ensures DepthNext(g, before + order + sub, k)
    {
      NextPrefix(g, before + order, before + order + sub, k);
    }
  }

  /** The loop invariant of `depthFirstTraversalHelper` once the first `i`
      neighbours of `vertex` are handled. */
  ghost predicate DepthLoop(g: Graph, vertex: int, visited: set<int>, before: seq<int>, i: int,
                            visitedOut: set<int>, order: seq<int>)
  {
    && 0 <= vertex < |g.adj| && 0 <= i <= |g.adj[vertex]|
    && visited + {vertex} <= visitedOut <= Vertices(g)
    && (forall x :: x in visitedOut <==> x in visited || x in order)
    && |order| > 0 && order[0] == vertex && Distinct(order)
    && (forall x :: x in order ==> x !in visited && Reachable(g, vertex, x))
    && (forall x :: x in order && x != vertex ==> NeighboursIn(g, x, visitedOut))
    && (forall j :: 0 <= j < i ==> g.adj[vertex][j].vertex in visitedOut)
    && (forall k :: |before| <= k < |before + order| && 0 < k ==> DepthNext(g, before + order, k))
  }

  /** Appending what the recursive call on neighbour `i` emitted keeps the
      loop invariant. */
  lemma DepthLoopStep(g: Graph, vertex: int, visited: set<int>, before: seq<int>, i: int,
                      visitedOut: set<int>, order: seq<int>, more: set<int>, sub: seq<int>)
    requires WellFormed(g) && DepthLoop(g, vertex, visited, before, i, visitedOut, order)
    requires i < |g.adj[vertex]| && g.adj[vertex][i].vertex !in visitedOut
    requires visitedOut + {g.adj[vertex][i].vertex} <= more <= Vertices(g)
    requires forall x :: x in more <==> x in visitedOut || x in sub
    requires Distinct(sub)
    requires forall x :: x in sub ==> x !in visitedOut && Reachable(g, g.adj[vertex][i].vertex, x)
    requires forall x :: x in sub ==> NeighboursIn(g, x, more)
    requires forall k :: |before + order| <= k < |before + order + sub| && 0 < k ==> DepthNext(g, before + order + sub, k)
    ensures DepthLoop(g, vertex, visited, before, i + 1, more, order + sub)
  {
    var edge := g.adj[vertex][i];
    DepthAppend(g, before, order, sub);
    forall x | x in sub
      ensures Reachable(g, vertex, x)
    {
      ReachablePrepend(g, vertex, edge, x);
    }
    DistinctConcat(order, sub);
    forall x | x in order && x != vertex
      ensures NeighboursIn(g, x, more)
    {
      assert NeighboursIn(g, x, visitedOut);
    }
  }

  /** `depthFirstTraversalHelper`: marks `vertex`, emits it, then recurses
      into each neighbour, in list order, that is unmarked when its turn comes.
      The emitted vertices are exactly the newly marked ones, all reachable
      from `vertex`, and every neighbour of an emitted vertex ends up marked.
      Each emitted vertex after `vertex` follows the depth-first rule with
      respect to `before`, what was emitted before the call. */
  method DepthFirstTraversalHelper(g: Graph, vertex: int, visited: set<int>, ghost before: seq<int>)
    returns (visitedOut: set<int>, order: seq<int>)
    requires WellFormed(g)
    requires 0 <= vertex <= g.vertices && vertex !in visited && visited <= Vertices(g)
    requires forall x :: x in visited <==> x in before
    requires |before| > 0 ==> DepthNext(g, before + [vertex], |before|)
    ensures visited + {vertex} <= visitedOut <= Vertices(g)
    ensures forall x :: x in visitedOut <==> x in visited || x in order
    ensures |order| > 0 && order[0] == vertex && Distinct(order)
    ensures forall x :: x in order ==> x !in visited && Reachable(g, vertex, x)
    ensures forall x :: x in order ==> NeighboursIn(g, x, visitedOut)
    ensures forall k :: |before| <= k < |before + order| && 0 < k ==> DepthNext(g, before + order, k)
    decreases Vertices(g) - visited
  {
    visitedOut := visited + {vertex};
    order := [vertex];
    ReachableSelf(g, vertex);
    var i := 0;
    while i < |g.adj[vertex]|
      invariant DepthLoop(g, vertex, visited, before, i, visitedOut, order)
    {
      var edge := g.adj[vertex][i];
      if edge.vertex !in visitedOut {
        assert vertex in Vertices(g) - visited && vertex !in Vertices(g) - visitedOut;
        assert forall x :: x in visitedOut <==> x in before + order;
        DepthChild(g, before, order, vertex, i, visitedOut);
        var more, sub := DepthFirstTraversalHelper(g, edge.vertex, visitedOut, before + order);
        DepthLoopStep(g, vertex, visited, before, i, visitedOut, order, more, sub);
        order := order + sub;
        visitedOut := more;
      }
      i := i + 1;
    }
  }

  /** `depthFirstTraversal`: starts from an all-false `visited` array. */
  method DepthFirstTraversal(g: Graph, startingVertex: int) returns (order: seq<int>)
    requires WellFormed(g) && 0 <= startingVertex <= g.vertices
    ensures |order| > 0 && order[0] == startingVertex
    ensures Distinct(order)
    ensures forall v :: v in order <==> Reachable(g, startingVertex, v)
    ensures DepthFirstOrder(g, order)
  {
    var visited;
    visited, order := DepthFirstTraversalHelper(g, startingVertex, {}, []);
    assert [] + order == order;
    forall v | Reachable(g, startingVertex, v)
      ensures v in order
    {
      ClosedContainsReachable(g, visited, startingVertex, v);
    }
  }

  /** Every neighbour of `u` is marked. */
  ghost predicate NeighboursMarked(g: Graph, u: int, visited: seq<bool>)
  {
    && 0 <= u < |g.adj|
    && forall j :: 0 <= j < |g.adj[u]| ==>
         0 <= g.adj[u][j].vertex < |visited| && visited[g.adj[u][j].vertex]
  }

  /** The BFS bookkeeping: a vertex is marked exactly when it has been
      enqueued (it is then in `order`, already dequeued, or still in `queue`),
      nothing is enqueued twice, the start was enqueued first, and everything
      enqueued is reachable from the start. */
  ghost predicate BfsState(g: Graph, start: int, visited: seq<bool>, order: seq<int>, queue: seq<int>)
  {
    && WellFormed(g)
    && |visited| == g.vertices + 1
    && (forall x :: 0 <= x <= g.vertices ==> (visited[x] <==> x in order || x in queue))
    && (forall x :: x in order || x in queue ==> 0 <= x <= g.vertices && Reachable(g, start, x))
    && Distinct(order + queue)
    && |order + queue| > 0 && (order + queue)[0] == start
  }

  lemma MarkedGrows(g: Graph, u: int, visited: seq<bool>, visited': seq<bool>)
    requires NeighboursMarked(g, u, visited)
    requires |visited'| == |visited| && forall x :: 0 <= x < |visited| && visited[x] ==> visited'[x]
    ensures NeighboursMarked(g, u, visited')
  {
  }

  /** The vertices appended to `queue` are, in turn, the first vertex of
      `u`'s list that is not seen before it. */
  ghost predicate AppendedInOrder(g: Graph, u: int, order: seq<int>, queue: seq<int>, queueOut: seq<int>)
  {
    && |queueOut| >= |queue| && queueOut[..|queue|] == queue
    && forall m :: |queue| <= m < |queueOut| ==> NextOf(g, u, order + queueOut[..m], queueOut[m])
  }

  /** Enqueueing entry `i` of `u`'s list, when the entries before it are all
      seen and it is not, enqueues the first vertex of the list not seen. */
  lemma EnqueueNext(g: Graph, u: int, i: int, order: seq<int>, queue: seq<int>, queueOut: seq<int>)
    requires 0 <= u < |g.adj| && 0 <= i < |g.adj[u]| && g.adj[u][i].vertex !in order + queueOut
    requires forall j :: 0 <= j < i ==> g.adj[u][j].vertex in order + queueOut
    requires AppendedInOrder(g, u, order, queue, queueOut)
    ensures AppendedInOrder(g, u, order, queue, queueOut + [g.adj[u][i].vertex])
  {
    var q := queueOut + [g.adj[u][i].vertex];
    FirstOutsideAt(g.adj[u], order + queueOut, i);
    assert q[..|queueOut|] == queueOut && q[..|queue|] == queue;
    forall m | |queue| <= m < |queueOut|
      ensures NextOf(g, u, order + q[..m], q[m])
    {
      assert q[..m] == queueOut[..m];
    }
  }

  /** The marking half of the inner loop's invariant once the first `i`
      entries of `u`'s list are handled: each of them is seen, and marks were
      only added, all of them for vertices now in the queue. */
  ghost predicate MarkedUpTo(g: Graph, start: int, u: int, i: int, visited: seq<bool>, queue: seq<int>,
                             order: seq<int>, visitedOut: seq<bool>, queueOut: seq<int>)
  {
    && 0 <= u < |g.adj| && 0 <= i <= |g.adj[u]|
    && BfsState(g, start, visitedOut, order, queueOut)
    && (forall j :: 0 <= j < i ==> g.adj[u][j].vertex in order + queueOut)
    && |visitedOut| == |visited| && (forall x :: 0 <= x < |visited| && visited[x] ==> visitedOut[x])
    && Unvisited(visitedOut) <= Unvisited(visited)
    && (Unvisited(visitedOut) == Unvisited(visited) ==> queueOut == queue)
  }

  /** Marking and enqueueing an unmarked neighbour of a dequeued vertex keeps
      the bookkeeping and marks one more vertex. */
  lemma EnqueueKeeps(g: Graph, start: int, u: int, i: int, visited: seq<bool>, order: seq<int>, queue: seq<int>)
    requires BfsState(g, start, visited, order, queue) && u in order
    requires 0 <= i < |g.adj[u]| && !visited[g.adj[u][i].vertex]
    ensures BfsState(g, start, visited[g.adj[u][i].vertex := true], order, queue + [g.adj[u][i].vertex])
    ensures Unvisited(visited[g.adj[u][i].vertex := true]) < Unvisited(visited)
  {
    var edge := g.adj[u][i];
    var q := queue + [edge.vertex];
    assert edge.vertex !in order + queue;
    ReachableStep(g, start, u, edge);
    assert edge.vertex in Unvisited(visited) && edge.vertex !in Unvisited(visited[edge.vertex := true]);
    assert order + q == (order + queue) + [edge.vertex];
    assert forall x :: x in order || x in q ==> x in order || x in queue || x == edge.vertex;
  }

  /** One iteration of the inner loop keeps the marking invariant. */
  lemma EnqueueStep(g: Graph, start: int, u: int, i: int, visited: seq<bool>, queue: seq<int>,
                    order: seq<int>, visitedOut: seq<bool>, queueOut: seq<int>)
    requires MarkedUpTo(g, start, u, i, visited, queue, order, visitedOut, queueOut)
    requires u in order && i < |g.adj[u]|
    ensures 0 <= g.adj[u][i].vertex < |visitedOut|
    ensures !visitedOut[g.adj[u][i].vertex] ==>
              MarkedUpTo(g, start, u, i + 1, visited, queue, order,
                         visitedOut[g.adj[u][i].vertex := true], queueOut + [g.adj[u][i].vertex])
    ensures visitedOut[g.adj[u][i].vertex] ==>
              MarkedUpTo(g, start, u, i + 1, visited, queue, order, visitedOut, queueOut)
  {
    var x := g.adj[u][i].vertex;
    if !visitedOut[x] {
      EnqueueKeeps(g, start, u, i, visitedOut, order, queueOut);
      var q, v := queueOut + [x], visitedOut[x := true];
      assert order + q == (order + queueOut) + [x];
      forall j | 0 <= j <= i
        ensures g.adj[u][j].vertex in order + q
      {
        if j < i {
          assert g.adj[u][j].vertex in order + queueOut;
        }
      }
      forall y | 0 <= y < |visited| && visited[y]
        ensures v[y]
      {
        assert visitedOut[y];
      }
    }
  }

  /** The inner `for` loop of `breadthFirstTraversal`: every unmarked
      neighbour of the dequeued `vertex` is marked and enqueued, in list order,
      and the list is then exhausted. */
  method EnqueueNeighbours(g: Graph, ghost start: int, vertex: int, visited: seq<bool>,
                           queue: seq<int>, ghost order: seq<int>)
    returns (visitedOut: seq<bool>, queueOut: seq<int>)
    requires BfsState(g, start, visited, order, queue)
    requires vertex in order
    ensures BfsState(g, start, visitedOut, order, queueOut)
    ensures NeighboursMarked(g, vertex, visitedOut)
    ensures |visitedOut| == |visited| && forall x :: 0 <= x < |visited| && visited[x] ==> visitedOut[x]
    ensures Unvisited(visitedOut) <= Unvisited(visited)
    ensures Unvisited(visitedOut) == Unvisited(visited) ==> queueOut == queue
    ensures |queueOut| >= |queue| && queueOut[..|queue|] == queue
    ensures forall m :: |queue| <= m < |queueOut| ==> NextOf(g, vertex, order + queueOut[..m], queueOut[m])
    ensures !Open(g, vertex, order + queueOut)
  {
    visitedOut, queueOut := visited, queue;
    assert queue[..|queue|] == queue;
    for i := 0 to |g.adj[vertex]|
      invariant MarkedUpTo(g, start, vertex, i, visited, queue, order, visitedOut, queueOut)
      invariant AppendedInOrder(g, vertex, order, queue, queueOut)
    {
      EnqueueStep(g, start, vertex, i, visited, queue, order, visitedOut, queueOut);
      var edge := g.adj[vertex][i];
      if !visitedOut[edge.vertex] {
        EnqueueNext(g, vertex, i, order, queue, queueOut);
        visitedOut := visitedOut[edge.vertex := true];
        queueOut := queueOut + [edge.vertex];
      }
    }
    Exhausted(g, vertex, order + queueOut);
  }

  /** Dequeueing the last vertex of `order` and enqueueing its unmarked
      neighbours, each the first vertex of its list not seen yet, keeps the
      breadth-first rule: every vertex dequeued before it has its whole list
      seen already. */
  lemma BreadthExtends(g: Graph, start: int, order: seq<int>, queue: seq<int>, visited: seq<bool>, queueOut: seq<int>)
    requires BreadthFirstOrder(g, order + queue) && BfsState(g, start, visited, order, queue)
    requires |order| > 0 && forall i :: 0 <= i < |order| - 1 ==> NeighboursMarked(g, order[i], visited)
    requires |queueOut| >= |queue| && queueOut[..|queue|] == queue
    requires forall m :: |queue| <= m < |queueOut| ==> NextOf(g, order[|order| - 1], order + queueOut[..m], queueOut[m])
    ensures BreadthFirstOrder(g, order + queueOut)
  {
    var s, t := order + queue, order + queueOut;
    var p := |order| - 1;
    assert t[..|s|] == s;
    forall k | 0 < k < |t|
      ensures BreadthNext(g, t, k)
    {
      if k < |s| {
        NextPrefix(g, s, t, k);
      } else {
        var m := k - |order|;
        assert t[..k] == order + queueOut[..m] && t[k] == queueOut[m] && t[p] == order[p];
        assert Supplies(g, t, p, k);
        forall i | 0 <= i < p
          ensures !Open(g, t[i], t[..k])
        {
          assert t[i] == order[i] && NeighboursMarked(g, order[i], visited);
          forall j | 0 <= j < |g.adj[order[i]]|
            ensures g.adj[order[i]][j].vertex in t[..k]
          {
            var v := g.adj[order[i]][j].vertex;
            assert v in s;
            var n :| 0 <= n < |s| && s[n] == v;
            assert t[..k][n] == v;
          }
          Exhausted(g, order[i], t[..k]);
        }
      }
    }
  }

  /** `breadthFirstTraversal`: a FIFO queue; a vertex is marked when it is
      enqueued, so it is enqueued, and emitted, at most once. */
  method BreadthFirstTraversal(g: Graph, startingVertex: int) returns (order: seq<int>)
    requires WellFormed(g) && 0 <= startingVertex <= g.vertices
    ensures |order| > 0 && order[0] == startingVertex
    ensures Distinct(order)
    ensures forall v :: v in order <==> Reachable(g, startingVertex, v)
    ensures BreadthFirstOrder(g, order)
  {
    var visited := seq(g.vertices + 1, _ => false);
    visited := visited[startingVertex := true];
    var queue := [startingVertex];
    order := [];
    ReachableSelf(g, startingVertex);
    while queue != []
      invariant BfsState(g, startingVertex, visited, order, queue)
      invariant forall k :: 0 <= k < |order| ==> NeighboursMarked(g, order[k], visited)
      invariant BreadthFirstOrder(g, order + queue)
      decreases Unvisited(visited), |queue|
    {
      var vertex := queue[0];
      assert vertex in queue;
      assert order + queue == (order + [vertex]) + queue[1..];
      ghost var order1, queue1 := order, queue;
      queue := queue[1..];
      order := order + [vertex];
      assert forall x :: x in order || x in queue ==> x in order1 || x in queue1;
      ghost var visited1 := visited;
      visited, queue := EnqueueNeighbours(g, startingVertex, vertex, visited, queue, order);
      BreadthExtends(g, startingVertex, order, queue1[1..], visited1, queue);
      forall k | 0 <= k < |order|
        ensures NeighboursMarked(g, order[k], visited)
      {
        if k < |order| - 1 {
          MarkedGrows(g, order[k], visited1, visited);
        }
      }
    }
    assert order + queue == order;
    ghost var S := set x | x in order;
    forall u | u in S
      ensures NeighboursIn(g, u, S)
    {
      var k :| 0 <= k < |order| && order[k] == u;
      assert NeighboursMarked(g, order[k], visited);
    }
    forall v | Reachable(g, startingVertex, v)
      ensures v in order
    {
      ClosedContainsReachable(g, S, startingVertex, v);
    }
  }

  // ---------------------------------------------------------------------------
  // Each rule leaves one choice

  /** Supplying `s[k]` makes the supplier's list open before `k`. */
  lemma SuppliesOpen(g: Graph, s: seq<int>, j: int, k: int)
    requires 0 <= j < k < |s| && Supplies(g, s, j, k)
    ensures Open(g, s[j], s[..k])
  {
  }

  /** Two sequences that agree before `k` and both follow the breadth-first
      rule at `k` agree at `k`. */
  lemma BreadthNextUnique(g: Graph, a: seq<int>, b: seq<int>, k: int)
    requires 0 < k < |a| && k < |b| && a[..k] == b[..k]
    requires BreadthNext(g, a, k) && BreadthNext(g, b, k)
    ensures a[k] == b[k]
  {
    var ja :| 0 <= ja < k && Supplies(g, a, ja, k) && forall i :: 0 <= i < ja ==> !Open(g, a[i], a[..k]);
    var jb :| 0 <= jb < k && Supplies(g, b, jb, k) && forall i :: 0 <= i < jb ==> !Open(g, b[i], b[..k]);
    assert forall i :: 0 <= i < k ==> a[i] == b[i];
    SuppliesOpen(g, a, ja, k);
    SuppliesOpen(g, b, jb, k);
    assert ja == jb;
  }

  /** Two sequences that agree before `k` and both follow the depth-first
      rule at `k` agree at `k`. */
  lemma DepthNextUnique(g: Graph, a: seq<int>, b: seq<int>, k: int)
    requires 0 < k < |a| && k < |b| && a[..k] == b[..k]
    requires DepthNext(g, a, k) && DepthNext(g, b, k)
    ensures a[k] == b[k]
  {
    var ja :| 0 <= ja < k && Supplies(g, a, ja, k) && forall i :: ja < i < k ==> !Open(g, a[i], a[..k]);
    var jb :| 0 <= jb < k && Supplies(g, b, jb, k) && forall i :: jb < i < k ==> !Open(g, b[i], b[..k]);
    assert forall i :: 0 <= i < k ==> a[i] == b[i];
    SuppliesOpen(g, a, ja, k);
    SuppliesOpen(g, b, jb, k);
    assert ja == jb;
  }

  /** A repetition-free sequence continues past any proper prefix with an
      element the prefix lacks. */
  lemma ExtendsOutside(a: seq<int>, b: seq<int>) returns (x: int)
    requires |a| < |b| && a == b[..|a|] && Distinct(b)
    ensures x in b && x !in a
  {
    x := b[|a|];
  }

  /** Two repetition-free sequences over the same vertices, one a prefix of
      the other, are equal. */
  lemma PrefixSameElements(a: seq<int>, b: seq<int>)
    requires |a| <= |b| && a == b[..|a|] && Distinct(b)
    requires forall v :: v in a <==> v in b
    ensures a == b
  {
    if |a| < |b| {
      var x := ExtendsOutside(a, b);
      assert false;
    }
  }

  /** Both rules fix the order of a traversal once its start and its vertex
      set are known: the order is a function of the graph and the start. */
  lemma {:induction false} OrderPrefix(g: Graph, a: seq<int>, b: seq<int>, depth: bool, k: nat)
    requires 0 < k <= |a| && k <= |b| && a[0] == b[0]
    requires depth ==> DepthFirstOrder(g, a) && DepthFirstOrder(g, b)
    requires !depth ==> BreadthFirstOrder(g, a) && BreadthFirstOrder(g, b)
    ensures a[..k] == b[..k]
  {
    if k > 1 {
      OrderPrefix(g, a, b, depth, k - 1);
      if depth {
        DepthNextUnique(g, a, b, k - 1);
      } else {
        BreadthNextUnique(g, a, b, k - 1);
      }
      assert a[..k] == a[..k - 1] + [a[k - 1]];
      assert b[..k] == b[..k - 1] + [b[k - 1]];
    }
  }

  /** Two breadth-first (or two depth-first) orders with the same start,
      without repetitions and over the same vertices, are the same order. */
  lemma OrderUnique(g: Graph, a: seq<int>, b: seq<int>, depth: bool)
    requires |a| > 0 && |b| > 0 && a[0] == b[0] && Distinct(a) && Distinct(b)
    requires forall v :: v in a <==> v in b
    requires depth ==> DepthFirstOrder(g, a) && DepthFirstOrder(g, b)
    requires !depth ==> BreadthFirstOrder(g, a) && BreadthFirstOrder(g, b)
    ensures a == b
  {
    if |a| <= |b| {
      OrderPrefix(g, a, b, depth, |a|);
      PrefixSameElements(a, b);
    } else {
      OrderPrefix(g, b, a, depth, |b|);
      PrefixSameElements(b, a);
    }
  }

  // ---------------------------------------------------------------------------
  // A graph on which the two traversals differ

  /** Edges 1-2, 1-3 and 2-4, added in that order. */
  function Fork(): (g: Graph)
    ensures WellFormed(g)
  {
    Graph(4, [[], [Edge(2, 1), Edge(3, 1)], [Edge(1, 1), Edge(4, 1)], [Edge(1, 1)], [Edge(2, 1)]])
  }

  /** The vertices reachable from 1 in `Fork()` are 1 to 4. */
  lemma ForkReachable(v: int)
    ensures Reachable(Fork(), 1, v) <==> 1 <= v <= 4
  {
    var g := Fork();
    var S := {1, 2, 3, 4};
    ReachableSelf(g, 1);
    ReachableStep(g, 1, 1, Edge(2, 1));
    ReachableStep(g, 1, 1, Edge(3, 1));
    ReachableStep(g, 1, 2, Edge(4, 1));
    forall u | u in S
      ensures NeighboursIn(g, u, S)
    {
    }
    if Reachable(g, 1, v) {
      ClosedContainsReachable(g, S, 1, v);
    }
  }

  /** From vertex 1 of `Fork()`, depth-first goes down 1-2-4 before 3. */
  lemma ForkDepth()
    ensures DepthFirstOrder(Fork(), [1, 2, 4, 3])
  {
    var g, d := Fork(), [1, 2, 4, 3];
    assert d[..1] == [1] && FirstOutside(g.adj[1], [1]) == 0;
    assert Supplies(g, d, 0, 1);
    assert d[..2] == [1, 2] && FirstOutside(g.adj[2], [1, 2]) == 1;
    assert Supplies(g, d, 1, 2);
    assert d[..3] == [1, 2, 4] && FirstOutside(g.adj[1], [1, 2, 4]) == 1;
    assert FirstOutside(g.adj[2], [1, 2, 4]) == 2 && FirstOutside(g.adj[4], [1, 2, 4]) == 1;
    assert Supplies(g, d, 0, 3) && !Open(g, d[1], d[..3]) && !Open(g, d[2], d[..3]);
  }

  /** From vertex 1 of `Fork()`, breadth-first takes both neighbours of 1
      before 4. */
  lemma ForkBreadth()
    ensures BreadthFirstOrder(Fork(), [1, 2, 3, 4])
  {
    var g, b := Fork(), [1, 2, 3, 4];
    assert b[..1] == [1] && FirstOutside(g.adj[1], [1]) == 0;
    assert Supplies(g, b, 0, 1);
    assert b[..2] == [1, 2] && FirstOutside(g.adj[1], [1, 2]) == 1;
    assert Supplies(g, b, 0, 2);
    assert b[..3] == [1, 2, 3] && FirstOutside(g.adj[1], [1, 2, 3]) == 2;
    assert FirstOutside(g.adj[2], [1, 2, 3]) == 1;
    assert Supplies(g, b, 1, 3) && !Open(g, b[0], b[..3]);
  }

  /** What the contracts of the two traversals leave for `Fork()` from 1:
      exactly the sequences the source prints. */
  lemma ForkScenario(dfs: seq<int>, bfs: seq<int>)
    requires |dfs| > 0 && dfs[0] == 1 && Distinct(dfs) && DepthFirstOrder(Fork(), dfs)
    requires forall v :: v in dfs <==> Reachable(Fork(), 1, v)
    requires |bfs| > 0 && bfs[0] == 1 && Distinct(bfs) && BreadthFirstOrder(Fork(), bfs)
    requires forall v :: v in bfs <==> Reachable(Fork(), 1, v)
    ensures dfs == [1, 2, 4, 3] && bfs == [1, 2, 3, 4]
  {
    ForkDepth();
    ForkBreadth();
    forall v
      ensures v in dfs <==> v in [1, 2, 4, 3]
      ensures v in bfs <==> v in [1, 2, 3, 4]
    {
      ForkReachable(v);
    }
    OrderUnique(Fork(), dfs, [1, 2, 4, 3], true);
    OrderUnique(Fork(), bfs, [1, 2, 3, 4], false);
  }
}
