/** Dijkstra's algorithm of CA/GraphLists.java (`dijkstra`): the same
    lazy-deletion priority queue as Prim, with `visited` and `distances`
    arrays. The model returns the whole `distances` array; the source prints
    its entries 1..vertices. */
module GraphDijkstra {
  import opened GraphLists
  import opened PriorityFrontier

  /** The local state of `dijkstra`. */
  datatype DijkstraState = DijkstraState(visited: seq<bool>, dist: seq<Ext>, queue: multiset<Edge>)

  // ---------------------------------------------------------------------------
  // The characterisation of the result

  /** Every entry of `u`'s list, if `u` has a finite distance, leads to a
      vertex whose distance is at most `dist[u]` plus the entry's weight. */
  ghost predicate RelaxedAt(g: Graph, dist: seq<Ext>, u: int)
  {
    && 0 <= u < |g.adj| && u < |dist|
    && (dist[u].Fin? ==>
          forall j :: 0 <= j < |g.adj[u]| ==>
            && 0 <= g.adj[u][j].vertex < |dist|
            && AtMost(dist[g.adj[u][j].vertex], Fin(dist[u].n + g.adj[u][j].weight)))
  }

  /** A distance table with no edge left to relax. */
  ghost predicate Relaxation(g: Graph, dist: seq<Ext>)
  {
    forall u :: 0 <= u < |g.adj| ==> RelaxedAt(g, dist, u)
  }

  /** In a table with no edge left to relax and the start at 0, every vertex
      at the end of a walk from the start has a distance no larger than the
      walk's weight. */
  lemma {:induction false} RelaxedBoundsWalks(g: Graph, dist: seq<Ext>, start: int, p: seq<int>, ws: seq<int>)
    requires WellFormed(g) && |dist| == |g.adj| && Relaxation(g, dist)
    requires 0 <= start < |dist| && dist[start] == Fin(0)
    requires IsWalk(g, p, ws) && p[0] == start
    ensures 0 <= p[|p| - 1] < |dist| && AtMost(dist[p[|p| - 1]], Fin(Sum(ws)))
    decreases |ws|
  {
    if ws != [] {
      var n := |ws|;
      var p', ws' := p[..n], ws[..n - 1];
      assert IsWalk(g, p', ws');
      RelaxedBoundsWalks(g, dist, start, p', ws');
      var u := p[n - 1];
      assert Edge(p[n], ws[n - 1]) in g.adj[u];
      var j :| 0 <= j < |g.adj[u]| && g.adj[u][j] == Edge(p[n], ws[n - 1]);
      assert RelaxedAt(g, dist, u);
    }
  }

  // ---------------------------------------------------------------------------
  // The loop invariant, in parts

  ghost predicate DijkstraSized(g: Graph, st: DijkstraState)
  {
    && WellFormed(g) && |st.visited| == |g.adj| && |st.dist| == |g.adj|
  }

  ghost predicate DijkstraShape(g: Graph, start: int, st: DijkstraState)
  {
    && DijkstraSized(g, st) && NonNegativeWeights(g) && 0 <= start <= g.vertices
  }

  /** A finite distance is the weight of some walk from the start; a visited
      vertex has a finite distance no larger than any queue entry. */
  ghost predicate DistOk(g: Graph, start: int, st: DijkstraState, v: int)
    requires DijkstraSized(g, st)
  {
    && 0 <= v < |st.dist|
    && (st.dist[v].Fin? ==> HasWalk(g, start, v, st.dist[v].n))
    && (st.visited[v] ==> st.dist[v].Fin? && forall e :: e in st.queue ==> st.dist[v].n <= e.weight)
  }

  /** Queue entries name vertices with a finite distance never above the
      entry; an unvisited vertex with a finite distance has an entry carrying
      exactly that distance. */
  ghost predicate DijkstraQueueSound(st: DijkstraState)
  {
    && (forall e :: e in st.queue ==>
          0 <= e.vertex < |st.dist| && st.dist[e.vertex].Fin? && st.dist[e.vertex].n <= e.weight)
    && Covers(st.dist, st.visited, st.queue)
  }

  /** The first `upto` entries of `u`'s list are relaxed. */
  ghost predicate RelaxedUpTo(g: Graph, st: DijkstraState, u: int, upto: int)
  {
    && 0 <= u < |g.adj| && u < |st.dist| && 0 <= upto <= |g.adj[u]| && st.dist[u].Fin?
    && forall j :: 0 <= j < upto ==>
         && 0 <= g.adj[u][j].vertex < |st.dist|
         && AtMost(st.dist[g.adj[u][j].vertex], Fin(st.dist[u].n + g.adj[u][j].weight))
  }

  /** A visited vertex has all of its list relaxed. */
  ghost predicate DijkstraSettled(g: Graph, st: DijkstraState, u: int)
  {
    0 <= u < |g.adj| && u < |st.visited| && (st.visited[u] ==> RelaxedUpTo(g, st, u, |g.adj[u]|))
  }

  /** A visited `x` is no farther than `u`. */
  ghost predicate NotAfter(st: DijkstraState, x: int, u: int)
  {
    && 0 <= x < |st.visited| && x < |st.dist| && 0 <= u < |st.dist|
    && (st.visited[x] ==> st.dist[x].Fin? && st.dist[u].Fin? && st.dist[x].n <= st.dist[u].n)
  }

  ghost predicate DijkstraInv(g: Graph, start: int, st: DijkstraState)
  {
    && DijkstraShape(g, start, st)
    && st.dist[start] == Fin(0)
    && (forall v :: 0 <= v < |st.dist| ==> DistOk(g, start, st, v))
    && DijkstraQueueSound(st)
    && (forall u :: 0 <= u < |st.visited| ==> DijkstraSettled(g, st, u))
    && (!st.visited[start] ==> Marked(st.visited) == {} && st.queue == multiset{Edge(start, 0)})
  }

  /** The invariant while the list of the just-visited `u` is relaxed: the
      first `done` entries are handled, and no visited vertex is farther
      than `u`. */
  ghost predicate DijkstraPending(g: Graph, start: int, st: DijkstraState, u: int, done: int)
  {
    && DijkstraShape(g, start, st)
    && st.dist[start] == Fin(0)
    && (forall v :: 0 <= v < |st.dist| ==> DistOk(g, start, st, v))
    && DijkstraQueueSound(st)
    && 0 <= u < |g.adj| && st.visited[u] && st.visited[start]
    && RelaxedUpTo(g, st, u, done)
    && (forall x :: 0 <= x < |st.visited| && x != u ==> DijkstraSettled(g, st, x))
    && (forall x :: 0 <= x < |st.visited| ==> NotAfter(st, x, u))
  }

  // ---------------------------------------------------------------------------
  // Operations

  /** The arrays as `dijkstra` sets them up, and the queue holding `(start, 0)`. */
  function Init(g: Graph, start: int): (st: DijkstraState)
    requires WellFormed(g) && NonNegativeWeights(g) && 0 <= start <= g.vertices
    ensures DijkstraInv(g, start, st)
    ensures Marked(st.visited) == {} && st.queue == multiset{Edge(start, 0)}
    ensures st.dist[start] == Fin(0) && forall v :: 0 <= v < |st.dist| && v != start ==> st.dist[v] == Inf
  {
    var n := g.vertices + 1;
    var st := DijkstraState(seq(n, _ => false), seq(n, _ => Inf)[start := Fin(0)], multiset{Edge(start, 0)});
    ReachableSelf(g, start);
    assert Marked(st.visited) == {};
    assert forall v :: 0 <= v < |st.dist| ==> DistOk(g, start, st, v);
    st
  }

  /** One iteration of the inner loop: the entry `edge` of `u`'s list lowers
      the distance of its unvisited target when `dist[u]` plus its weight is
      below that distance, and the new distance is queued. */
  function Relax(u: int, st: DijkstraState, edge: Edge): (r: DijkstraState)
    requires 0 <= u < |st.dist| && st.dist[u].Fin?
    requires 0 <= edge.vertex < |st.visited| && |st.dist| == |st.visited|
    ensures |r.visited| == |st.visited| && |r.dist| == |st.dist|
  {
    var newDistance := st.dist[u].n + edge.weight;
    if !st.visited[edge.vertex] && Below(Fin(newDistance), st.dist[edge.vertex]) then
      st.(dist := st.dist[edge.vertex := Fin(newDistance)],
          queue := st.queue + multiset{Edge(edge.vertex, newDistance)})
    else
      st
  }

  /** The inner loop from position `i` of the visited `u`'s list on.
      Distances only decrease, and visited vertices keep theirs. */
  function RelaxFrom(g: Graph, u: int, st: DijkstraState, i: nat): (r: DijkstraState)
    requires DijkstraSized(g, st) && 0 <= u < |g.adj| && st.visited[u] && st.dist[u].Fin? && i <= |g.adj[u]|
    ensures DijkstraSized(g, r)
    ensures r.visited == st.visited && st.queue <= r.queue
    ensures forall v :: 0 <= v < |st.dist| ==> AtMost(r.dist[v], st.dist[v])
    ensures forall v :: 0 <= v < |st.dist| && st.visited[v] ==> r.dist[v] == st.dist[v]
    decreases |g.adj[u]| - i
  {
    if i == |g.adj[u]| then st
    else RelaxFrom(g, u, Relax(u, st, g.adj[u][i]), i + 1)
  }

  /** One iteration of the outer loop with the polled entry `e`: a stale
      entry (its vertex already visited) is dropped and nothing else changes;
      otherwise its vertex is marked and its list relaxed. */
  function Step(g: Graph, st: DijkstraState, e: Edge): (r: DijkstraState)
    requires DijkstraSized(g, st) && e in st.queue && 0 <= e.vertex < |g.adj| && st.dist[e.vertex].Fin?
    ensures DijkstraSized(g, r)
    ensures forall v :: 0 <= v < |st.dist| ==> AtMost(r.dist[v], st.dist[v])
    ensures st.visited[e.vertex] ==> r == st.(queue := st.queue - multiset{e})
    ensures !st.visited[e.vertex] ==> r.visited == st.visited[e.vertex := true]
    ensures || Unvisited(r.visited) < Unvisited(st.visited)
            || (Unvisited(r.visited) == Unvisited(st.visited) && |r.queue| < |st.queue|)
  {
    var rest := st.queue - multiset{e};
    if st.visited[e.vertex] then st.(queue := rest)
    else
      var r := RelaxFrom(g, e.vertex, st.(visited := st.visited[e.vertex := true], queue := rest), 0);
      assert e.vertex in Unvisited(st.visited) && e.vertex !in Unvisited(r.visited);
      r
  }

  // ---------------------------------------------------------------------------
  // Preservation of the invariant

  /** Relaxing an entry that lowers its target's distance. */
  lemma RelaxLowers(g: Graph, start: int, st: DijkstraState, u: int, i: int)
    requires DijkstraPending(g, start, st, u, i) && 0 <= i < |g.adj[u]|
    requires Relax(u, st, g.adj[u][i]) != st
    ensures DijkstraPending(g, start, Relax(u, st, g.adj[u][i]), u, i + 1)
  {
    var r := Relax(u, st, g.adj[u][i]);
    RelaxLowersDist(g, start, st, u, i);
    RelaxLowersQueue(g, start, st, u, i);
    forall x | 0 <= x < |r.visited| && x != u
      ensures DijkstraSettled(g, r, x)
    {
      assert DijkstraSettled(g, st, x);
    }
  }

  lemma RelaxLowersDist(g: Graph, start: int, st: DijkstraState, u: int, i: int)
    requires DijkstraPending(g, start, st, u, i) && 0 <= i < |g.adj[u]|
    requires Relax(u, st, g.adj[u][i]) != st
    ensures forall x :: 0 <= x < |st.dist| ==>
              DistOk(g, start, Relax(u, st, g.adj[u][i]), x) && NotAfter(Relax(u, st, g.adj[u][i]), x, u)
    ensures RelaxedUpTo(g, Relax(u, st, g.adj[u][i]), u, i + 1)
  {
    var edge := g.adj[u][i];
    var r := Relax(u, st, edge);
    assert DistOk(g, start, st, u);
    assert edge.weight >= 0;
    assert edge in g.adj[u];
    HasWalkStep(g, start, u, st.dist[u].n, edge);
    forall x | 0 <= x < |r.dist|
      ensures DistOk(g, start, r, x) && NotAfter(r, x, u)
    {
      assert DistOk(g, start, st, x) && NotAfter(st, x, u);
    }
  }

  lemma RelaxLowersQueue(g: Graph, start: int, st: DijkstraState, u: int, i: int)
    requires DijkstraPending(g, start, st, u, i) && 0 <= i < |g.adj[u]|
    requires Relax(u, st, g.adj[u][i]) != st
    ensures DijkstraQueueSound(Relax(u, st, g.adj[u][i]))
  {
    var edge := g.adj[u][i];
    var r := Relax(u, st, edge);
    var nd := st.dist[u].n + edge.weight;
    forall f | f in r.queue
      ensures 0 <= f.vertex < |r.dist| && r.dist[f.vertex].Fin? && r.dist[f.vertex].n <= f.weight
    {
      if f != Edge(edge.vertex, nd) {
        assert f in st.queue;
      }
    }
  }

  lemma RelaxPending(g: Graph, start: int, st: DijkstraState, u: int, i: int)
    requires DijkstraPending(g, start, st, u, i) && 0 <= i < |g.adj[u]|
    ensures DijkstraPending(g, start, Relax(u, st, g.adj[u][i]), u, i + 1)
  {
    if Relax(u, st, g.adj[u][i]) != st {
      RelaxLowers(g, start, st, u, i);
    } else {
      assert DistOk(g, start, st, u);
      assert g.adj[u][i].weight >= 0;
      assert NotAfter(st, g.adj[u][i].vertex, u);
    }
  }

  lemma {:induction false} RelaxFromPending(g: Graph, start: int, st: DijkstraState, u: int, i: nat)
    requires DijkstraPending(g, start, st, u, i)
    ensures DijkstraPending(g, start, RelaxFrom(g, u, st, i), u, |g.adj[u]|)
    decreases |g.adj[u]| - i
  {
    assert DistOk(g, start, st, u);
    if i < |g.adj[u]| {
      RelaxPending(g, start, st, u, i);
      RelaxFromPending(g, start, Relax(u, st, g.adj[u][i]), u, i + 1);
    }
  }

  /** Dropping the polled entry keeps an entry for every unvisited vertex
      with a finite distance, since the dropped one belongs to a vertex that
      is now visited. */
  lemma DijkstraDropKeepsQueue(st: DijkstraState, e: Edge, visited: seq<bool>)
    requires DijkstraQueueSound(st) && e in st.queue
    requires |visited| == |st.visited| && 0 <= e.vertex < |visited| && visited[e.vertex]
    requires forall v :: 0 <= v < |visited| && !visited[v] ==> !st.visited[v]
    ensures DijkstraQueueSound(st.(visited := visited, queue := st.queue - multiset{e}))
  {
    DropKeepsCover(st.dist, st.visited, visited, st.queue, e);
  }

  /** The polled vertex is no farther than any remaining entry, so the
      distance facts survive its marking. */
  lemma MarkDist(g: Graph, start: int, st: DijkstraState, e: Edge, m: DijkstraState)
    requires DijkstraShape(g, start, st) && DijkstraQueueSound(st) && IsMin(st.queue, e)
    requires forall v :: 0 <= v < |st.dist| ==> DistOk(g, start, st, v)
    requires 0 <= e.vertex < |st.visited| && !st.visited[e.vertex]
    requires m == st.(visited := st.visited[e.vertex := true], queue := st.queue - multiset{e})
    ensures forall x :: 0 <= x < |m.dist| ==> DistOk(g, start, m, x) && NotAfter(m, x, e.vertex)
  {
    var u := e.vertex;
    assert Edge(u, st.dist[u].n) in st.queue;
    forall x | 0 <= x < |m.dist|
      ensures DistOk(g, start, m, x) && NotAfter(m, x, u)
    {
      assert DistOk(g, start, st, x);
      if x == u {
        forall f | f in m.queue
          ensures m.dist[u].n <= f.weight
        {
          assert f in st.queue && CompareTo(e, f) <= 0;
        }
      }
    }
  }

  lemma DijkstraMarkSettled(g: Graph, st: DijkstraState, m: DijkstraState, u: int)
    requires forall x :: 0 <= x < |st.visited| ==> DijkstraSettled(g, st, x)
    requires 0 <= u < |st.visited| && m.visited == st.visited[u := true] && m.dist == st.dist
    ensures forall x :: 0 <= x < |m.visited| && x != u ==> DijkstraSettled(g, m, x)
  {
    forall x | 0 <= x < |m.visited| && x != u
      ensures DijkstraSettled(g, m, x)
    {
      assert DijkstraSettled(g, st, x);
    }
  }

  /** Marking the vertex of a minimum entry starts the relaxation phase: its
      distance is no larger than any remaining entry, and no visited vertex
      is farther than it. */
  lemma MarkPending(g: Graph, start: int, st: DijkstraState, e: Edge)
    requires DijkstraInv(g, start, st) && IsMin(st.queue, e) && !st.visited[e.vertex]
    ensures DijkstraPending(g, start, st.(visited := st.visited[e.vertex := true], queue := st.queue - multiset{e}),
                    e.vertex, 0)
  {
    var u := e.vertex;
    var m := st.(visited := st.visited[u := true], queue := st.queue - multiset{e});
    if !st.visited[start] {
      assert e in multiset{Edge(start, 0)};
    }
    DijkstraDropKeepsQueue(st, e, m.visited);
    MarkDist(g, start, st, e, m);
    DijkstraMarkSettled(g, st, m, u);
  }

  /** Dropping an entry whose vertex is already visited keeps the invariant. */
  lemma DropStale(g: Graph, start: int, st: DijkstraState, e: Edge)
    requires DijkstraInv(g, start, st) && e in st.queue && 0 <= e.vertex < |st.visited| && st.visited[e.vertex]
    ensures DijkstraInv(g, start, st.(queue := st.queue - multiset{e}))
  {
    DijkstraDropKeepsQueue(st, e, st.visited);
    var r := st.(queue := st.queue - multiset{e});
    forall v | 0 <= v < |r.dist|
      ensures DistOk(g, start, r, v) && DijkstraSettled(g, r, v)
    {
      assert DistOk(g, start, st, v) && DijkstraSettled(g, st, v);
    }
  }

  lemma StepPreserves(g: Graph, start: int, st: DijkstraState, e: Edge)
    requires DijkstraInv(g, start, st) && IsMin(st.queue, e)
    ensures 0 <= e.vertex < |g.adj| && st.dist[e.vertex].Fin?
    ensures DijkstraInv(g, start, Step(g, st, e))
  {
    var rest := st.queue - multiset{e};
    var u := e.vertex;
    if st.visited[u] {
      DropStale(g, start, st, e);
    } else {
      MarkPending(g, start, st, e);
      var marked := st.(visited := st.visited[u := true], queue := rest);
      RelaxFromPending(g, start, marked, u, 0);
      var r := RelaxFrom(g, u, marked, 0);
      assert r == Step(g, st, e);
      forall x | 0 <= x < |r.visited|
        ensures DijkstraSettled(g, r, x)
      {
      }
    }
  }

  // ---------------------------------------------------------------------------
  // The result

  lemma HasWalkReachable(g: Graph, s: int, t: int, d: int)
    requires HasWalk(g, s, t, d)
    ensures Reachable(g, s, t)
  {
    var p, ws :| IsWalk(g, p, ws) && p[0] == s && p[|p| - 1] == t && Sum(ws) == d;
  }

  /** With the queue empty, exactly the vertices reachable from the start
      have a finite distance, each is the weight of a walk, and no edge is
      left to relax. */
  lemma DijkstraDone(g: Graph, start: int, st: DijkstraState)
    requires DijkstraInv(g, start, st) && st.queue == multiset{}
    ensures forall v :: 0 <= v < |st.dist| ==> (st.dist[v].Fin? <==> Reachable(g, start, v))
    ensures forall v :: 0 <= v < |st.dist| && st.dist[v].Fin? ==> HasWalk(g, start, v, st.dist[v].n)
    ensures Relaxation(g, st.dist)
  {
    assert st.visited[start];
    var S := Marked(st.visited);
    forall v | 0 <= v < |st.dist|
      ensures st.visited[v] <==> st.dist[v].Fin?
    {
      assert DistOk(g, start, st, v);
    }
    forall u | u in S
      ensures NeighboursIn(g, u, S)
    {
      assert DijkstraSettled(g, st, u);
    }
    forall v | 0 <= v < |st.dist|
      ensures st.dist[v].Fin? <==> Reachable(g, start, v)
      ensures st.dist[v].Fin? ==> HasWalk(g, start, v, st.dist[v].n)
    {
      assert DistOk(g, start, st, v);
      if Reachable(g, start, v) {
        ClosedContainsReachable(g, S, start, v);
      }
      if st.dist[v].Fin? {
        HasWalkReachable(g, start, v, st.dist[v].n);
      }
    }
    forall u | 0 <= u < |g.adj|
      ensures RelaxedAt(g, st.dist, u)
    {
      assert DijkstraSettled(g, st, u);
    }
  }

  /** `dijkstra`: polls a minimum entry until the queue is empty. On graphs
      with non-negative weights, a vertex has a finite distance exactly when
      it is reachable from the start, and that distance is the weight of some
      walk from the start and no larger than the weight of any such walk. */
  method Dijkstra(g: Graph, startingVertex: int) returns (distances: seq<Ext>)
    requires WellFormed(g) && NonNegativeWeights(g) && 0 <= startingVertex <= g.vertices
    ensures |distances| == g.vertices + 1 && distances[startingVertex] == Fin(0)
    ensures forall v :: 0 <= v <= g.vertices ==> (distances[v].Fin? <==> Reachable(g, startingVertex, v))
    ensures forall v :: 0 <= v <= g.vertices && distances[v].Fin? ==>
              HasWalk(g, startingVertex, v, distances[v].n)
    ensures forall v, d :: 0 <= v <= g.vertices && HasWalk(g, startingVertex, v, d) ==>
              distances[v].Fin? && distances[v].n <= d
    ensures Relaxation(g, distances)
  {
    var st := Init(g, startingVertex);
    while st.queue != multiset{}
      invariant DijkstraInv(g, startingVertex, st)
      decreases Unvisited(st.visited), |st.queue|
    {
      var e, rest := Poll(st.queue);
      StepPreserves(g, startingVertex, st, e);
      st := Step(g, st, e);
    }
    DijkstraDone(g, startingVertex, st);
    distances := st.dist;
    forall v, d | 0 <= v <= g.vertices && HasWalk(g, startingVertex, v, d)
      ensures distances[v].Fin? && distances[v].n <= d
    {
      var p, ws :| IsWalk(g, p, ws) && p[0] == startingVertex && p[|p| - 1] == v && Sum(ws) == d;
      RelaxedBoundsWalks(g, distances, startingVertex, p, ws);
    }
  }
}
