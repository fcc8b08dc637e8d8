/** Prim's algorithm of CA/GraphLists.java (`prim`): a lazy-deletion priority
    queue of (vertex, key) entries, and `visited`, `key`, `parent` arrays.
    The model returns the edges the source prints, in printing order. */
module GraphPrim {
  import opened GraphLists
  import PriorityFrontier

  /** One printed line `parent - child    weight`. */
  datatype MstEdge = MstEdge(parent: int, child: int, weight: int)

  /** The local state of `prim`. `parent` uses 0 for "no parent", as the source. */
  datatype PrimState = PrimState(visited: seq<bool>, parent: seq<int>, key: seq<Ext>,
                                 queue: multiset<Edge>, mst: seq<MstEdge>)

  ghost function Children(mst: seq<MstEdge>): set<int>
  {
    set k | 0 <= k < |mst| :: mst[k].child
  }

  // ---------------------------------------------------------------------------
  // The loop invariant, in parts

  ghost predicate PrimSized(g: Graph, st: PrimState)
  {
    && WellFormed(g)
    && |st.visited| == |g.adj| && |st.parent| == |g.adj| && |st.key| == |g.adj|
  }

  ghost predicate PrimShape(g: Graph, start: int, st: PrimState)
  {
    && PrimSized(g, st) && NoZeroVertex(g) && 1 <= start <= g.vertices
  }

  /** What the invariant says about vertex `v`: a finite key other than the
      start's is the weight of an entry `(v, key[v])` in the list of
      `parent[v]`, a visited vertex; a finite key belongs to a vertex reachable
      from the start; a visited vertex has a finite key. */
  ghost predicate KeyOk(g: Graph, start: int, st: PrimState, v: int)
    requires PrimSized(g, st)
  {
    && 0 <= v < |st.key|
    && (v != start && st.key[v].Fin? ==>
          && 1 <= st.parent[v] < |st.key|
          && st.visited[st.parent[v]]
          && Edge(v, st.key[v].n) in g.adj[st.parent[v]])
    && (st.key[v].Fin? ==> Reachable(g, start, v))
    && (st.visited[v] ==> st.key[v].Fin?)
  }

  ghost predicate KeysSound(g: Graph, start: int, st: PrimState)
    requires PrimShape(g, start, st)
  {
    && st.key[start] == Fin(0) && st.parent[start] == 0
    && forall v :: 0 <= v < |st.key| ==> KeyOk(g, start, st, v)
  }

  /** Queue entries name keyed vertices and are never below their key; an
      unvisited keyed vertex has an entry carrying exactly its key. */
  ghost predicate PrimQueueSound(st: PrimState)
  {
    && (forall e :: e in st.queue ==>
          1 <= e.vertex < |st.key| && st.key[e.vertex].Fin? && st.key[e.vertex].n <= e.weight)
    && PriorityFrontier.Covers(st.key, st.visited, st.queue)
  }

  /** The first `upto` entries of `u`'s list are relaxed: each names a
      visited vertex or one whose key is at most the entry's weight. */
  ghost predicate Frontier(g: Graph, st: PrimState, u: int, upto: int)
  {
    && 0 <= u < |g.adj| && 0 <= upto <= |g.adj[u]|
    && forall j :: 0 <= j < upto ==>
         && 0 <= g.adj[u][j].vertex < |st.key| && g.adj[u][j].vertex < |st.visited|
         && (st.visited[g.adj[u][j].vertex] || AtMost(st.key[g.adj[u][j].vertex], Fin(g.adj[u][j].weight)))
  }

  /** A visited vertex has all of its list relaxed. */
  ghost predicate PrimSettled(g: Graph, st: PrimState, u: int)
  {
    0 <= u < |g.adj| && u < |st.visited| && (st.visited[u] ==> Frontier(g, st, u, |g.adj[u]|))
  }

  /** Recorded edges: one per visited vertex other than the start (and other
      than `pending`, visited but not recorded yet), carrying that vertex's
      parent and key; each edge hangs from the start or from an earlier child. */
  ghost predicate TreeSound(g: Graph, start: int, st: PrimState, pending: int)
    requires PrimShape(g, start, st)
  {
    && (forall k :: 0 <= k < |st.mst| ==>
          && 0 <= st.mst[k].child < |st.key|
          && st.mst[k].child != start
          && st.visited[st.mst[k].child]
          && st.key[st.mst[k].child].Fin?
          && st.mst[k] == MstEdge(st.parent[st.mst[k].child], st.mst[k].child, st.key[st.mst[k].child].n))
    && (forall i, j :: 0 <= i < j < |st.mst| ==> st.mst[i].child != st.mst[j].child)
    && (forall v :: 0 <= v < |st.visited| && st.visited[v] && v != start && v != pending ==>
          v in Children(st.mst))
    && pending !in Children(st.mst)
    && (forall k :: 0 <= k < |st.mst| ==>
          st.mst[k].parent == start || st.mst[k].parent in Children(st.mst[..k]))
  }

  /** The tree built before `mst[k]` is the start and the children of
      `mst[..k]`. `mst[k]` is a lightest edge leaving it: no entry in the list
      of a tree vertex that names a vertex outside the tree is lighter. */
  ghost predicate LightestOut(g: Graph, start: int, mst: seq<MstEdge>, k: int)
    requires 0 <= k < |mst|
  {
    forall x, j :: && (x == start || x in Children(mst[..k])) && 0 <= x < |g.adj| && 0 <= j < |g.adj[x]|
                   && g.adj[x][j].vertex != start && g.adj[x][j].vertex !in Children(mst[..k])
                   ==> mst[k].weight <= g.adj[x][j].weight
  }

  /** Every recorded edge was a lightest edge leaving the tree of its time. */
  ghost predicate LightEdges(g: Graph, start: int, mst: seq<MstEdge>)
  {
    forall k :: 0 <= k < |mst| ==> LightestOut(g, start, mst, k)
  }

  ghost predicate PrimInv(g: Graph, start: int, st: PrimState)
  {
    && LightEdges(g, start, st.mst)
    && PrimShape(g, start, st)
    && KeysSound(g, start, st)
    && PrimQueueSound(st)
    && TreeSound(g, start, st, -1)
    && (forall u :: 0 <= u < |st.visited| ==> PrimSettled(g, st, u))
    && (!st.visited[start] ==>
          Marked(st.visited) == {} && st.queue == multiset{Edge(start, 0)} && st.mst == [])
  }

  /** The invariant while the neighbours of the just-visited `u` are relaxed:
      the first `done` of them are handled and `u` is not recorded yet. */
  ghost predicate PrimPending(g: Graph, start: int, st: PrimState, u: int, done: int)
  {
    && PrimShape(g, start, st)
    && KeysSound(g, start, st)
    && PrimQueueSound(st)
    && TreeSound(g, start, st, u)
    && 1 <= u < |g.adj| && st.visited[u] && st.visited[start]
    && Frontier(g, st, u, done)
    && (forall x :: 0 <= x < |st.visited| && x != u ==> PrimSettled(g, st, x))
    && (u != start ==> st.parent[u] == start || st.parent[u] in Children(st.mst))
  }

  // ---------------------------------------------------------------------------
  // Operations

  /** The arrays as `prim` sets them up, and the queue holding `(start, 0)`. */
  function Init(g: Graph, start: int): (st: PrimState)
    requires WellFormed(g) && NoZeroVertex(g) && 1 <= start <= g.vertices
    ensures PrimInv(g, start, st) && FirstOffers(g, start, st)
    ensures Marked(st.visited) == {} && st.queue == multiset{Edge(start, 0)} && st.mst == []
    ensures st.key[start] == Fin(0) && forall v :: 0 <= v < |st.key| && v != start ==> st.key[v] == Inf
    ensures forall v :: 0 <= v < |st.parent| ==> st.parent[v] == 0
  {
    var n := g.vertices + 1;
    var st := PrimState(seq(n, _ => false), seq(n, _ => 0), seq(n, _ => Inf)[start := Fin(0)],
                        multiset{Edge(start, 0)}, []);
    ReachableSelf(g, start);
    assert Marked(st.visited) == {};
    assert forall v :: 0 <= v < |st.key| ==> KeyOk(g, start, st, v);
    st
  }

  /** One iteration of the inner loop: the entry `edge` of `u`'s list lowers
      the key of its unvisited target when its weight is below that key. */
  function RelaxOne(u: int, st: PrimState, edge: Edge): (r: PrimState)
    requires 0 <= edge.vertex < |st.visited| && |st.key| == |st.visited| && |st.parent| == |st.visited|
    ensures |r.visited| == |st.visited| && |r.parent| == |st.parent| && |r.key| == |st.key|
  {
    if !st.visited[edge.vertex] && Below(Fin(edge.weight), st.key[edge.vertex]) then
      st.(parent := st.parent[edge.vertex := u],
          key := st.key[edge.vertex := Fin(edge.weight)],
          queue := st.queue + multiset{edge})
    else
      st
  }

  /** The inner loop from position `i` of `u`'s list on. Keys only decrease,
      and visited vertices keep their key and parent. */
  function RelaxFrom(g: Graph, u: int, st: PrimState, i: nat): (r: PrimState)
    requires PrimSized(g, st) && 0 <= u < |g.adj| && i <= |g.adj[u]|
    ensures PrimSized(g, r)
    ensures r.visited == st.visited && r.mst == st.mst && st.queue <= r.queue
    ensures forall v :: 0 <= v < |st.key| ==> AtMost(r.key[v], st.key[v])
    ensures forall v :: 0 <= v < |st.key| && st.visited[v] ==>
              r.key[v] == st.key[v] && r.parent[v] == st.parent[v]
    decreases |g.adj[u]| - i
  {
    if i == |g.adj[u]| then st
    else RelaxFrom(g, u, RelaxOne(u, st, g.adj[u][i]), i + 1)
  }

  /** Marks `u` visited, relaxes its neighbours, and records the edge
      `(parent[u], u, key[u])` unless `u` has no parent. */
  function Finalise(g: Graph, st: PrimState, u: int): (r: PrimState)
    requires PrimSized(g, st) && 0 <= u < |g.adj| && st.key[u].Fin?
    ensures PrimSized(g, r) && r.visited == st.visited[u := true] && st.queue <= r.queue
    ensures forall v :: 0 <= v < |st.key| ==> AtMost(r.key[v], st.key[v])
    ensures r.mst == st.mst + (if st.parent[u] != 0 then [MstEdge(st.parent[u], u, st.key[u].n)] else [])
  {
    var marked := st.(visited := st.visited[u := true]);
    var relaxed := RelaxFrom(g, u, marked, 0);
    if relaxed.parent[u] != 0 then
      relaxed.(mst := relaxed.mst + [MstEdge(relaxed.parent[u], u, relaxed.key[u].n)])
    else
      relaxed
  }

  /** One iteration of the outer loop with the polled entry `e`: a stale entry
      (its vertex already visited) is dropped and nothing else changes. */
  function Step(g: Graph, st: PrimState, e: Edge): (r: PrimState)
    requires PrimSized(g, st) && e in st.queue && 0 <= e.vertex < |g.adj| && st.key[e.vertex].Fin?
    ensures PrimSized(g, r)
    ensures forall v :: 0 <= v < |st.key| ==> AtMost(r.key[v], st.key[v])
    ensures st.visited[e.vertex] ==> r == st.(queue := st.queue - multiset{e})
    ensures !st.visited[e.vertex] ==> r.visited == st.visited[e.vertex := true]
    ensures || Unvisited(r.visited) < Unvisited(st.visited)
            || (Unvisited(r.visited) == Unvisited(st.visited) && |r.queue| < |st.queue|)
  {
    var rest := st.queue - multiset{e};
    if st.visited[e.vertex] then st.(queue := rest)
    else
      var r := Finalise(g, st.(queue := rest), e.vertex);
      assert e.vertex in Unvisited(st.visited) && e.vertex !in Unvisited(r.visited);
      r
  }

  // ---------------------------------------------------------------------------
  // Preservation of the invariant

  lemma RelaxOneKeys(g: Graph, start: int, st: PrimState, u: int, i: int)
    requires PrimShape(g, start, st) && KeysSound(g, start, st)
    requires 1 <= u < |g.adj| && st.visited[u] && st.visited[start] && 0 <= i < |g.adj[u]|
    ensures PrimShape(g, start, RelaxOne(u, st, g.adj[u][i]))
    ensures KeysSound(g, start, RelaxOne(u, st, g.adj[u][i]))
  {
    var edge := g.adj[u][i];
    var r := RelaxOne(u, st, edge);
    assert KeyOk(g, start, st, u) && KeyOk(g, start, st, start);
    forall v | 0 <= v < |r.key|
      ensures KeyOk(g, start, r, v)
    {
      assert KeyOk(g, start, st, v);
      if r != st && v == edge.vertex {
        assert edge in g.adj[u];
        ReachableStep(g, start, u, edge);
      }
    }
  }

  lemma RelaxOneQueue(g: Graph, start: int, st: PrimState, u: int, i: int)
    requires PrimShape(g, start, st) && PrimQueueSound(st)
    requires 0 <= u < |g.adj| && 0 <= i < |g.adj[u]|
    ensures PrimQueueSound(RelaxOne(u, st, g.adj[u][i]))
  {
    var edge := g.adj[u][i];
    var r := RelaxOne(u, st, edge);
    if r != st {
      assert edge.vertex != 0;
      forall f | f in r.queue
        ensures 1 <= f.vertex < |r.key| && r.key[f.vertex].Fin? && r.key[f.vertex].n <= f.weight
      {
        if f != edge {
          assert f in st.queue;
        }
      }
    }
  }

  lemma RelaxOneTree(g: Graph, start: int, st: PrimState, u: int, i: int)
    requires PrimShape(g, start, st) && TreeSound(g, start, st, u)
    requires 0 <= u < |g.adj| && 0 <= i < |g.adj[u]|
    ensures TreeSound(g, start, RelaxOne(u, st, g.adj[u][i]), u)
    ensures RelaxOne(u, st, g.adj[u][i]).mst == st.mst
  {
  }

  lemma RelaxOneFrontier(g: Graph, st: PrimState, u: int, i: int, x: int, upto: int)
    requires PrimSized(g, st) && 0 <= u < |g.adj| && 0 <= i < |g.adj[u]|
    requires Frontier(g, st, x, upto)
    ensures Frontier(g, RelaxOne(u, st, g.adj[u][i]), x, upto)
  {
  }

  lemma RelaxOnePending(g: Graph, start: int, st: PrimState, u: int, i: int)
    requires PrimPending(g, start, st, u, i) && 0 <= i < |g.adj[u]|
    ensures PrimPending(g, start, RelaxOne(u, st, g.adj[u][i]), u, i + 1)
  {
    var r := RelaxOne(u, st, g.adj[u][i]);
    RelaxOneKeys(g, start, st, u, i);
    RelaxOneQueue(g, start, st, u, i);
    RelaxOneTree(g, start, st, u, i);
    RelaxOneFrontier(g, st, u, i, u, i);
    forall x | 0 <= x < |r.visited| && x != u
      ensures PrimSettled(g, r, x)
    {
      assert PrimSettled(g, st, x);
      if r.visited[x] {
        RelaxOneFrontier(g, st, u, i, x, |g.adj[x]|);
      }
    }
  }

  lemma {:induction false} RelaxFromPending(g: Graph, start: int, st: PrimState, u: int, i: nat)
    requires PrimPending(g, start, st, u, i)
    ensures PrimPending(g, start, RelaxFrom(g, u, st, i), u, |g.adj[u]|)
    decreases |g.adj[u]| - i
  {
    if i < |g.adj[u]| {
      RelaxOnePending(g, start, st, u, i);
      RelaxFromPending(g, start, RelaxOne(u, st, g.adj[u][i]), u, i + 1);
    }
  }

  /** Dropping the polled entry keeps an entry for every unvisited keyed
      vertex, since the dropped one belongs to a vertex that is now visited. */
  lemma PrimDropKeepsQueue(st: PrimState, e: Edge, visited: seq<bool>)
    requires PrimQueueSound(st) && e in st.queue
    requires |visited| == |st.visited| && 0 <= e.vertex < |visited| && visited[e.vertex]
    requires forall v :: 0 <= v < |visited| && !visited[v] ==> !st.visited[v]
    ensures PrimQueueSound(st.(visited := visited, queue := st.queue - multiset{e}))
  {
    PriorityFrontier.DropKeepsCover(st.key, st.visited, visited, st.queue, e);
  }

  lemma MarkKeys(g: Graph, start: int, st: PrimState, m: PrimState, u: int)
    requires PrimShape(g, start, st) && KeysSound(g, start, st)
    requires 0 <= u < |g.adj| && st.key[u].Fin?
    requires m.visited == st.visited[u := true] && m.key == st.key && m.parent == st.parent
    ensures PrimShape(g, start, m) && KeysSound(g, start, m)
  {
    forall v | 0 <= v < |m.key|
      ensures KeyOk(g, start, m, v)
    {
      assert KeyOk(g, start, st, v);
    }
  }

  lemma MarkTree(g: Graph, start: int, st: PrimState, m: PrimState, u: int)
    requires PrimShape(g, start, st) && TreeSound(g, start, st, -1)
    requires 0 <= u < |g.adj| && !st.visited[u]
    requires m.visited == st.visited[u := true] && m.key == st.key && m.parent == st.parent && m.mst == st.mst
    ensures PrimShape(g, start, m) && TreeSound(g, start, m, u)
  {
  }

  lemma PrimMarkSettled(g: Graph, st: PrimState, m: PrimState, u: int)
    requires forall x :: 0 <= x < |st.visited| ==> PrimSettled(g, st, x)
    requires 0 <= u < |st.visited| && m.visited == st.visited[u := true] && m.key == st.key
    ensures forall x :: 0 <= x < |m.visited| && x != u ==> PrimSettled(g, m, x)
  {
    forall x | 0 <= x < |m.visited| && x != u
      ensures PrimSettled(g, m, x)
    {
      assert PrimSettled(g, st, x);
    }
  }

  /** The parent of a keyed vertex other than the start is visited, hence the
      start or an already recorded child. */
  lemma MarkParent(g: Graph, start: int, st: PrimState, u: int)
    requires PrimShape(g, start, st) && KeysSound(g, start, st) && TreeSound(g, start, st, -1)
    requires 0 <= u < |g.adj| && u != start && st.key[u].Fin?
    ensures st.parent[u] == start || st.parent[u] in Children(st.mst)
  {
    assert KeyOk(g, start, st, u);
    assert st.visited[st.parent[u]];
  }

  /** Marking an unvisited polled vertex starts the relaxation phase. */
  lemma MarkPending(g: Graph, start: int, st: PrimState, e: Edge)
    requires PrimInv(g, start, st) && e in st.queue && !st.visited[e.vertex]
    ensures PrimPending(g, start, st.(visited := st.visited[e.vertex := true], queue := st.queue - multiset{e}),
                    e.vertex, 0)
  {
    var u := e.vertex;
    var m := st.(visited := st.visited[u := true], queue := st.queue - multiset{e});
    if !st.visited[start] {
      assert e in multiset{Edge(start, 0)};
    }
    PrimDropKeepsQueue(st, e, m.visited);
    MarkKeys(g, start, st, m, u);
    MarkTree(g, start, st, m, u);
    PrimMarkSettled(g, st, m, u);
    if u != start {
      MarkParent(g, start, st, u);
    }
  }

  lemma ChildrenSnoc(mst: seq<MstEdge>, e: MstEdge)
    ensures Children(mst + [e]) == Children(mst) + {e.child}
  {
    var r := mst + [e];
    forall c | c in Children(r)
      ensures c in Children(mst) + {e.child}
    {
      var k :| 0 <= k < |r| && r[k].child == c;
      if k < |mst| {
        assert mst[k] == r[k];
      }
    }
    forall c | c in Children(mst) + {e.child}
      ensures c in Children(r)
    {
      if c != e.child {
        var k :| 0 <= k < |mst| && mst[k].child == c;
        assert r[k] == mst[k];
      } else {
        assert r[|mst|] == e;
      }
    }
  }

  /** Appending the edge of `u` records it: the tree no longer misses `u`. */
  lemma RecordTree(g: Graph, start: int, relaxed: PrimState, u: int)
    requires 1 <= u < |g.adj| && PrimPending(g, start, relaxed, u, |g.adj[u]|) && relaxed.parent[u] != 0
    requires relaxed.key[u].Fin?
    ensures TreeSound(g, start, relaxed.(mst := relaxed.mst + [MstEdge(relaxed.parent[u], u, relaxed.key[u].n)]), -1)
  {
    var e := MstEdge(relaxed.parent[u], u, relaxed.key[u].n);
    var r := relaxed.(mst := relaxed.mst + [e]);
    assert u != start;
    var n := |relaxed.mst|;
    assert r.mst[..n] == relaxed.mst;
    ChildrenSnoc(relaxed.mst, e);
    forall k | 0 <= k < |r.mst|
      ensures r.mst[k].parent == start || r.mst[k].parent in Children(r.mst[..k])
    {
      if k < n {
        assert r.mst[..k] == relaxed.mst[..k];
      }
    }
  }

  /** Keys, queue and settledness do not look at the recorded edges. */
  lemma RecordKeeps(g: Graph, start: int, st: PrimState, r: PrimState)
    requires PrimShape(g, start, st) && KeysSound(g, start, st) && PrimQueueSound(st)
    requires forall x :: 0 <= x < |st.visited| ==> PrimSettled(g, st, x)
    requires r == st.(mst := r.mst)
    ensures PrimShape(g, start, r) && KeysSound(g, start, r) && PrimQueueSound(r)
    ensures forall x :: 0 <= x < |r.visited| ==> PrimSettled(g, r, x)
  {
    forall x | 0 <= x < |r.visited|
      ensures KeyOk(g, start, r, x) && PrimSettled(g, r, x)
    {
      assert KeyOk(g, start, st, x) && PrimSettled(g, st, x);
    }
  }

  /** Whether `mst[k]` was a lightest edge depends on `mst[..k + 1]` only. */
  lemma LightEdgesSnoc(g: Graph, start: int, mst: seq<MstEdge>, e: MstEdge)
    requires LightEdges(g, start, mst) && LightestOut(g, start, mst + [e], |mst|)
    ensures LightEdges(g, start, mst + [e])
  {
    forall k | 0 <= k < |mst|
      ensures LightestOut(g, start, mst + [e], k)
    {
      assert (mst + [e])[..k] == mst[..k];
      assert LightestOut(g, start, mst, k);
    }
  }

  /** The greedy step: the polled minimum entry belongs to `u`, and every
      entry leaving the visited vertices names a vertex whose key is at most
      its weight and has an entry of exactly that key in the queue. So the
      edge recorded for `u` is a lightest edge leaving the tree. */
  lemma PollLightest(g: Graph, start: int, st: PrimState, e: Edge)
    requires PrimInv(g, start, st) && PriorityFrontier.IsMin(st.queue, e)
    requires 0 <= e.vertex < |st.visited| && !st.visited[e.vertex] && st.parent[e.vertex] != 0
    ensures st.key[e.vertex].Fin?
    ensures LightestOut(g, start, st.mst + [MstEdge(st.parent[e.vertex], e.vertex, st.key[e.vertex].n)], |st.mst|)
  {
    var u := e.vertex;
    var m := st.mst + [MstEdge(st.parent[u], u, st.key[u].n)];
    assert m[..|st.mst|] == st.mst;
    forall x, j | && (x == start || x in Children(st.mst)) && 0 <= x < |g.adj| && 0 <= j < |g.adj[x]|
                  && g.adj[x][j].vertex != start && g.adj[x][j].vertex !in Children(st.mst)
      ensures st.key[u].n <= g.adj[x][j].weight
    {
      var v := g.adj[x][j].vertex;
      if x != start {
        var k :| 0 <= k < |st.mst| && st.mst[k].child == x;
      }
      assert st.visited[x] && PrimSettled(g, st, x);
      assert !st.visited[v];
      assert Edge(v, st.key[v].n) in st.queue;
      assert CompareTo(e, Edge(v, st.key[v].n)) <= 0;
    }
  }

  /** Recording `u` once its neighbours are relaxed restores the invariant. */
  lemma RecordInv(g: Graph, start: int, relaxed: PrimState, u: int)
    requires 1 <= u < |g.adj| && PrimPending(g, start, relaxed, u, |g.adj[u]|)
    requires LightEdges(g, start, relaxed.mst)
    requires relaxed.parent[u] != 0 && relaxed.key[u].Fin? ==>
               LightestOut(g, start, relaxed.mst + [MstEdge(relaxed.parent[u], u, relaxed.key[u].n)], |relaxed.mst|)
    ensures relaxed.key[u].Fin?
    ensures PrimInv(g, start, if relaxed.parent[u] != 0 then
                      relaxed.(mst := relaxed.mst + [MstEdge(relaxed.parent[u], u, relaxed.key[u].n)])
                    else relaxed)
  {
    assert KeyOk(g, start, relaxed, u);
    assert PrimSettled(g, relaxed, u);
    assert forall x :: 0 <= x < |relaxed.visited| ==> PrimSettled(g, relaxed, x);
    if relaxed.parent[u] != 0 {
      var r := relaxed.(mst := relaxed.mst + [MstEdge(relaxed.parent[u], u, relaxed.key[u].n)]);
      RecordTree(g, start, relaxed, u);
      RecordKeeps(g, start, relaxed, r);
      LightEdgesSnoc(g, start, relaxed.mst, MstEdge(relaxed.parent[u], u, relaxed.key[u].n));
    } else {
      assert u == start;
      assert TreeSound(g, start, relaxed, -1);
    }
  }

  /** Dropping an entry whose vertex is already visited keeps the invariant. */
  lemma DropStale(g: Graph, start: int, st: PrimState, e: Edge)
    requires PrimInv(g, start, st) && e in st.queue && 0 <= e.vertex < |st.visited| && st.visited[e.vertex]
    ensures PrimInv(g, start, st.(queue := st.queue - multiset{e}))
  {
    PrimDropKeepsQueue(st, e, st.visited);
    var r := st.(queue := st.queue - multiset{e});
    forall v | 0 <= v < |r.key|
      ensures KeyOk(g, start, r, v) && PrimSettled(g, r, v)
    {
      assert KeyOk(g, start, st, v) && PrimSettled(g, st, v);
    }
  }

  lemma StepPreserves(g: Graph, start: int, st: PrimState, e: Edge)
    requires PrimInv(g, start, st) && PriorityFrontier.IsMin(st.queue, e)
    ensures 0 <= e.vertex < |g.adj| && st.key[e.vertex].Fin?
    ensures PrimInv(g, start, Step(g, st, e))
  {
    var rest := st.queue - multiset{e};
    var u := e.vertex;
    if st.visited[u] {
      DropStale(g, start, st, e);
    } else {
      MarkPending(g, start, st, e);
      var marked := st.(visited := st.visited[u := true], queue := rest);
      RelaxFromPending(g, start, marked, u, 0);
      var relaxed := RelaxFrom(g, u, marked, 0);
      if st.parent[u] != 0 {
        PollLightest(g, start, st, e);
      }
      RecordInv(g, start, relaxed, u);
      assert Step(g, st, e) == Finalise(g, st.(queue := rest), u);
    }
  }

  // ---------------------------------------------------------------------------
  // Which parent is recorded

  /** The vertices of the tree in the order they joined it: the start, then
      the child of each recorded edge. */
  ghost function Tree(start: int, mst: seq<MstEdge>): (t: seq<int>)
    ensures |t| == |mst| + 1 && t[0] == start
  {
    if mst == [] then [start] else Tree(start, mst[..|mst| - 1]) + [mst[|mst| - 1].child]
  }

  lemma TreeSnoc(start: int, mst: seq<MstEdge>, e: MstEdge)
    ensures Tree(start, mst + [e]) == Tree(start, mst) + [e.child]
  {
    assert (mst + [e])[..|mst|] == mst;
  }

  /** The tree's vertices are the start and the recorded children. */
  lemma {:induction false} TreeMembers(start: int, mst: seq<MstEdge>)
    ensures forall q :: 0 <= q < |Tree(start, mst)| ==>
              Tree(start, mst)[q] == start || Tree(start, mst)[q] in Children(mst)
  {
    if mst != [] {
      var init := mst[..|mst| - 1];
      TreeMembers(start, init);
      assert init + [mst[|mst| - 1]] == mst;
      ChildrenSnoc(init, mst[|mst| - 1]);
    }
  }

  /** The list of `x` holds the entry `e`. */
  ghost predicate Holds(g: Graph, x: int, e: Edge)
  {
    0 <= x < |g.adj| && e in g.adj[x]
  }

  /** The position of the first vertex of `vs` whose list holds `e`, or `|vs|`
      when there is none. */
  ghost function FirstHolder(g: Graph, vs: seq<int>, e: Edge): (r: nat)
    ensures r <= |vs|
    ensures r < |vs| ==> Holds(g, vs[r], e)
  {
    if vs == [] then 0
    else if Holds(g, vs[0], e) then 0
    else 1 + FirstHolder(g, vs[1..], e)
  }

  /** Appending a vertex keeps an existing first holder, and makes the new
      vertex the first holder when there was none. */
  lemma {:induction false} FirstHolderSnoc(g: Graph, vs: seq<int>, x: int, e: Edge)
    ensures FirstHolder(g, vs, e) < |vs| ==> FirstHolder(g, vs + [x], e) == FirstHolder(g, vs, e)
    ensures FirstHolder(g, vs, e) == |vs| && Holds(g, x, e) ==> FirstHolder(g, vs + [x], e) == |vs|
  {
    if vs != [] {
      assert (vs + [x])[0] == vs[0] && (vs + [x])[1..] == vs[1..] + [x];
      FirstHolderSnoc(g, vs[1..], x, e);
    }
  }

  lemma {:induction false} FirstHolderNone(g: Graph, vs: seq<int>, e: Edge)
    requires forall q :: 0 <= q < |vs| ==> !Holds(g, vs[q], e)
    ensures FirstHolder(g, vs, e) == |vs|
  {
    if vs != [] {
      FirstHolderNone(g, vs[1..], e);
    }
  }

  /** `p` is the first vertex of `vs` whose list holds the entry `(v, w)`. */
  ghost predicate FirstOffer(g: Graph, vs: seq<int>, v: int, p: int, w: int)
  {
    FirstHolder(g, vs, Edge(v, w)) < |vs| && vs[FirstHolder(g, vs, Edge(v, w))] == p
  }

  /** Every unvisited vertex with a parent got it from the first vertex of
      `vs` that offers its key: a later vertex offering the same weight does
      not replace it, since relaxation needs a strictly lower weight. */
  ghost predicate Offers(g: Graph, st: PrimState, vs: seq<int>)
  {
    forall v :: 0 <= v < |st.key| && v < |st.visited| && v < |st.parent|
                && !st.visited[v] && st.parent[v] != 0 && st.key[v].Fin? ==>
                  FirstOffer(g, vs, v, st.parent[v], st.key[v].n)
  }

  /** The parent of each recorded edge is the first vertex of the tree built
      before it whose list holds the edge. */
  ghost predicate RecordedFirst(g: Graph, start: int, mst: seq<MstEdge>)
  {
    forall k :: 0 <= k < |mst| ==> FirstOffer(g, Tree(start, mst[..k]), mst[k].child, mst[k].parent, mst[k].weight)
  }

  ghost predicate FirstOffers(g: Graph, start: int, st: PrimState)
  {
    Offers(g, st, Tree(start, st.mst)) && RecordedFirst(g, start, st.mst)
  }

  /** An entry of a visited vertex's list is relaxed. */
  lemma SettledHolds(g: Graph, st: PrimState, x: int, e: Edge)
    requires PrimSized(g, st) && PrimSettled(g, st, x) && st.visited[x]
    ensures Holds(g, x, e) ==>
              0 <= e.vertex < |st.visited| && (st.visited[e.vertex] || AtMost(st.key[e.vertex], Fin(e.weight)))
  {
    if Holds(g, x, e) {
      var j :| 0 <= j < |g.adj[x]| && g.adj[x][j] == e;
    }
  }

  /** Relaxing one entry of `u`'s list, `u` being the last vertex of `vs`,
      keeps every parent the first offering vertex: a strictly lower weight
      cannot be held by an earlier, fully relaxed vertex. */
  lemma RelaxOneOffers(g: Graph, start: int, st: PrimState, u: int, i: int, vs: seq<int>)
    requires PrimPending(g, start, st, u, i) && 0 <= i < |g.adj[u]|
    requires |vs| > 0 && vs[|vs| - 1] == u && (u == start ==> |vs| == 1)
    requires forall q :: 0 <= q < |vs| - 1 ==> vs[q] == start || vs[q] in Children(st.mst)
    requires Offers(g, st, vs)
    ensures Offers(g, RelaxOne(u, st, g.adj[u][i]), vs)
  {
    var edge := g.adj[u][i];
    var r := RelaxOne(u, st, edge);
    if r != st {
      var init := vs[..|vs| - 1];
      forall q | 0 <= q < |init|
        ensures !Holds(g, init[q], edge)
      {
        var x := init[q];
        assert x == vs[q];
        if x != start {
          var k :| 0 <= k < |st.mst| && st.mst[k].child == x;
        }
        assert st.visited[x] && x != u && PrimSettled(g, st, x);
        SettledHolds(g, st, x, edge);
      }
      FirstHolderNone(g, init, edge);
      assert vs == init + [u];
      FirstHolderSnoc(g, init, u, edge);
      assert Holds(g, u, edge);
      forall v | 0 <= v < |r.key| && v < |r.visited| && v < |r.parent|
                 && !r.visited[v] && r.parent[v] != 0 && r.key[v].Fin?
        ensures FirstOffer(g, vs, v, r.parent[v], r.key[v].n)
      {
        if v != edge.vertex {
          assert r.parent[v] == st.parent[v] && r.key[v] == st.key[v];
        }
      }
    }
  }

  lemma {:induction false} RelaxFromOffers(g: Graph, start: int, st: PrimState, u: int, i: nat, vs: seq<int>)
    requires PrimPending(g, start, st, u, i)
    requires |vs| > 0 && vs[|vs| - 1] == u && (u == start ==> |vs| == 1)
    requires forall q :: 0 <= q < |vs| - 1 ==> vs[q] == start || vs[q] in Children(st.mst)
    requires Offers(g, st, vs)
    ensures Offers(g, RelaxFrom(g, u, st, i), vs)
    decreases |g.adj[u]| - i
  {
    if i < |g.adj[u]| {
      RelaxOnePending(g, start, st, u, i);
      RelaxOneOffers(g, start, st, u, i, vs);
      RelaxFromOffers(g, start, RelaxOne(u, st, g.adj[u][i]), u, i + 1, vs);
    }
  }

  /** Marking `u` and putting it at the end of the tree keeps every first
      offer. */
  lemma MarkOffers(g: Graph, start: int, st: PrimState, m: PrimState, u: int, vs: seq<int>)
    requires Offers(g, st, Tree(start, st.mst)) && 0 <= u < |st.visited|
    requires m.visited == st.visited[u := true] && m.parent == st.parent && m.key == st.key
    requires vs == Tree(start, st.mst) || vs == Tree(start, st.mst) + [u]
    ensures Offers(g, m, vs)
  {
    var t := Tree(start, st.mst);
    forall v | 0 <= v < |m.key| && v < |m.visited| && v < |m.parent|
               && !m.visited[v] && m.parent[v] != 0 && m.key[v].Fin?
      ensures FirstOffer(g, vs, v, m.parent[v], m.key[v].n)
    {
      assert FirstOffer(g, t, v, st.parent[v], st.key[v].n);
      FirstHolderSnoc(g, t, u, Edge(v, st.key[v].n));
    }
  }

  /** Recording `u`'s edge, whose parent was the first offering vertex when
      `u` was polled, extends `RecordedFirst`. */
  lemma RecordedFirstSnoc(g: Graph, start: int, mst: seq<MstEdge>, e: MstEdge)
    requires RecordedFirst(g, start, mst) && FirstOffer(g, Tree(start, mst), e.child, e.parent, e.weight)
    ensures RecordedFirst(g, start, mst + [e])
  {
    forall k | 0 <= k < |mst| + 1
      ensures FirstOffer(g, Tree(start, (mst + [e])[..k]), (mst + [e])[k].child, (mst + [e])[k].parent, (mst + [e])[k].weight)
    {
      if k < |mst| {
        assert (mst + [e])[..k] == mst[..k];
      } else {
        assert (mst + [e])[..k] == mst;
      }
    }
  }

  /** The tree once the polled `u` joins it (the start is already its first
      vertex). */
  ghost function Grown(start: int, mst: seq<MstEdge>, u: int): seq<int>
  {
    if u == start then Tree(start, mst) else Tree(start, mst) + [u]
  }

  /** Marking the polled `u` and relaxing its list keeps every parent the
      first offering vertex of the grown tree. */
  lemma VisitOffers(g: Graph, start: int, st: PrimState, e: Edge)
    requires PrimInv(g, start, st) && Offers(g, st, Tree(start, st.mst))
    requires e in st.queue && 0 <= e.vertex < |st.visited| && !st.visited[e.vertex]
    ensures 1 <= e.vertex < |g.adj| && st.key[e.vertex].Fin?
    ensures (st.parent[e.vertex] == 0 <==> e.vertex == start) && (e.vertex == start ==> st.mst == [])
    ensures Offers(g, RelaxFrom(g, e.vertex, st.(visited := st.visited[e.vertex := true], queue := st.queue - multiset{e}), 0),
                   Grown(start, st.mst, e.vertex))
  {
    var u := e.vertex;
    var vs := Grown(start, st.mst, u);
    assert KeyOk(g, start, st, u);
    if u == start {
      assert st.mst == [];
    }
    var marked := st.(visited := st.visited[u := true], queue := st.queue - multiset{e});
    MarkPending(g, start, st, e);
    MarkOffers(g, start, st, marked, u, vs);
    TreeMembers(start, st.mst);
    RelaxFromOffers(g, start, marked, u, 0, vs);
  }

  /** Recording `u`'s edge after the relaxation makes the grown tree the
      tree of the recorded edges, and the recorded parent the first offering
      vertex. */
  lemma RecordOffers(g: Graph, start: int, st: PrimState, relaxed: PrimState, u: int)
    requires FirstOffers(g, start, st) && 0 <= u < |st.visited| && !st.visited[u]
    requires |st.key| == |st.visited| && |st.parent| == |st.visited| && st.key[u].Fin?
    requires |relaxed.key| == |relaxed.visited| && |relaxed.parent| == |relaxed.visited| == |st.visited|
    requires relaxed.parent[u] == st.parent[u] && relaxed.key[u] == st.key[u] && relaxed.mst == st.mst
    requires (st.parent[u] == 0 <==> u == start) && (u == start ==> st.mst == [])
    requires Offers(g, relaxed, Grown(start, st.mst, u))
    ensures FirstOffers(g, start, if relaxed.parent[u] != 0 then
                          relaxed.(mst := relaxed.mst + [MstEdge(relaxed.parent[u], u, relaxed.key[u].n)])
                        else relaxed)
  {
    if st.parent[u] != 0 {
      var rec := MstEdge(st.parent[u], u, st.key[u].n);
      var r := relaxed.(mst := relaxed.mst + [rec]);
      TreeSnoc(start, st.mst, rec);
      assert Tree(start, r.mst) == Grown(start, st.mst, u);
      assert FirstOffer(g, Tree(start, st.mst), u, st.parent[u], st.key[u].n);
      RecordedFirstSnoc(g, start, st.mst, rec);
      forall v | 0 <= v < |r.key| && v < |r.visited| && v < |r.parent|
                 && !r.visited[v] && r.parent[v] != 0 && r.key[v].Fin?
        ensures FirstOffer(g, Tree(start, r.mst), v, r.parent[v], r.key[v].n)
      {
        assert FirstOffer(g, Grown(start, st.mst, u), v, relaxed.parent[v], relaxed.key[v].n);
      }
    } else {
      assert Grown(start, st.mst, u) == Tree(start, relaxed.mst);
    }
  }

  /** One iteration of the outer loop keeps `FirstOffers`, given what the
      relaxation of a newly visited vertex keeps. */
  lemma StepFirstOffers(g: Graph, start: int, st: PrimState, e: Edge)
    requires PrimSized(g, st) && e in st.queue && 0 <= e.vertex < |g.adj| && st.key[e.vertex].Fin?
    requires FirstOffers(g, start, st)
    requires !st.visited[e.vertex] ==>
               && (st.parent[e.vertex] == 0 <==> e.vertex == start) && (e.vertex == start ==> st.mst == [])
               && Offers(g, RelaxFrom(g, e.vertex, st.(visited := st.visited[e.vertex := true], queue := st.queue - multiset{e}), 0),
                         Grown(start, st.mst, e.vertex))
    ensures FirstOffers(g, start, Step(g, st, e))
  {
    var u := e.vertex;
    var rest := st.queue - multiset{e};
    if !st.visited[u] {
      var relaxed := RelaxFrom(g, u, st.(visited := st.visited[u := true], queue := rest), 0);
      RecordOffers(g, start, st, relaxed, u);
      assert Step(g, st, e) == Finalise(g, st.(queue := rest), u);
    } else {
      assert Step(g, st, e) == st.(queue := rest);
    }
  }

  // ---------------------------------------------------------------------------
  // Termination and the result

  lemma {:induction false} ChildrenCard(mst: seq<MstEdge>)
    requires forall i, j :: 0 <= i < j < |mst| ==> mst[i].child != mst[j].child
    ensures |Children(mst)| == |mst|
  {
    if mst != [] {
      var init := mst[..|mst| - 1];
      ChildrenCard(init);
      assert init + [mst[|mst| - 1]] == mst;
      ChildrenSnoc(init, mst[|mst| - 1]);
      assert mst[|mst| - 1].child !in Children(init);
    }
  }

  /** With the queue empty, the visited vertices are exactly those reachable
      from the start, and each of them but the start is the child of exactly
      one recorded edge. */
  lemma PrimDone(g: Graph, start: int, st: PrimState)
    requires PrimInv(g, start, st) && st.queue == multiset{}
    ensures forall v :: 0 <= v < |st.visited| ==> (st.visited[v] <==> Reachable(g, start, v))
    ensures Children(st.mst) == ReachableSet(g, start) - {start}
    ensures |st.mst| + 1 == |ReachableSet(g, start)|
  {
    assert st.visited[start];
    var S := Marked(st.visited);
    forall u | u in S
      ensures NeighboursIn(g, u, S)
    {
      assert PrimSettled(g, st, u);
    }
    forall v | 0 <= v < |st.visited|
      ensures st.visited[v] <==> Reachable(g, start, v)
    {
      assert KeyOk(g, start, st, v);
      if Reachable(g, start, v) {
        ClosedContainsReachable(g, S, start, v);
      }
    }
    assert ReachableSet(g, start) == S;
    assert Children(st.mst) == S - {start};
    ChildrenCard(st.mst);
  }

  /** The recorded edges once the queue is empty: every edge is an adjacency
      entry of its parent, hangs from the start or an earlier child, and the
      children are exactly the other vertices reachable from the start. Each
      edge is a lightest edge leaving the tree built before it, and its parent
      is the first vertex of that tree whose list holds the edge. */
  lemma PrimResult(g: Graph, start: int, st: PrimState)
    requires PrimInv(g, start, st) && RecordedFirst(g, start, st.mst) && st.queue == multiset{}
    ensures forall k :: 0 <= k < |st.mst| ==>
              && 1 <= st.mst[k].parent <= g.vertices
              && Edge(st.mst[k].child, st.mst[k].weight) in g.adj[st.mst[k].parent]
    ensures forall k :: 0 <= k < |st.mst| ==>
              st.mst[k].parent == start || st.mst[k].parent in Children(st.mst[..k])
    ensures forall i, j :: 0 <= i < j < |st.mst| ==> st.mst[i].child != st.mst[j].child
    ensures Children(st.mst) == ReachableSet(g, start) - {start}
    ensures |st.mst| + 1 == |ReachableSet(g, start)|
    ensures forall k :: 0 <= k < |st.mst| ==> LightestOut(g, start, st.mst, k)
    ensures forall k :: 0 <= k < |st.mst| ==>
              FirstOffer(g, Tree(start, st.mst[..k]), st.mst[k].child, st.mst[k].parent, st.mst[k].weight)
  {
    PrimDone(g, start, st);
    forall k | 0 <= k < |st.mst|
      ensures 1 <= st.mst[k].parent <= g.vertices && Edge(st.mst[k].child, st.mst[k].weight) in g.adj[st.mst[k].parent]
    {
      assert KeyOk(g, start, st, st.mst[k].child);
    }
  }

  /** The `while` loop of `prim`: from the initial state, polls a minimum
      entry and steps until the queue is empty, keeping the invariant. */
  method PrimLoop(g: Graph, start: int) returns (st: PrimState)
    requires WellFormed(g) && NoZeroVertex(g) && 1 <= start <= g.vertices
    ensures PrimInv(g, start, st) && RecordedFirst(g, start, st.mst) && st.queue == multiset{}
  {
    st := Init(g, start);
    while st.queue != multiset{}
      invariant PrimInv(g, start, st) && FirstOffers(g, start, st)
      decreases Unvisited(st.visited), |st.queue|
    {
      var e, rest := PriorityFrontier.Poll(st.queue);
      StepPreserves(g, start, st, e);
      if !st.visited[e.vertex] {
        VisitOffers(g, start, st, e);
      }
      StepFirstOffers(g, start, st, e);
      st := Step(g, st, e);
    }
  }

  /** `prim`: polls a minimum entry until the queue is empty. The recorded
      edges form a tree grown from the start: every edge is an adjacency entry
      of its parent, hangs from the start or an earlier child, and the
      children are exactly the other vertices reachable from the start. Each
      edge is a lightest edge leaving the tree built before it, and its parent
      is the first vertex of that tree whose list holds it. */
  method Prim(g: Graph, startingVertex: int) returns (mst: seq<MstEdge>)
    requires WellFormed(g) && NoZeroVertex(g) && 1 <= startingVertex <= g.vertices
    ensures forall k :: 0 <= k < |mst| ==>
              && 1 <= mst[k].parent <= g.vertices
              && Edge(mst[k].child, mst[k].weight) in g.adj[mst[k].parent]
    ensures forall k :: 0 <= k < |mst| ==>
              mst[k].parent == startingVertex || mst[k].parent in Children(mst[..k])
    ensures forall i, j :: 0 <= i < j < |mst| ==> mst[i].child != mst[j].child
    ensures Children(mst) == ReachableSet(g, startingVertex) - {startingVertex}
    ensures |mst| + 1 == |ReachableSet(g, startingVertex)|
    ensures forall k :: 0 <= k < |mst| ==> LightestOut(g, startingVertex, mst, k)
    ensures forall k :: 0 <= k < |mst| ==>
              FirstOffer(g, Tree(startingVertex, mst[..k]), mst[k].child, mst[k].parent, mst[k].weight)
  {
    var st := PrimLoop(g, startingVertex);
    PrimResult(g, startingVertex, st);
    mst := st.mst;
  }

  /** The triangle 1-2 (weight 1), 2-3 (weight 2), 1-3 (weight 3) as
      `addEdge` builds it. */
  function Triangle(): (g: Graph)
    ensures WellFormed(g) && NoZeroVertex(g)
  {
    Graph(3, [[], [Edge(2, 1), Edge(3, 3)], [Edge(1, 1), Edge(3, 2)], [Edge(2, 2), Edge(1, 3)]])
  }

  /** From vertex 1 of the triangle, the contract of `Prim` leaves one
      answer: 1-2 first, then 2-3 (not the heavier 1-3). */
  lemma TriangleScenario(mst: seq<MstEdge>)
    requires forall k :: 0 <= k < |mst| ==>
               && 1 <= mst[k].parent <= Triangle().vertices
               && Edge(mst[k].child, mst[k].weight) in Triangle().adj[mst[k].parent]
    requires forall k :: 0 <= k < |mst| ==> mst[k].parent == 1 || mst[k].parent in Children(mst[..k])
    requires forall i, j :: 0 <= i < j < |mst| ==> mst[i].child != mst[j].child
    requires Children(mst) == ReachableSet(Triangle(), 1) - {1}
    requires forall k :: 0 <= k < |mst| ==> LightestOut(Triangle(), 1, mst, k)
    ensures mst == [MstEdge(1, 2, 1), MstEdge(2, 3, 2)]
  {
    var g := Triangle();
    ReachableSelf(g, 1);
    ReachableStep(g, 1, 1, Edge(2, 1));
    ReachableStep(g, 1, 2, Edge(3, 2));
    assert 2 in ReachableSet(g, 1) && 3 in ReachableSet(g, 1);
    forall k | 0 <= k < |mst|
      ensures mst[k].child == 2 || mst[k].child == 3
    {
      assert mst[k].child in Children(mst);
    }
    assert Children(mst) == {2, 3};
    ChildrenCard(mst);
    assert Children(mst[..0]) == {};
    assert LightestOut(g, 1, mst, 0) && g.adj[1][0] == Edge(2, 1);
    assert mst[0] == MstEdge(1, 2, 1);
    assert mst[..1] == [mst[0]];
    assert Children(mst[..1]) == {2};
    assert LightestOut(g, 1, mst, 1) && g.adj[2][1] == Edge(3, 2);
    assert mst[1] == MstEdge(2, 3, 2);
  }

  /** Edges 1-2 (weight 1), 1-3 (weight 5), 2-3 (weight 5) as `addEdge`
      builds them: vertex 3 is offered weight 5 by both 1 and 2. */
  function Tie(): (g: Graph)
    ensures WellFormed(g) && NoZeroVertex(g)
  {
    Graph(3, [[], [Edge(2, 1), Edge(3, 5)], [Edge(1, 1), Edge(3, 5)], [Edge(1, 5), Edge(2, 5)]])
  }

  /** From vertex 1 of `Tie()`, the contract of `Prim` leaves one answer:
      1-2, then 1-3, since vertex 2's equal offer does not replace vertex 1's. */
  lemma TieScenario(mst: seq<MstEdge>)
    requires forall k :: 0 <= k < |mst| ==>
               && 1 <= mst[k].parent <= Tie().vertices
               && Edge(mst[k].child, mst[k].weight) in Tie().adj[mst[k].parent]
    requires forall k :: 0 <= k < |mst| ==> mst[k].parent == 1 || mst[k].parent in Children(mst[..k])
    requires forall i, j :: 0 <= i < j < |mst| ==> mst[i].child != mst[j].child
    requires Children(mst) == ReachableSet(Tie(), 1) - {1}
    requires forall k :: 0 <= k < |mst| ==> LightestOut(Tie(), 1, mst, k)
    requires forall k :: 0 <= k < |mst| ==> FirstOffer(Tie(), Tree(1, mst[..k]), mst[k].child, mst[k].parent, mst[k].weight)
    ensures mst == [MstEdge(1, 2, 1), MstEdge(1, 3, 5)]
  {
    var g := Tie();
    ReachableSelf(g, 1);
    ReachableStep(g, 1, 1, Edge(2, 1));
    ReachableStep(g, 1, 1, Edge(3, 5));
    assert 2 in ReachableSet(g, 1) && 3 in ReachableSet(g, 1);
    forall k | 0 <= k < |mst|
      ensures mst[k].child == 2 || mst[k].child == 3
    {
      assert mst[k].child in Children(mst);
    }
    assert Children(mst) == {2, 3};
    ChildrenCard(mst);
    assert Children(mst[..0]) == {};
    assert LightestOut(g, 1, mst, 0) && g.adj[1][0] == Edge(2, 1);
    assert mst[0] == MstEdge(1, 2, 1);
    assert mst[..1] == [mst[0]];
    assert Tree(1, mst[..1]) == [1, 2];
    assert mst[1].child == 3;
    assert mst[1].weight == 5;
    assert FirstHolder(g, [1, 2], Edge(3, 5)) == 0;
    assert mst[1] == MstEdge(1, 3, 5);
  }
}
