/** The adjacency-list graph store of CA/GraphLists.java: vertex ids index a
    sequence of neighbour lists (index 0 exists but is not a vertex of the
    input format), edges are undirected and stored once in each endpoint's list.
    Also the notions the algorithms are specified against: walks, their
    lengths, reachability, and the "infinity" used for keys and distances. */
module GraphLists {

  /** One adjacency entry: the neighbour reached and the weight of the edge.
      The priority queues of Prim and Dijkstra hold values of the same type,
      where `weight` is the priority. */
  datatype Edge = Edge(vertex: int, weight: int)

  /** `Edge.compareTo`: the sign of the result orders entries by weight only. */
  function CompareTo(a: Edge, b: Edge): (r: int)
    ensures -1 <= r <= 1
    ensures r < 0 <==> a.weight < b.weight
    ensures r == 0 <==> a.weight == b.weight
    ensures r > 0 <==> a.weight > b.weight
  {
    if a.weight < b.weight then -1 else if a.weight == b.weight then 0 else 1
  }

  /** `compareTo` meets the `Comparable` contract: it is antisymmetric and
      transitive, so it is a total preorder, with ties exactly at equal weight. */
  lemma CompareToPreorder(a: Edge, b: Edge, c: Edge)
    ensures CompareTo(a, b) == -CompareTo(b, a)
    ensures CompareTo(a, b) <= 0 && CompareTo(b, c) <= 0 ==> CompareTo(a, c) <= 0
    ensures CompareTo(a, b) == 0 && CompareTo(b, c) == 0 ==> CompareTo(a, c) == 0
  {
  }

  /** A key or a distance: a finite value or the "not reached yet" infinity
      that the source encodes as Integer.MAX_VALUE. */
  datatype Ext = Fin(n: int) | Inf

  /** Strictly smaller, with infinity above every finite value. */
  predicate Below(a: Ext, b: Ext)
  {
    match a
    case Inf => false
    case Fin(x) => b.Inf? || x < b.n
  }

  predicate AtMost(a: Ext, b: Ext)
  {
    !Below(b, a)
  }

  datatype Graph = Graph(vertices: nat, adj: seq<seq<Edge>>)

  /** One neighbour list per id 0..vertices, and every entry names such an id. */
  ghost predicate WellFormed(g: Graph)
  {
    && |g.adj| == g.vertices + 1
    && forall u, j :: 0 <= u < |g.adj| && 0 <= j < |g.adj[u]| ==> 0 <= g.adj[u][j].vertex <= g.vertices
  }

  /** No adjacency entry names vertex 0. */
  ghost predicate NoZeroVertex(g: Graph)
  {
    forall u, j :: 0 <= u < |g.adj| && 0 <= j < |g.adj[u]| ==> g.adj[u][j].vertex != 0
  }

  ghost predicate NonNegativeWeights(g: Graph)
  {
    forall u, j :: 0 <= u < |g.adj| && 0 <= j < |g.adj[u]| ==> g.adj[u][j].weight >= 0
  }

  /** The constructor: vertices + 1 empty neighbour lists. */
  function NewGraph(vertices: nat): (g: Graph)
    ensures WellFormed(g) && g.vertices == vertices
    ensures |g.adj| == vertices + 1
    ensures forall u :: 0 <= u < |g.adj| ==> g.adj[u] == []
  {
    Graph(vertices, seq(vertices + 1, _ => []))
  }

  /** `addEdge`: the undirected edge is appended to both endpoints' lists
      (twice to the same list for a self-loop); no other list changes. */
  function AddEdge(g: Graph, v1: int, v2: int, weight: int): (h: Graph)
    requires WellFormed(g)
    requires 0 <= v1 <= g.vertices && 0 <= v2 <= g.vertices
    ensures WellFormed(h) && h.vertices == g.vertices
    ensures v1 != v2 ==> h.adj[v1] == g.adj[v1] + [Edge(v2, weight)]
    ensures v1 != v2 ==> h.adj[v2] == g.adj[v2] + [Edge(v1, weight)]
    ensures v1 == v2 ==> h.adj[v1] == g.adj[v1] + [Edge(v1, weight), Edge(v1, weight)]
    ensures forall u :: 0 <= u < |h.adj| && u != v1 && u != v2 ==> h.adj[u] == g.adj[u]
  {
    var a := g.adj[v1 := g.adj[v1] + [Edge(v2, weight)]];
    Graph(g.vertices, a[v2 := a[v2] + [Edge(v1, weight)]])
  }

  /** An input edge `v1 v2 weight` as read from the graph file. */
  datatype Triple = Triple(v1: int, v2: int, weight: int)

  predicate InRange(vertices: nat, es: seq<Triple>)
  {
    forall k :: 0 <= k < |es| ==> 0 <= es[k].v1 <= vertices && 0 <= es[k].v2 <= vertices
  }

  /** The graph obtained by the constructor followed by one `addEdge` per
      triple, in order (what the file reader does once the numbers are read). */
  function Build(vertices: nat, es: seq<Triple>): (g: Graph)
    requires InRange(vertices, es)
    ensures WellFormed(g) && g.vertices == vertices
  {
    if es == [] then NewGraph(vertices)
    else
      var last := es[|es| - 1];
      AddEdge(Build(vertices, es[..|es| - 1]), last.v1, last.v2, last.weight)
  }

  /** Symmetry of the store: `v` appears in `u`'s list with weight `w` exactly
      when some added edge joins `u` and `v` with weight `w`, in either order. */
  lemma {:induction false} BuildSymmetric(vertices: nat, es: seq<Triple>, u: int, v: int, w: int)
    requires InRange(vertices, es) && 0 <= u <= vertices
    ensures Edge(v, w) in Build(vertices, es).adj[u] <==>
      exists k :: 0 <= k < |es| && (es[k] == Triple(u, v, w) || es[k] == Triple(v, u, w))
    decreases |es|
  {
    if es != [] {
      var init := es[..|es| - 1];
      var last := es[|es| - 1];
      assert InRange(vertices, init);
      BuildSymmetric(vertices, init, u, v, w);
      if exists k :: 0 <= k < |init| && (init[k] == Triple(u, v, w) || init[k] == Triple(v, u, w)) {
        var k :| 0 <= k < |init| && (init[k] == Triple(u, v, w) || init[k] == Triple(v, u, w));
        assert es[k] == init[k];
      }
      if exists k :: 0 <= k < |es| && (es[k] == Triple(u, v, w) || es[k] == Triple(v, u, w)) {
        var k :| 0 <= k < |es| && (es[k] == Triple(u, v, w) || es[k] == Triple(v, u, w));
        if k < |init| {
          assert init[k] == es[k];
        }
      }
    }
  }

  // ---------------------------------------------------------------------------
  // Walks and reachability

  /** `p` is a walk whose i-th hop uses an adjacency entry of weight `ws[i]`. */
  ghost predicate IsWalk(g: Graph, p: seq<int>, ws: seq<int>)
  {
    && |p| == |ws| + 1
    && forall i :: 0 <= i < |ws| ==> 0 <= p[i] < |g.adj| && Edge(p[i + 1], ws[i]) in g.adj[p[i]]
  }

  ghost function Sum(ws: seq<int>): int
  {
    if ws == [] then 0 else Sum(ws[..|ws| - 1]) + ws[|ws| - 1]
  }

  /** Some walk from `s` to `t` has total weight `d`. */
  ghost predicate HasWalk(g: Graph, s: int, t: int, d: int)
  {
    exists p, ws :: IsWalk(g, p, ws) && p[0] == s && p[|p| - 1] == t && Sum(ws) == d
  }

  ghost predicate Reachable(g: Graph, s: int, t: int)
  {
    exists p, ws :: IsWalk(g, p, ws) && p[0] == s && p[|p| - 1] == t
  }

  ghost function ReachableSet(g: Graph, s: int): set<int>
  {
    set v | 0 <= v <= g.vertices && Reachable(g, s, v)
  }

  lemma ReachableSelf(g: Graph, s: int)
    ensures Reachable(g, s, s)
    ensures HasWalk(g, s, s, 0)
  {
    assert IsWalk(g, [s], []);
  }

  /** A walk to `u` extends by any entry of `u`'s list. */
  lemma HasWalkStep(g: Graph, s: int, u: int, d: int, e: Edge)
    requires HasWalk(g, s, u, d) && 0 <= u < |g.adj| && e in g.adj[u]
    ensures HasWalk(g, s, e.vertex, d + e.weight)
    ensures Reachable(g, s, e.vertex)
  {
    var p, ws :| IsWalk(g, p, ws) && p[0] == s && p[|p| - 1] == u && Sum(ws) == d;
    var p', ws' := p + [e.vertex], ws + [e.weight];
    assert ws'[..|ws'| - 1] == ws;
    assert IsWalk(g, p', ws');
  }

  lemma ReachableStep(g: Graph, s: int, u: int, e: Edge)
    requires Reachable(g, s, u) && 0 <= u < |g.adj| && e in g.adj[u]
    ensures Reachable(g, s, e.vertex)
  {
    var p, ws :| IsWalk(g, p, ws) && p[0] == s && p[|p| - 1] == u;
    assert HasWalk(g, s, u, Sum(ws));
    HasWalkStep(g, s, u, Sum(ws), e);
  }

  lemma ReachablePrepend(g: Graph, u: int, e: Edge, t: int)
    requires 0 <= u < |g.adj| && e in g.adj[u] && Reachable(g, e.vertex, t)
    ensures Reachable(g, u, t)
  {
    var p, ws :| IsWalk(g, p, ws) && p[0] == e.vertex && p[|p| - 1] == t;
    var p', ws' := [u] + p, [e.weight] + ws;
    forall i | 0 <= i < |ws'|
      ensures 0 <= p'[i] < |g.adj| && Edge(p'[i + 1], ws'[i]) in g.adj[p'[i]]
    {
      if i > 0 {
        assert p'[i] == p[i - 1] && p'[i + 1] == p[i] && ws'[i] == ws[i - 1];
      }
    }
    assert IsWalk(g, p', ws');
  }

  /** Every neighbour of `u` lies in `S`. */
  ghost predicate NeighboursIn(g: Graph, u: int, S: set<int>)
  {
    0 <= u < |g.adj| && forall j :: 0 <= j < |g.adj[u]| ==> g.adj[u][j].vertex in S
  }

  /** A vertex set closed under taking neighbours contains everything
      reachable from any of its members. */
  lemma ClosedContainsReachable(g: Graph, S: set<int>, s: int, t: int)
    requires forall u :: u in S ==> NeighboursIn(g, u, S)
    requires s in S && Reachable(g, s, t)
    ensures t in S
  {
    var p, ws :| IsWalk(g, p, ws) && p[0] == s && p[|p| - 1] == t;
    var i := 0;
    while i < |ws|
      invariant 0 <= i <= |ws| && p[i] in S
    {
      var e := Edge(p[i + 1], ws[i]);
      assert e in g.adj[p[i]];
      var j :| 0 <= j < |g.adj[p[i]]| && g.adj[p[i]][j] == e;
      assert NeighboursIn(g, p[i], S);
      i := i + 1;
    }
  }

  /** The ids 0..n-1. */
  ghost function Ids(n: nat): (r: set<int>)
    ensures forall v :: v in r <==> 0 <= v < n
  {
    if n == 0 then {} else Ids(n - 1) + {n - 1}
  }

  lemma {:induction false} IdsCard(n: nat)
    ensures |Ids(n)| == n
  {
    if n > 0 {
      IdsCard(n - 1);
      var smaller := Ids(n - 1);
      assert n - 1 !in smaller && smaller * {n - 1} == {};
      assert Ids(n) == smaller + {n - 1};
    } else {
      assert Ids(n) == {};
    }
  }

  /** Vertices whose `visited` flag is still false; the algorithms that mark
      vertices terminate because this set shrinks. */
  ghost function Unvisited(visited: seq<bool>): set<int>
  {
    set v | 0 <= v < |visited| && !visited[v]
  }

  ghost function Marked(visited: seq<bool>): set<int>
  {
    set v | 0 <= v < |visited| && visited[v]
  }

  // ---------------------------------------------------------------------------
  // Sequences without repetition

  predicate Distinct<T(==)>(s: seq<T>)
  {
    forall i, j :: 0 <= i < j < |s| ==> s[i] != s[j]
  }

  /** Two repetition-free sequences with no element in common concatenate
      to a repetition-free sequence. */
  lemma DistinctConcat<T>(a: seq<T>, b: seq<T>)
    requires Distinct(a) && Distinct(b) && forall x :: x in a ==> x !in b
    ensures Distinct(a + b)
  {
    forall i, j | 0 <= i < j < |a + b|
      ensures (a + b)[i] != (a + b)[j]
    {
      if i < |a| && j >= |a| {
        assert (a + b)[i] in a && (a + b)[j] == b[j - |a|];
      }
    }
  }
}
