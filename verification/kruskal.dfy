/** Kruskal's algorithm of CA/Kruskal.java: the graph is a list of weighted
    edges; `kruskal` sorts it by weight (a stable sort) and accepts, in that
    order, each edge whose endpoints lie in different trees of the
    disjoint-set forest. */
module KruskalMst {
  import opened DisjointSet
  import GraphLists

  /** `Edge(v1, v2, weight)` of the edge list. */
  datatype Edge = Edge(v1: int, v2: int, weight: int)

  datatype Graph = Graph(vertices: nat, edgeList: seq<Edge>)

  /** `Edge.compareTo`: the sign of the result orders edges by weight only. */
  function CompareTo(a: Edge, b: Edge): (r: int)
    ensures -1 <= r <= 1
    ensures r < 0 <==> a.weight < b.weight
    ensures r == 0 <==> a.weight == b.weight
    ensures r > 0 <==> a.weight > b.weight
  {
    if a.weight < b.weight then -1 else if a.weight == b.weight then 0 else 1
  }

  /** `compareTo` meets the `Comparable` contract: it is antisymmetric and
      transitive, so it is a total preorder, with ties exactly at equal weight. */
  lemma CompareToPreorder(a: Edge, b: Edge, c: Edge)
    ensures CompareTo(a, b) == -CompareTo(b, a)
    ensures CompareTo(a, b) <= 0 && CompareTo(b, c) <= 0 ==> CompareTo(a, c) <= 0
    ensures CompareTo(a, b) == 0 && CompareTo(b, c) == 0 ==> CompareTo(a, c) == 0
  {
  }

  /** The constructor: no edges yet. */
  function NewGraph(vertices: nat): (g: Graph)
    ensures g.vertices == vertices && |g.edgeList| == 0
  {
    Graph(vertices, [])
  }

  /** `addEdge`: appends the edge as given, with no check and no mirror copy. */
  function AddEdge(g: Graph, v1: int, v2: int, weight: int): (h: Graph)
    ensures h.vertices == g.vertices && |h.edgeList| == |g.edgeList| + 1
    ensures h.edgeList[..|g.edgeList|] == g.edgeList && h.edgeList[|g.edgeList|] == Edge(v1, v2, weight)
  {
    Graph(g.vertices, g.edgeList + [Edge(v1, v2, weight)])
  }

  /** The graph the file reader builds: the constructor, then one `addEdge`
      per triple, in file order. */
  function Build(vertices: nat, ts: seq<GraphLists.Triple>): (g: Graph)
    ensures g.vertices == vertices
  {
    if ts == [] then NewGraph(vertices)
    else
      var last := ts[|ts| - 1];
      AddEdge(Build(vertices, ts[..|ts| - 1]), last.v1, last.v2, last.weight)
  }

  /** The edge list holds exactly the triples read, in order. */
  lemma {:induction false} BuildKeepsOrder(vertices: nat, ts: seq<GraphLists.Triple>)
    ensures |Build(vertices, ts).edgeList| == |ts|
    ensures forall k :: 0 <= k < |ts| ==>
              Build(vertices, ts).edgeList[k] == Edge(ts[k].v1, ts[k].v2, ts[k].weight)
  {
    if ts != [] {
      var init := ts[..|ts| - 1];
      BuildKeepsOrder(vertices, init);
      forall k | 0 <= k < |ts|
        ensures Build(vertices, ts).edgeList[k] == Edge(ts[k].v1, ts[k].v2, ts[k].weight)
      {
        if k < |init| {
          assert ts[k] == init[k];
          assert Build(vertices, ts).edgeList[k] == Build(vertices, init).edgeList[k];
        }
      }
    }
  }

  // ---------------------------------------------------------------------------
  // Collections.sort: a stable sort by weight

  predicate SortedByWeight(s: seq<Edge>)
  {
    forall i, j {:trigger s[i].weight, s[j].weight} :: 0 <= i < j < |s| ==> s[i].weight <= s[j].weight
  }

  /** The edges of weight `w`, in their order in `s`. */
  function OfWeight(s: seq<Edge>, w: int): seq<Edge>
  {
    if s == [] then [] else (if s[0].weight == w then [s[0]] else []) + OfWeight(s[1..], w)
  }

  /** An edge no heavier than the first of a sorted list can go in front. */
  lemma ConsSorted(e: Edge, s: seq<Edge>)
    requires SortedByWeight(s) && (s != [] ==> e.weight <= s[0].weight)
    ensures SortedByWeight([e] + s)
  {
  }

  /** Inserts `x` into the sorted `s` after every edge of weight at most its own. */
  function Insert(x: Edge, s: seq<Edge>): (r: seq<Edge>)
    requires SortedByWeight(s)
    ensures SortedByWeight(r) && multiset(r) == multiset(s) + multiset{x} && |r| == |s| + 1
    ensures r[0] == x || (s != [] && r[0] == s[0])
  {
    if s == [] then [x]
    else if x.weight < s[0].weight then
      ConsSorted(x, s);
      [x] + s
    else
      assert s == [s[0]] + s[1..];
      var rest := Insert(x, s[1..]);
      ConsSorted(s[0], rest);
      assert multiset([s[0]] + rest) == multiset{s[0]} + multiset(rest);
      [s[0]] + rest
  }

  /** The order `Collections.sort` leaves the list in: insertion sort, each
      edge placed after all earlier edges of no greater weight. */
  function SortByWeight(es: seq<Edge>): (r: seq<Edge>)
    ensures SortedByWeight(r) && multiset(r) == multiset(es) && |r| == |es|
  {
    if es == [] then []
    else
      assert es == es[..|es| - 1] + [es[|es| - 1]];
      Insert(es[|es| - 1], SortByWeight(es[..|es| - 1]))
  }

  lemma {:induction false} OfWeightAppend(a: seq<Edge>, b: seq<Edge>, w: int)
    ensures OfWeight(a + b, w) == OfWeight(a, w) + OfWeight(b, w)
  {
    if a != [] {
      assert (a + b)[0] == a[0] && (a + b)[1..] == a[1..] + b;
      OfWeightAppend(a[1..], b, w);
    } else {
      assert a + b == b;
    }
  }

  lemma {:induction false} OfWeightNone(s: seq<Edge>, w: int)
    requires forall i :: 0 <= i < |s| ==> s[i].weight != w
    ensures OfWeight(s, w) == []
  {
    if s != [] {
      OfWeightNone(s[1..], w);
    }
  }

  lemma SortedTail(s: seq<Edge>)
    requires SortedByWeight(s) && s != []
    ensures SortedByWeight(s[1..])
    ensures forall i :: 0 <= i < |s| ==> s[0].weight <= s[i].weight
  {
  }

  lemma OfWeightCons(e: Edge, s: seq<Edge>, w: int)
    ensures OfWeight([e] + s, w) == (if e.weight == w then [e] else []) + OfWeight(s, w)
  {
    assert ([e] + s)[0] == e && ([e] + s)[1..] == s;
  }

  lemma InsertFront(x: Edge, s: seq<Edge>)
    requires SortedByWeight(s) && s != [] && x.weight < s[0].weight
    ensures Insert(x, s) == [x] + s
  {
  }

  lemma InsertSkip(x: Edge, s: seq<Edge>)
    requires SortedByWeight(s) && s != [] && !(x.weight < s[0].weight)
    ensures SortedByWeight(s[1..]) && Insert(x, s) == [s[0]] + Insert(x, s[1..])
  {
  }

  /** Putting `x` in front of heavier edges keeps the order of each weight:
      no edge of `s` has the weight of `x`. */
  lemma FrontStable(x: Edge, s: seq<Edge>, w: int)
    requires SortedByWeight(s) && s != [] && x.weight < s[0].weight
    ensures OfWeight([x] + s, w) == OfWeight(s, w) + (if x.weight == w then [x] else [])
  {
    OfWeightCons(x, s, w);
    if x.weight == w {
      SortedTail(s);
      OfWeightNone(s, w);
      assert [x] + [] == [] + [x];
    } else {
      assert [] + OfWeight(s, w) == OfWeight(s, w) + [];
    }
  }

  lemma InsertSkipStable(x: Edge, s: seq<Edge>, w: int)
    requires SortedByWeight(s) && s != [] && !(x.weight < s[0].weight) && SortedByWeight(s[1..])
    requires OfWeight(Insert(x, s[1..]), w) == OfWeight(s[1..], w) + (if x.weight == w then [x] else [])
    ensures OfWeight(Insert(x, s), w) == OfWeight(s, w) + (if x.weight == w then [x] else [])
  {
    var tail := if x.weight == w then [x] else [];
    var head := if s[0].weight == w then [s[0]] else [];
    InsertSkip(x, s);
    var rest := Insert(x, s[1..]);
    OfWeightCons(s[0], rest, w);
    OfWeightCons(s[0], s[1..], w);
    assert [s[0]] + s[1..] == s;
    Assoc(head, OfWeight(s[1..], w), tail);
  }

  lemma LastSplit(es: seq<Edge>)
    requires es != []
    ensures es == es[..|es| - 1] + [es[|es| - 1]]
  {
  }

  lemma Assoc(a: seq<Edge>, b: seq<Edge>, c: seq<Edge>)
    ensures a + (b + c) == (a + b) + c
  {
  }

  lemma {:induction false} InsertStable(x: Edge, s: seq<Edge>, w: int)
    requires SortedByWeight(s)
    ensures OfWeight(Insert(x, s), w) == OfWeight(s, w) + (if x.weight == w then [x] else [])
  {
    if s == [] {
      OfWeightCons(x, [], w);
      assert [x] + [] == [x];
    } else if x.weight < s[0].weight {
      InsertFront(x, s);
      FrontStable(x, s, w);
    } else {
      SortedTail(s);
      InsertStable(x, s[1..], w);
      InsertSkipStable(x, s, w);
    }
  }

  lemma StableStep(init: seq<Edge>, last: Edge, sortedInit: seq<Edge>, w: int)
    requires SortedByWeight(sortedInit) && OfWeight(sortedInit, w) == OfWeight(init, w)
    ensures OfWeight(Insert(last, sortedInit), w) == OfWeight(init + [last], w)
  {
    InsertStable(last, sortedInit, w);
    OfWeightAppend(init, [last], w);
    assert OfWeight([last], w) == (if last.weight == w then [last] else []) + OfWeight([], w);
  }

  /** Stability: the sort keeps edges of equal weight in their input order,
      which together with sortedness fixes its result. */
  lemma {:induction false} SortStable(es: seq<Edge>, w: int)
    ensures OfWeight(SortByWeight(es), w) == OfWeight(es, w)
  {
    if es != [] {
      var init, last := es[..|es| - 1], es[|es| - 1];
      SortStable(init, w);
      StableStep(init, last, SortByWeight(init), w);
      LastSplit(es);
    }
  }

  // ---------------------------------------------------------------------------
  // Connectivity by a list of undirected edges

  /** Some edge of `es` joins `a` and `b`, in either direction. */
  ghost predicate Joins(es: seq<Edge>, a: int, b: int)
  {
    exists k :: 0 <= k < |es| && ((es[k].v1 == a && es[k].v2 == b) || (es[k].v1 == b && es[k].v2 == a))
  }

  ghost predicate IsPath(es: seq<Edge>, path: seq<int>)
  {
    |path| >= 1 && forall i :: 0 <= i < |path| - 1 ==> Joins(es, path[i], path[i + 1])
  }

  /** `u` and `v` are connected by the edges of `es`. */
  ghost predicate Linked(es: seq<Edge>, u: int, v: int)
  {
    exists path {:trigger IsPath(es, path)} :: IsPath(es, path) && path[0] == u && path[|path| - 1] == v
  }

  lemma LinkedRefl(es: seq<Edge>, u: int)
    ensures Linked(es, u, u)
  {
    assert IsPath(es, [u]);
  }

  lemma LinkedEdge(es: seq<Edge>, k: int)
    requires 0 <= k < |es|
    ensures Linked(es, es[k].v1, es[k].v2)
  {
    assert Joins(es, es[k].v1, es[k].v2);
    assert IsPath(es, [es[k].v1, es[k].v2]);
  }

  lemma LinkedSym(es: seq<Edge>, u: int, v: int)
    requires Linked(es, u, v)
    ensures Linked(es, v, u)
  {
    var path :| IsPath(es, path) && path[0] == u && path[|path| - 1] == v;
    var n := |path|;
    var back := seq(n, i requires 0 <= i < n => path[n - 1 - i]);
    forall i | 0 <= i < n - 1
      ensures Joins(es, back[i], back[i + 1])
    {
      var k :| 0 <= k < |es| && ((es[k].v1 == path[n - 2 - i] && es[k].v2 == path[n - 1 - i]) ||
                                 (es[k].v1 == path[n - 1 - i] && es[k].v2 == path[n - 2 - i]));
    }
    assert IsPath(es, back);
  }

  lemma LinkedTrans(es: seq<Edge>, u: int, v: int, w: int)
    requires Linked(es, u, v) && Linked(es, v, w)
    ensures Linked(es, u, w)
  {
    var p1 :| IsPath(es, p1) && p1[0] == u && p1[|p1| - 1] == v;
    var p2 :| IsPath(es, p2) && p2[0] == v && p2[|p2| - 1] == w;
    var path := p1 + p2[1..];
    forall i | 0 <= i < |path| - 1
      ensures Joins(es, path[i], path[i + 1])
    {
      if i < |p1| - 1 {
        assert path[i] == p1[i] && path[i + 1] == p1[i + 1];
      } else {
        var j := i - (|p1| - 1);
        assert path[i] == p2[j] && path[i + 1] == p2[j + 1];
      }
    }
    assert IsPath(es, path);
  }

  /** Adding an edge keeps every connection. */
  lemma LinkedGrow(es: seq<Edge>, e: Edge, u: int, v: int)
    requires Linked(es, u, v)
    ensures Linked(es + [e], u, v)
  {
    var path :| IsPath(es, path) && path[0] == u && path[|path| - 1] == v;
    forall i | 0 <= i < |path| - 1
      ensures Joins(es + [e], path[i], path[i + 1])
    {
      var k :| 0 <= k < |es| && ((es[k].v1 == path[i] && es[k].v2 == path[i + 1]) ||
                                 (es[k].v1 == path[i + 1] && es[k].v2 == path[i]));
      assert (es + [e])[k] == es[k];
    }
    assert IsPath(es + [e], path);
  }

  // ---------------------------------------------------------------------------
  // The forest kept by `kruskal`

  predicate EdgeIn(vertices: nat, e: Edge)
  {
    0 <= e.v1 <= vertices && 0 <= e.v2 <= vertices
  }

  /** Both ends of every accepted edge lie in the same tree. */
  ghost predicate RootsAgree(p: seq<int>, es: seq<Edge>)
    requires Acyclic(p)
  {
    forall k :: 0 <= k < |es| ==>
      0 <= es[k].v1 < |p| && 0 <= es[k].v2 < |p| && Root(p, es[k].v1) == Root(p, es[k].v2)
  }

  /** `v` is connected by the accepted edges to the root of its tree. */
  ghost predicate Tracked(p: seq<int>, es: seq<Edge>, v: int)
    requires Acyclic(p)
  {
    0 <= v < |p| && Linked(es, v, Root(p, v))
  }

  /** The parent array describes exactly the components of the accepted
      edges, and each accepted edge removed one root. */
  ghost predicate Forest(vertices: nat, p: seq<int>, mst: seq<Edge>)
  {
    && Acyclic(p) && |p| == vertices + 1
    && RootsAgree(p, mst)
    && (forall v :: 0 <= v < |p| ==> Tracked(p, mst, v))
    && |mst| + |Roots(p)| == vertices + 1
  }

  /** Vertices connected by edges whose ends share a root share a root. */
  lemma LinkedSameRoot(p: seq<int>, es: seq<Edge>, u: int, v: int)
    requires Acyclic(p) && RootsAgree(p, es) && 0 <= u < |p| && Linked(es, u, v)
    ensures 0 <= v < |p| && Root(p, v) == Root(p, u)
  {
    var path :| IsPath(es, path) && path[0] == u && path[|path| - 1] == v;
    var i := 0;
    while i < |path| - 1
      invariant 0 <= i < |path| && 0 <= path[i] < |p| && Root(p, path[i]) == Root(p, u)
    {
      assert Joins(es, path[i], path[i + 1]);
      i := i + 1;
    }
  }

  /** A parent array of -1 entries: every vertex is a root. */
  lemma InitialAcyclic(p: seq<int>)
    requires forall v :: 0 <= v < |p| ==> p[v] == -1
    ensures Acyclic(p)
    ensures forall v :: 0 <= v < |p| ==> Root(p, v) == v
  {
    assert Valid(p);
    forall v | 0 <= v < |p|
      ensures HasRoot(p, v)
    {
      assert IsRootAt(p, v, 0);
    }
    forall v | 0 <= v < |p|
      ensures Root(p, v) == v
    {
      RootOfRoot(p, v);
    }
  }

  lemma InitialRoots(p: seq<int>)
    requires forall v :: 0 <= v < |p| ==> p[v] == -1
    ensures |Roots(p)| == |p|
  {
    var all := GraphLists.Ids(|p|);
    assert Roots(p) == all;
    GraphLists.IdsCard(|p|);
  }

  lemma InitialForest(vertices: nat)
    ensures Forest(vertices, seq(vertices + 1, _ => -1), [])
  {
    var p: seq<int> := seq(vertices + 1, _ => -1);
    InitialAcyclic(p);
    forall v | 0 <= v < |p|
      ensures Tracked(p, [], v)
    {
      LinkedRefl([], v);
    }
    InitialRoots(p);
  }

  /** An edge whose ends lie in the same tree is already connected. */
  lemma RejectLinked(vertices: nat, p: seq<int>, mst: seq<Edge>, e: Edge)
    requires Forest(vertices, p, mst) && EdgeIn(vertices, e) && Root(p, e.v1) == Root(p, e.v2)
    ensures Linked(mst, e.v1, e.v2)
  {
    assert Tracked(p, mst, e.v1) && Tracked(p, mst, e.v2);
    LinkedSym(mst, e.v2, Root(p, e.v2));
    LinkedTrans(mst, e.v1, Root(p, e.v1), e.v2);
  }

  /** Accepting an edge between two trees keeps the forest, and the edge was
      not connected before. */
  lemma AcceptForest(vertices: nat, p: seq<int>, mst: seq<Edge>, e: Edge)
    requires Forest(vertices, p, mst) && EdgeIn(vertices, e) && Root(p, e.v1) != Root(p, e.v2)
    ensures !Linked(mst, e.v1, e.v2)
    ensures Forest(vertices, Union(p, Root(p, e.v1), Root(p, e.v2)), mst + [e])
  {
    var x, y := Root(p, e.v1), Root(p, e.v2);
    if Linked(mst, e.v1, e.v2) {
      LinkedSameRoot(p, mst, e.v1, e.v2);
      assert false;
    }
    RootOfRoot(p, x);
    RootOfRoot(p, y);
    UnionMerges(p, x, y);
    var q := Union(p, x, y);
    var m := mst + [e];
    forall k | 0 <= k < |m|
      ensures 0 <= m[k].v1 < |q| && 0 <= m[k].v2 < |q| && Root(q, m[k].v1) == Root(q, m[k].v2)
    {
      if k < |mst| {
        assert m[k] == mst[k];
      }
    }
    LinkedEdge(m, |mst|);
    assert Tracked(p, mst, e.v1) && Tracked(p, mst, e.v2);
    LinkedGrow(mst, e, e.v1, x);
    LinkedSym(m, e.v1, x);
    LinkedGrow(mst, e, e.v2, y);
    LinkedTrans(m, x, e.v1, e.v2);
    LinkedTrans(m, x, e.v2, y);
    forall v | 0 <= v < |q|
      ensures Tracked(q, m, v)
    {
      assert Tracked(p, mst, v);
      LinkedGrow(mst, e, v, Root(p, v));
      if Root(p, v) == x {
        LinkedTrans(m, v, x, y);
      }
    }
    assert x in Roots(p);
  }

  /** The edges the greedy rule keeps from `sorted[..i]`, in order: each edge
      in turn is kept exactly when its ends are not yet connected by the
      edges kept before it. */
  ghost function Greedy(sorted: seq<Edge>, i: int): seq<Edge>
    requires 0 <= i <= |sorted|
    decreases i
  {
    if i == 0 then []
    else
      var kept := Greedy(sorted, i - 1);
      var e := sorted[i - 1];
      if Linked(kept, e.v1, e.v2) then kept else kept + [e]
  }

  /** The greedy choice from a list sorted by weight keeps only edges of
      that list, and is itself sorted by weight. */
  lemma {:induction false} GreedySorted(sorted: seq<Edge>, i: int)
    requires SortedByWeight(sorted) && 0 <= i <= |sorted|
    ensures forall k :: 0 <= k < |Greedy(sorted, i)| ==> Greedy(sorted, i)[k] in sorted[..i]
    ensures SortedByWeight(Greedy(sorted, i))
    decreases i
  {
    if i > 0 {
      GreedySorted(sorted, i - 1);
      var kept := Greedy(sorted, i - 1);
      var e := sorted[i - 1];
      assert sorted[..i] == sorted[..i - 1] + [e];
      forall k | 0 <= k < |kept|
        ensures kept[k] in sorted[..i] && kept[k].weight <= e.weight
      {
        var j :| 0 <= j < i - 1 && sorted[..i - 1][j] == kept[k];
        assert sorted[j] == kept[k];
      }
      if !Linked(kept, e.v1, e.v2) {
        var m := kept + [e];
        forall a, b | 0 <= a < b < |m|
          ensures m[a].weight <= m[b].weight
        {
          assert m[a] == kept[a];
        }
      }
    }
  }

  /** The state after considering the sorted edges `sorted[..i]`: a forest
      whose accepted edges are the greedy choice from `sorted[..i]`, each
      joining two trees, and which connects the ends of every edge considered. */
  ghost predicate KruskalInv(vertices: nat, sorted: seq<Edge>, i: int, p: seq<int>, mst: seq<Edge>)
  {
    && 0 <= i <= |sorted|
    && Forest(vertices, p, mst)
    && (forall k :: 0 <= k < |mst| ==> mst[k] in sorted[..i])
    && NoCycle(mst)
    && (forall j :: 0 <= j < i ==> Linked(mst, sorted[j].v1, sorted[j].v2))
    && mst == Greedy(sorted, i)
  }

  /** No accepted edge closes a cycle with the edges accepted before it. */
  ghost predicate NoCycle(mst: seq<Edge>)
  {
    forall k :: 0 <= k < |mst| ==> !Linked(mst[..k], mst[k].v1, mst[k].v2)
  }

  lemma AcceptNoCycle(mst: seq<Edge>, e: Edge)
    requires NoCycle(mst) && !Linked(mst, e.v1, e.v2)
    ensures NoCycle(mst + [e])
  {
    var m := mst + [e];
    forall k | 0 <= k < |m|
      ensures !Linked(m[..k], m[k].v1, m[k].v2)
    {
      if k < |mst| {
        assert m[..k] == mst[..k] && m[k] == mst[k];
      } else {
        assert m[..k] == mst;
      }
    }
  }

  lemma AcceptSpans(sorted: seq<Edge>, i: int, mst: seq<Edge>)
    requires 0 <= i < |sorted|
    requires forall j :: 0 <= j < i ==> Linked(mst, sorted[j].v1, sorted[j].v2)
    ensures forall j :: 0 <= j < i + 1 ==> Linked(mst + [sorted[i]], sorted[j].v1, sorted[j].v2)
  {
    var m := mst + [sorted[i]];
    forall j | 0 <= j < i + 1
      ensures Linked(m, sorted[j].v1, sorted[j].v2)
    {
      if j < i {
        LinkedGrow(mst, sorted[i], sorted[j].v1, sorted[j].v2);
      } else {
        LinkedEdge(m, |mst|);
      }
    }
  }

  lemma AcceptFrom(sorted: seq<Edge>, i: int, mst: seq<Edge>)
    requires 0 <= i < |sorted|
    requires forall k :: 0 <= k < |mst| ==> mst[k] in sorted[..i]
    ensures forall k :: 0 <= k < |mst| + 1 ==> (mst + [sorted[i]])[k] in sorted[..i + 1]
  {
    assert sorted[..i + 1] == sorted[..i] + [sorted[i]];
    forall k | 0 <= k < |mst| + 1
      ensures (mst + [sorted[i]])[k] in sorted[..i + 1]
    {
      if k < |mst| {
        assert (mst + [sorted[i]])[k] == mst[k];
      }
    }
  }

  /** Accepting `sorted[i]`, whose ends lie in different trees. */
  lemma ConsiderAccept(vertices: nat, sorted: seq<Edge>, i: int, p: seq<int>, mst: seq<Edge>)
    requires KruskalInv(vertices, sorted, i, p, mst) && i < |sorted|
    requires EdgeIn(vertices, sorted[i])
    requires Root(p, sorted[i].v1) != Root(p, sorted[i].v2)
    ensures KruskalInv(vertices, sorted, i + 1, Union(p, Root(p, sorted[i].v1), Root(p, sorted[i].v2)),
                       mst + [sorted[i]])
  {
    AcceptForest(vertices, p, mst, sorted[i]);
    AcceptNoCycle(mst, sorted[i]);
    AcceptSpans(sorted, i, mst);
    AcceptFrom(sorted, i, mst);
  }

  /** Skipping `sorted[i]`, whose ends lie in the same tree. */
  lemma ConsiderReject(vertices: nat, sorted: seq<Edge>, i: int, p: seq<int>, mst: seq<Edge>)
    requires KruskalInv(vertices, sorted, i, p, mst) && i < |sorted|
    requires EdgeIn(vertices, sorted[i])
    requires Root(p, sorted[i].v1) == Root(p, sorted[i].v2)
    ensures KruskalInv(vertices, sorted, i + 1, p, mst)
  {
    assert sorted[..i + 1] == sorted[..i] + [sorted[i]];
    RejectLinked(vertices, p, mst, sorted[i]);
  }

  /** One iteration of the loop of `kruskal`: the edge `sorted[i]` is
      accepted, and the two trees joined, exactly when its ends have
      different roots. */
  method ConsiderEdge(vertices: nat, sorted: seq<Edge>, i: int, parent: seq<int>, mst: seq<Edge>)
    returns (parent': seq<int>, mst': seq<Edge>)
    requires KruskalInv(vertices, sorted, i, parent, mst) && i < |sorted|
    requires EdgeIn(vertices, sorted[i])
    ensures KruskalInv(vertices, sorted, i + 1, parent', mst')
    ensures Root(parent, sorted[i].v1) != Root(parent, sorted[i].v2) ==> mst' == mst + [sorted[i]]
    ensures Root(parent, sorted[i].v1) == Root(parent, sorted[i].v2) ==> mst' == mst
  {
    var edge := sorted[i];
    var x := Find(parent, edge.v1);
    var y := Find(parent, edge.v2);
    if x != y {
      ConsiderAccept(vertices, sorted, i, parent, mst);
      mst' := mst + [edge];
      parent' := Union(parent, x, y);
    } else {
      ConsiderReject(vertices, sorted, i, parent, mst);
      parent', mst' := parent, mst;
    }
  }

  /** A permutation of `es` holds the same edges. */
  lemma SameEdges(es: seq<Edge>, sorted: seq<Edge>, e: Edge)
    requires multiset(sorted) == multiset(es)
    ensures e in sorted <==> e in es
  {
    assert e in sorted <==> e in multiset(sorted);
    assert e in es <==> e in multiset(es);
  }

  /** The sorted list names the same vertices as the input list. */
  lemma KruskalStart(g: Graph, sorted: seq<Edge>)
    requires multiset(sorted) == multiset(g.edgeList)
    requires forall k :: 0 <= k < |g.edgeList| ==> EdgeIn(g.vertices, g.edgeList[k])
    ensures forall k :: 0 <= k < |sorted| ==> EdgeIn(g.vertices, sorted[k])
  {
    forall k | 0 <= k < |sorted|
      ensures EdgeIn(g.vertices, sorted[k])
    {
      SameEdges(g.edgeList, sorted, sorted[k]);
    }
  }

  /** The graph of vertices 1..vertices is connected: no edge touches the
      unused vertex 0 and every vertex is connected to vertex 1. */
  ghost predicate Connected(g: Graph)
  {
    && g.vertices >= 1 && Avoids(g.edgeList, 0)
    && forall v :: 1 <= v <= g.vertices ==> Linked(g.edgeList, 1, v)
  }

  /** No edge of `es` touches `z`. */
  predicate Avoids(es: seq<Edge>, z: int)
  {
    forall k :: 0 <= k < |es| ==> es[k].v1 != z && es[k].v2 != z
  }

  /** Two different vertices connected by edges that avoid `z` both differ from `z`. */
  lemma LinkedAvoids(es: seq<Edge>, u: int, v: int, z: int)
    requires Linked(es, u, v) && u != v && Avoids(es, z)
    ensures u != z && v != z
  {
    var path :| IsPath(es, path) && path[0] == u && path[|path| - 1] == v;
    var n := |path|;
    assert Joins(es, path[0], path[1]);
    assert Joins(es, path[n - 2], path[n - 1]);
  }

  /** When no accepted edge touches vertex 0, vertex 0 and vertex 1 stay in
      different trees, so at least two roots remain. */
  lemma SpareRoots(vertices: nat, p: seq<int>, mst: seq<Edge>)
    requires Forest(vertices, p, mst) && vertices >= 1 && Avoids(mst, 0)
    ensures |mst| <= vertices - 1
  {
    assert Tracked(p, mst, 0) && Tracked(p, mst, 1);
    var r0, r1 := Root(p, 0), Root(p, 1);
    if r0 != 0 {
      LinkedAvoids(mst, 0, r0, 0);
    }
    if r1 == 0 {
      LinkedAvoids(mst, 1, r1, 0);
    }
    var two := {r0, r1};
    assert two <= Roots(p);
    assert |two| == 2;
    SubsetCard(two, Roots(p));
  }

  lemma SubsetCard(a: set<int>, b: set<int>)
    requires a <= b
    ensures |a| <= |b|
  {
    var rest := b - a;
    assert b == a + rest && a * rest == {};
  }

  /** Vertices connected by `es` are connected by `mst` when the ends of every
      edge of `es` are. */
  lemma LinkedLift(es: seq<Edge>, mst: seq<Edge>, u: int, v: int)
    requires forall k :: 0 <= k < |es| ==> Linked(mst, es[k].v1, es[k].v2)
    requires Linked(es, u, v)
    ensures Linked(mst, u, v)
  {
    var path :| IsPath(es, path) && path[0] == u && path[|path| - 1] == v;
    LinkedRefl(mst, u);
    var i := 0;
    while i < |path| - 1
      invariant 0 <= i < |path| && Linked(mst, u, path[i])
    {
      assert Joins(es, path[i], path[i + 1]);
      var k :| 0 <= k < |es| && ((es[k].v1 == path[i] && es[k].v2 == path[i + 1]) ||
                                 (es[k].v1 == path[i + 1] && es[k].v2 == path[i]));
      if es[k].v1 != path[i] {
        LinkedSym(mst, es[k].v1, es[k].v2);
      }
      LinkedTrans(mst, u, path[i], path[i + 1]);
      i := i + 1;
    }
  }

  /** When no accepted edge touches vertex 0 and the accepted edges connect
      vertex 1 to every vertex of 1..vertices, exactly two trees remain
      (vertex 0 alone, and the rest), so there are `vertices - 1` edges. */
  lemma OneTree(vertices: nat, p: seq<int>, mst: seq<Edge>)
    requires Forest(vertices, p, mst) && vertices >= 1 && Avoids(mst, 0)
    requires forall v :: 1 <= v <= vertices ==> Linked(mst, 1, v)
    ensures |mst| == vertices - 1
  {
    SpareRoots(vertices, p, mst);
    var r1 := Root(p, 1);
    forall r | r in Roots(p)
      ensures r == 0 || r == r1
    {
      if r != 0 {
        RootOfRoot(p, r);
        LinkedSameRoot(p, mst, 1, r);
      }
    }
    assert Roots(p) <= {0, r1};
    SubsetCard(Roots(p), {0, r1});
  }

  /** After the last edge: the accepted edges come from the input in
      nondecreasing weight, none closes a cycle, and together they connect
      the ends of every input edge. */
  lemma KruskalDone(g: Graph, sorted: seq<Edge>, p: seq<int>, mst: seq<Edge>)
    requires multiset(sorted) == multiset(g.edgeList) && SortedByWeight(sorted)
    requires KruskalInv(g.vertices, sorted, |sorted|, p, mst)
    ensures SortedByWeight(mst)
    ensures NoCycle(mst)
    ensures forall k :: 0 <= k < |mst| ==> mst[k] in g.edgeList
    ensures forall k :: 0 <= k < |g.edgeList| ==> Linked(mst, g.edgeList[k].v1, g.edgeList[k].v2)
  {
    assert sorted[..|sorted|] == sorted;
    GreedySorted(sorted, |sorted|);
    forall k | 0 <= k < |mst|
      ensures mst[k] in g.edgeList
    {
      SameEdges(g.edgeList, sorted, mst[k]);
    }
    forall k | 0 <= k < |g.edgeList|
      ensures Linked(mst, g.edgeList[k].v1, g.edgeList[k].v2)
    {
      SameEdges(g.edgeList, sorted, g.edgeList[k]);
    }
  }

  /** After the last edge: at most as many accepted edges as vertices, one
      fewer when no edge touches vertex 0, and exactly one fewer when the
      graph is connected. */
  lemma KruskalSize(g: Graph, sorted: seq<Edge>, p: seq<int>, mst: seq<Edge>)
    requires multiset(sorted) == multiset(g.edgeList)
    requires KruskalInv(g.vertices, sorted, |sorted|, p, mst)
    ensures |mst| <= g.vertices
    ensures g.vertices >= 1 && Avoids(g.edgeList, 0) ==> |mst| <= g.vertices - 1
    ensures Connected(g) ==> |mst| == g.vertices - 1
  {
    assert Root(p, 0) in Roots(p);
    assert sorted[..|sorted|] == sorted;
    if g.vertices >= 1 && Avoids(g.edgeList, 0) {
      forall k | 0 <= k < |mst|
        ensures mst[k] in g.edgeList
      {
        SameEdges(g.edgeList, sorted, mst[k]);
      }
      SpareRoots(g.vertices, p, mst);
    }
    if Connected(g) {
      forall k | 0 <= k < |g.edgeList|
        ensures Linked(mst, g.edgeList[k].v1, g.edgeList[k].v2)
      {
        SameEdges(g.edgeList, sorted, g.edgeList[k]);
      }
      forall v | 1 <= v <= g.vertices
        ensures Linked(mst, 1, v)
      {
        LinkedLift(g.edgeList, mst, 1, v);
      }
      OneTree(g.vertices, p, mst);
    }
  }

  /** The loop of `kruskal`: every vertex starts as a tree of its own, and
      the sorted edges are considered in turn. */
  method ConsiderAll(vertices: nat, sorted: seq<Edge>) returns (parent: seq<int>, mst: seq<Edge>)
    requires forall k :: 0 <= k < |sorted| ==> EdgeIn(vertices, sorted[k])
    ensures KruskalInv(vertices, sorted, |sorted|, parent, mst)
  {
    InitialForest(vertices);
    parent := seq(vertices + 1, _ => -1);
    mst := [];
    for i := 0 to |sorted|
      invariant KruskalInv(vertices, sorted, i, parent, mst)
    {
      parent, mst := ConsiderEdge(vertices, sorted, i, parent, mst);
    }
  }

  /** `kruskal`: sorts the edge list (the graph keeps it sorted afterwards)
      and returns the accepted edges in acceptance order: exactly the greedy
      choice from the sorted list. They come from the input in nondecreasing
      weight, none closes a cycle with the edges accepted before it, together
      they connect the ends of every input edge, and there are at most as
      many as the vertices, one fewer than the vertices on a connected graph. */
  method Kruskal(g: Graph) returns (sorted: seq<Edge>, mst: seq<Edge>)
    requires forall k :: 0 <= k < |g.edgeList| ==> EdgeIn(g.vertices, g.edgeList[k])
    ensures sorted == SortByWeight(g.edgeList)
    ensures forall k :: 0 <= k < |mst| ==> mst[k] in g.edgeList
    ensures SortedByWeight(mst)
    ensures forall k :: 0 <= k < |mst| ==> !Linked(mst[..k], mst[k].v1, mst[k].v2)
    ensures forall k :: 0 <= k < |g.edgeList| ==> Linked(mst, g.edgeList[k].v1, g.edgeList[k].v2)
    ensures |mst| <= g.vertices
    ensures g.vertices >= 1 && Avoids(g.edgeList, 0) ==> |mst| <= g.vertices - 1
    ensures mst == Greedy(sorted, |sorted|)
    ensures Connected(g) ==> |mst| == g.vertices - 1
  {
    sorted := SortByWeight(g.edgeList);
    KruskalStart(g, sorted);
    var parent: seq<int>;
    parent, mst := ConsiderAll(g.vertices, sorted);
    KruskalDone(g, sorted, parent, mst);
    KruskalSize(g, sorted, parent, mst);
  }

  /** On the triangle 1-2 (weight 1), 2-3 (weight 2), 1-3 (weight 3) the
      greedy rule keeps the two lightest edges and rejects 1-3, whose ends
      are already connected through 2. */
  lemma TriangleScenario()
    ensures Greedy([Edge(1, 2, 1), Edge(2, 3, 2), Edge(1, 3, 3)], 3) == [Edge(1, 2, 1), Edge(2, 3, 2)]
  {
    var sorted := [Edge(1, 2, 1), Edge(2, 3, 2), Edge(1, 3, 3)];
    var one, two := [Edge(1, 2, 1)], [Edge(1, 2, 1), Edge(2, 3, 2)];
    if Linked([], 1, 2) {
      LinkedAvoids([], 1, 2, 1);
    }
    assert Greedy(sorted, 1) == one;
    if Linked(one, 2, 3) {
      LinkedAvoids(one, 2, 3, 3);
    }
    assert Greedy(sorted, 2) == two;
    LinkedEdge(two, 0);
    LinkedEdge(two, 1);
    LinkedTrans(two, 1, 2, 3);
  }
}
