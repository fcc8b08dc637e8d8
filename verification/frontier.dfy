/** The java.util.PriorityQueue<Edge> that drives Prim and Dijkstra, seen
    abstractly as a multiset of entries ordered by `CompareTo`. Which of
    several equal-weight entries `poll` returns is left open. */
module PriorityFrontier {
  import opened GraphLists

  /** `e` is an entry of `q` that no other entry precedes. */
  predicate IsMin(q: multiset<Edge>, e: Edge)
  {
    e in q && forall f :: f in q ==> CompareTo(e, f) <= 0
  }

  /** A witness that every non-empty queue has a minimum. */
  ghost function SomeMin(q: multiset<Edge>): (e: Edge)
    requires q != multiset{}
    ensures IsMin(q, e)
    decreases |q|
  {
    var x :| x in q;
    var rest := q - multiset{x};
    if rest == multiset{} then
      assert forall f :: f in q ==> f == x by {
        forall f | f in q ensures f == x {
          assert rest[f] == 0 && multiset{x}[f] >= q[f] > 0;
        }
      }
      x
    else
      var m := SomeMin(rest);
      if m.weight <= x.weight then m else x
  }

  /** Lazy deletion loses no live entry: every unvisited vertex whose label
      (Prim's key, Dijkstra's distance) is finite has an entry carrying
      exactly that label. */
  ghost predicate Covers(level: seq<Ext>, visited: seq<bool>, q: multiset<Edge>)
  {
    forall v :: 0 <= v < |level| && v < |visited| && !visited[v] && level[v].Fin? ==>
      Edge(v, level[v].n) in q
  }

  /** Dropping the polled entry keeps the cover once its vertex is visited,
      since no live entry of another vertex was the one dropped. */
  lemma DropKeepsCover(level: seq<Ext>, visited: seq<bool>, marked: seq<bool>, q: multiset<Edge>, e: Edge)
    requires Covers(level, visited, q) && e in q
    requires |marked| == |visited| && 0 <= e.vertex < |marked| && marked[e.vertex]
    requires forall v :: 0 <= v < |marked| && !marked[v] ==> !visited[v]
    ensures Covers(level, marked, q - multiset{e})
  {
    forall v | 0 <= v < |level| && v < |marked| && !marked[v] && level[v].Fin?
      ensures Edge(v, level[v].n) in q - multiset{e}
    {
      assert Edge(v, level[v].n) in q && Edge(v, level[v].n) != e;
    }
  }

  /** `poll`: removes and returns some minimum-weight entry. */
  method Poll(q: multiset<Edge>) returns (e: Edge, rest: multiset<Edge>)
    requires q != multiset{}
    ensures IsMin(q, e)
    ensures rest == q - multiset{e} && |rest| == |q| - 1
  {
    ghost var m := SomeMin(q);
    e :| IsMin(q, e);
    rest := q - multiset{e};
  }
}
