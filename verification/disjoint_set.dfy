/** The parent-array disjoint-set forest of CA/Kruskal.java (`find`,
    `union`): `parent[v] == -1` marks a root, any other value is the next
    vertex towards the root. No path compression and no union by rank. */
module DisjointSet {

  /** Every entry is -1 or an index of the array. */
  predicate Valid(p: seq<int>)
  {
    forall i :: 0 <= i < |p| ==> p[i] == -1 || 0 <= p[i] < |p|
  }

  /** The vertex reached from `v` after `k` parent steps, stopping at a root. */
  ghost function Up(p: seq<int>, v: int, k: nat): (r: int)
    requires Valid(p) && 0 <= v < |p|
    ensures 0 <= r < |p|
    decreases k
  {
    if k == 0 || p[v] == -1 then v else Up(p, p[v], k - 1)
  }

  ghost predicate IsRootAt(p: seq<int>, v: int, k: nat)
    requires Valid(p) && 0 <= v < |p|
  {
    p[Up(p, v, k)] == -1
  }

  /** `k` parent steps from `v` reach a root, and `k - 1` do not. */
  ghost predicate FirstRootAt(p: seq<int>, v: int, k: nat)
    requires Valid(p) && 0 <= v < |p|
  {
    IsRootAt(p, v, k) && (k == 0 || !IsRootAt(p, v, k - 1))
  }

  ghost predicate HasRoot(p: seq<int>, v: int)
    requires Valid(p) && 0 <= v < |p|
  {
    exists k: nat :: IsRootAt(p, v, k)
  }

  /** Following parents from any vertex ends at a root: `find` terminates. */
  ghost predicate Acyclic(p: seq<int>)
  {
    Valid(p) && forall v :: 0 <= v < |p| ==> HasRoot(p, v)
  }

  // ---------------------------------------------------------------------------
  // Parent steps

  /** Once a root is reached, further steps stay there. */
  lemma {:induction false} UpStays(p: seq<int>, v: int, k: nat, m: nat)
    requires Valid(p) && 0 <= v < |p| && IsRootAt(p, v, k) && k <= m
    ensures Up(p, v, m) == Up(p, v, k)
    decreases k
  {
    if k > 0 && p[v] != -1 {
      UpStays(p, p[v], k - 1, m - 1);
    }
  }

  lemma {:induction false} UpCompose(p: seq<int>, v: int, a: nat, b: nat)
    requires Valid(p) && 0 <= v < |p|
    ensures Up(p, v, a + b) == Up(p, Up(p, v, a), b)
    decreases a
  {
    if a > 0 && p[v] != -1 {
      UpCompose(p, p[v], a - 1, b);
    } else if a > 0 {
      assert Up(p, v, b) == v;
    }
  }

  lemma {:induction false} FirstExists(p: seq<int>, v: int, k: nat)
    requires Valid(p) && 0 <= v < |p| && IsRootAt(p, v, k)
    ensures exists j: nat :: FirstRootAt(p, v, j)
    decreases k
  {
    if k > 0 && IsRootAt(p, v, k - 1) {
      FirstExists(p, v, k - 1);
    } else {
      assert FirstRootAt(p, v, k);
    }
  }

  lemma BeforeFirst(p: seq<int>, v: int, d: nat)
    requires Valid(p) && 0 <= v < |p| && FirstRootAt(p, v, d)
    ensures forall j: nat :: j < d ==> !IsRootAt(p, v, j)
  {
    forall j: nat | j < d
      ensures !IsRootAt(p, v, j)
    {
      if IsRootAt(p, v, j) {
        UpStays(p, v, j, d - 1);
      }
    }
  }

  lemma FirstUnique(p: seq<int>, v: int, j1: nat, j2: nat)
    requires Valid(p) && 0 <= v < |p| && FirstRootAt(p, v, j1) && FirstRootAt(p, v, j2)
    ensures j1 == j2
  {
    BeforeFirst(p, v, j1);
    BeforeFirst(p, v, j2);
  }

  /** The number of parent steps from `v` to its root. */
  ghost function Depth(p: seq<int>, v: int): (d: nat)
    requires Acyclic(p) && 0 <= v < |p|
    ensures FirstRootAt(p, v, d)
  {
    assert HasRoot(p, v);
    var k: nat :| IsRootAt(p, v, k);
    FirstExists(p, v, k);
    var j: nat :| FirstRootAt(p, v, j);
    j
  }

  /** The root of the tree holding `v`. */
  ghost function Root(p: seq<int>, v: int): (r: int)
    requires Acyclic(p) && 0 <= v < |p|
    ensures 0 <= r < |p| && p[r] == -1
  {
    Up(p, v, Depth(p, v))
  }

  lemma DepthStep(p: seq<int>, v: int)
    requires Acyclic(p) && 0 <= v < |p| && p[v] != -1
    ensures Depth(p, v) >= 1 && Depth(p, p[v]) == Depth(p, v) - 1
    ensures Root(p, p[v]) == Root(p, v)
  {
    var d := Depth(p, v);
    assert FirstRootAt(p, p[v], d - 1);
    FirstUnique(p, p[v], d - 1, Depth(p, p[v]));
  }

  lemma RootOfRoot(p: seq<int>, v: int)
    requires Acyclic(p) && 0 <= v < |p| && p[v] == -1
    ensures Root(p, v) == v
  {
    assert FirstRootAt(p, v, 0);
    FirstUnique(p, v, 0, Depth(p, v));
  }

  // ---------------------------------------------------------------------------
  // The operations

  /** `find`: follows parent links up to the root of `v`'s tree. */
  function Find(p: seq<int>, v: int): (r: int)
    requires Acyclic(p) && 0 <= v < |p|
    ensures 0 <= r < |p| && p[r] == -1
    ensures r == Root(p, v)
    decreases Depth(p, v)
  {
    if p[v] == -1 then
      RootOfRoot(p, v);
      v
    else
      DepthStep(p, v);
      Find(p, p[v])
  }

  /** `union`: hangs the root of `x`'s tree under the root of `y`'s tree. */
  function Union(p: seq<int>, x: int, y: int): (q: seq<int>)
    requires Acyclic(p) && 0 <= x < |p| && 0 <= y < |p|
    ensures |q| == |p| && Valid(q)
    ensures q[Root(p, x)] == Root(p, y)
    ensures forall v :: 0 <= v < |p| && v != Root(p, x) ==> q[v] == p[v]
  {
    var xParent := Find(p, x);
    var yParent := Find(p, y);
    p[xParent := yParent]
  }

  /** The roots of the forest. */
  ghost function Roots(p: seq<int>): set<int>
  {
    set r | 0 <= r < |p| && p[r] == -1
  }

  // ---------------------------------------------------------------------------
  // Union of two trees

  /** Steps that do not reach the root of `v` in `p` are the same in `q`,
      where `q` only changes the root `rx`. */
  lemma {:induction false} UpAgree(p: seq<int>, q: seq<int>, rx: int, v: int, k: nat)
    requires Valid(p) && Valid(q) && |q| == |p| && 0 <= rx < |p| && p[rx] == -1
    requires forall w :: 0 <= w < |p| && w != rx ==> q[w] == p[w]
    requires 0 <= v < |p| && forall j: nat :: j < k ==> !IsRootAt(p, v, j)
    ensures Up(q, v, k) == Up(p, v, k)
    decreases k
  {
    if k > 0 {
      assert !IsRootAt(p, v, 0);
      forall j: nat | j < k - 1
        ensures !IsRootAt(p, p[v], j)
      {
        assert !IsRootAt(p, v, j + 1);
      }
      UpAgree(p, q, rx, p[v], k - 1);
    }
  }

  /** How the root of one vertex changes when the root `rx` is hung under
      the different root `ry`. */
  lemma UnionVertex(p: seq<int>, q: seq<int>, rx: int, ry: int, v: int)
    requires Acyclic(p) && 0 <= rx < |p| && 0 <= ry < |p| && p[rx] == -1 && p[ry] == -1 && rx != ry
    requires q == p[rx := ry] && 0 <= v < |p|
    ensures Valid(q)
    ensures Root(p, v) != rx ==> FirstRootAt(q, v, Depth(p, v)) && Up(q, v, Depth(p, v)) == Root(p, v)
    ensures Root(p, v) == rx ==> FirstRootAt(q, v, Depth(p, v) + 1) && Up(q, v, Depth(p, v) + 1) == ry
  {
    var d := Depth(p, v);
    BeforeFirst(p, v, d);
    UpAgree(p, q, rx, v, d);
    if d > 0 {
      forall j: nat | j < d - 1
        ensures !IsRootAt(p, v, j)
      {
      }
      UpAgree(p, q, rx, v, d - 1);
      assert Up(p, v, d - 1) != rx;
    }
    if Root(p, v) == rx {
      UpCompose(q, v, d, 1);
    }
  }

  /** Joining two different trees keeps the forest acyclic, and moves exactly
      the vertices of `x`'s tree into `y`'s tree. */
  lemma UnionMerges(p: seq<int>, x: int, y: int)
    requires Acyclic(p) && 0 <= x < |p| && 0 <= y < |p| && Root(p, x) != Root(p, y)
    ensures Acyclic(Union(p, x, y))
    ensures forall v :: 0 <= v < |p| ==>
              Root(Union(p, x, y), v) == if Root(p, v) == Root(p, x) then Root(p, y) else Root(p, v)
    ensures Roots(Union(p, x, y)) == Roots(p) - {Root(p, x)}
    ensures Root(Union(p, x, y), x) == Root(Union(p, x, y), y) == Root(p, y)
  {
    var rx, ry := Root(p, x), Root(p, y);
    var q := Union(p, x, y);
    assert q == p[rx := ry];
    forall v | 0 <= v < |q|
      ensures HasRoot(q, v)
    {
      UnionVertex(p, q, rx, ry, v);
    }
    assert Acyclic(q);
    forall v | 0 <= v < |p|
      ensures Root(q, v) == if Root(p, v) == rx then ry else Root(p, v)
    {
      UnionVertex(p, q, rx, ry, v);
      var d := Depth(p, v);
      if Root(p, v) == rx {
        FirstUnique(q, v, d + 1, Depth(q, v));
      } else {
        FirstUnique(q, v, d, Depth(q, v));
      }
    }
  }

  lemma {:induction false} UpLoop(q: seq<int>, r: int, k: nat)
    requires Valid(q) && 0 <= r < |q| && q[r] == r
    ensures Up(q, r, k) == r
    decreases k
  {
    if k > 0 {
      UpLoop(q, r, k - 1);
    }
  }

  /** Joining a tree with itself makes its root its own parent, after which
      `find` on it would not return: this is why `kruskal` only joins
      different roots. */
  lemma UnionSameRootCycles(p: seq<int>, x: int, y: int)
    requires Acyclic(p) && 0 <= x < |p| && 0 <= y < |p| && Root(p, x) == Root(p, y)
    ensures !Acyclic(Union(p, x, y))
  {
    var r := Root(p, x);
    var q := Union(p, x, y);
    if HasRoot(q, r) {
      var k: nat :| IsRootAt(q, r, k);
      UpLoop(q, r, k);
      assert false;
    }
  }
}
