/**
 * The disjoint-set forest of the Kruskal animation, as values.
 *
 * Vertices are the indices 0..n-1. A forest holds, for every vertex, its parent
 * pointer and its union-by-height height. The class DisjointSets.DisjointSet
 * keeps the same two tables in arrays and is proved against the functions here.
 */
module UnionFind {

  datatype Forest = Forest(parent: seq<nat>, height: seq<nat>)

  /** Parent pointers stay in range and a non-root is strictly lower than its parent,
      so following parents always ends at a root. */
  predicate Valid(f: Forest) {
    |f.parent| == |f.height| &&
    forall v :: 0 <= v < |f.parent| ==>
      f.parent[v] < |f.parent| && (f.parent[v] != v ==> f.height[v] < f.height[f.parent[v]])
  }

  /** The make-set state: every vertex is its own parent, with height 1. */
  function Singletons(n: nat): (f: Forest)
    ensures Valid(f) && |f.parent| == n
    ensures forall v :: 0 <= v < n ==> f.parent[v] == v && f.height[v] == 1
  {
    Forest(seq(n, v => v), seq(n, v => 1))
  }

  /** The vertices strictly taller than v: the measure that shrinks along parent links. */
  function Taller(f: Forest, v: nat): set<nat>
    requires v < |f.height|
  {
    set u: nat | u < |f.height| && f.height[u] > f.height[v]
  }

  lemma TallerShrinks(f: Forest, v: nat)
    requires Valid(f) && v < |f.parent| && f.parent[v] != v
    ensures Taller(f, f.parent[v]) < Taller(f, v)
  {
    assert f.parent[v] in Taller(f, v);
  }

  /** The representative of v's set: the root reached by following parents. */
  function Root(f: Forest, v: nat): (r: nat)
    requires Valid(f) && v < |f.parent|
    ensures r < |f.parent| && f.parent[r] == r
    ensures f.height[v] <= f.height[r]
    decreases Taller(f, v)
  {
    if f.parent[v] == v then v
    else
      TallerShrinks(f, v);
      Root(f, f.parent[v])
  }

  /** The vertices strictly below the root on the way up from v, v first. */
  function Path(f: Forest, v: nat): seq<nat>
    requires Valid(f) && v < |f.parent|
    decreases Taller(f, v)
  {
    if f.parent[v] == v then []
    else
      TallerShrinks(f, v);
      [v] + Path(f, f.parent[v])
  }

  /** Every vertex on v's path is a non-root of v's tree, no lower than v and
      strictly lower than the root. */
  lemma {:induction false} PathFacts(f: Forest, v: nat)
    requires Valid(f) && v < |f.parent|
    ensures forall u :: u in Path(f, v) ==>
      u < |f.parent| && f.parent[u] != u && f.height[v] <= f.height[u] &&
      f.height[u] < f.height[Root(f, v)] && Root(f, u) == Root(f, v)
    decreases Taller(f, v)
  {
    if f.parent[v] != v {
      TallerShrinks(f, v);
      PathFacts(f, f.parent[v]);
    }
  }

  /** The forest after find(v): the recursive call first compresses the path above v,
      then v itself is pointed at the root. */
  function Compress(f: Forest, v: nat): (g: Forest)
    requires Valid(f) && v < |f.parent|
    ensures |g.parent| == |f.parent| && g.height == f.height
    decreases Taller(f, v)
  {
    if f.parent[v] == v then f
    else
      TallerShrinks(f, v);
      var g := Compress(f, f.parent[v]);
      Forest(g.parent[v := Root(f, v)], g.height)
  }

  /** Compression points exactly the vertices of v's former path at the root and
      leaves every other parent pointer alone. */
  lemma {:induction false} CompressPointers(f: Forest, v: nat)
    requires Valid(f) && v < |f.parent|
    ensures forall u :: 0 <= u < |f.parent| ==>
      Compress(f, v).parent[u] == if u in Path(f, v) then Root(f, v) else f.parent[u]
    decreases Taller(f, v)
  {
    if f.parent[v] != v {
      TallerShrinks(f, v);
      CompressPointers(f, f.parent[v]);
      PathFacts(f, f.parent[v]);
    }
  }

  /** Compression keeps the forest well formed. */
  lemma CompressValid(f: Forest, v: nat)
    requires Valid(f) && v < |f.parent|
    ensures Valid(Compress(f, v))
  {
    CompressPointers(f, v);
    PathFacts(f, v);
  }

  /** Compression does not change the partition: every vertex keeps its root. */
  lemma CompressRoots(f: Forest, v: nat)
    requires Valid(f) && v < |f.parent|
    ensures Valid(Compress(f, v))
    ensures forall u :: 0 <= u < |f.parent| ==> Root(Compress(f, v), u) == Root(f, u)
  {
    CompressValid(f, v);
    CompressPointers(f, v);
    PathFacts(f, v);
    forall u | 0 <= u < |f.parent| ensures Root(Compress(f, v), u) == Root(f, u) {
      CompressRootAt(f, v, u);
    }
  }

  lemma {:induction false} CompressRootAt(f: Forest, v: nat, u: nat)
    requires Valid(f) && v < |f.parent| && u < |f.parent|
    requires Valid(Compress(f, v))
    requires forall x :: 0 <= x < |f.parent| ==>
      Compress(f, v).parent[x] == if x in Path(f, v) then Root(f, v) else f.parent[x]
    requires forall x :: x in Path(f, v) ==> x < |f.parent| && f.parent[x] != x && Root(f, x) == Root(f, v)
    ensures Root(Compress(f, v), u) == Root(f, u)
    decreases Taller(f, u)
  {
    var g := Compress(f, v);
    if u in Path(f, v) {
      var r := Root(f, v);
      assert g.parent[r] == r;
    } else if f.parent[u] != u {
      TallerShrinks(f, u);
      CompressRootAt(f, v, f.parent[u]);
    }
  }

  /** After find(v), v hangs directly below its root (or is the root), so a second
      find(v) follows at most one link. */
  lemma CompressFlattens(f: Forest, v: nat)
    requires Valid(f) && v < |f.parent|
    ensures Valid(Compress(f, v))
    ensures Compress(f, v).parent[v] == Root(f, v)
    ensures Root(Compress(f, v), v) == Root(f, v)
    ensures |Path(Compress(f, v), v)| <= |Path(f, v)| && |Path(Compress(f, v), v)| <= 1
  {
    CompressRoots(f, v);
    CompressPointers(f, v);
    var g := Compress(f, v);
    var r := Root(f, v);
    if f.parent[v] != v {
      assert v in Path(f, v);
      assert g.parent[r] == r;
      assert Path(g, r) == [];
      assert Path(g, v) == [v];
    }
  }

  /** The linking step of union on two roots: the shorter root goes under the taller;
      on a tie root2 goes under root1 and root1 grows by one. */
  function Link(f: Forest, r1: nat, r2: nat): (g: Forest)
    requires Valid(f) && r1 < |f.parent| && r2 < |f.parent|
    ensures |g.parent| == |f.parent| && |g.height| == |f.height|
  {
    if r1 == r2 then f
    else if f.height[r1] < f.height[r2] then Forest(f.parent[r1 := r2], f.height)
    else if f.height[r1] > f.height[r2] then Forest(f.parent[r2 := r1], f.height)
    else Forest(f.parent[r2 := r1], f.height[r1 := f.height[r1] + 1])
  }

  /** The root that survives linking r1 and r2. */
  function Survivor(f: Forest, r1: nat, r2: nat): nat
    requires |f.height| == |f.parent| && r1 < |f.parent| && r2 < |f.parent|
  {
    if f.height[r1] < f.height[r2] then r2 else r1
  }

  /** Linking two distinct roots keeps the forest well formed, changes only the parent of
      the root that loses, raises only root1's height and only on a tie, and sends every
      vertex of either tree to the surviving root. */
  lemma LinkSpec(f: Forest, r1: nat, r2: nat)
    requires Valid(f) && r1 < |f.parent| && r2 < |f.parent|
    requires f.parent[r1] == r1 && f.parent[r2] == r2 && r1 != r2
    ensures Valid(Link(f, r1, r2))
    ensures var s := Survivor(f, r1, r2); var loser := if s == r1 then r2 else r1;
      Link(f, r1, r2).parent == f.parent[loser := s] &&
      f.height[loser] <= f.height[s]
    ensures forall x :: 0 <= x < |f.height| ==>
      Link(f, r1, r2).height[x] ==
        f.height[x] + (if x == r1 && f.height[r1] == f.height[r2] then 1 else 0)
    ensures forall u :: 0 <= u < |f.parent| ==>
      Root(Link(f, r1, r2), u) ==
        if Root(f, u) == r1 || Root(f, u) == r2 then Survivor(f, r1, r2) else Root(f, u)
  {
    var g := Link(f, r1, r2);
    forall u | 0 <= u < |f.parent|
      ensures Root(g, u) == if Root(f, u) == r1 || Root(f, u) == r2 then Survivor(f, r1, r2) else Root(f, u)
    {
      LinkRootAt(f, r1, r2, u);
    }
  }

  lemma {:induction false} LinkRootAt(f: Forest, r1: nat, r2: nat, u: nat)
    requires Valid(f) && r1 < |f.parent| && r2 < |f.parent| && u < |f.parent|
    requires f.parent[r1] == r1 && f.parent[r2] == r2 && r1 != r2
    ensures Valid(Link(f, r1, r2))
    ensures Root(Link(f, r1, r2), u) ==
      if Root(f, u) == r1 || Root(f, u) == r2 then Survivor(f, r1, r2) else Root(f, u)
    decreases Taller(f, u)
  {
    var g := Link(f, r1, r2);
    var s := Survivor(f, r1, r2);
    assert Valid(g) by {
      forall x | 0 <= x < |g.parent|
        ensures g.parent[x] < |g.parent| && (g.parent[x] != x ==> g.height[x] < g.height[g.parent[x]])
      {
        if g.parent[x] != x && x != r1 && x != r2 {
          assert g.parent[x] == f.parent[x];
        }
      }
    }
    if f.parent[u] == u {
      if u != s && (u == r1 || u == r2) {
        assert g.parent[u] == s && g.parent[s] == s;
      }
    } else {
      assert g.parent[u] == f.parent[u];
      TallerShrinks(f, u);
      LinkRootAt(f, r1, r2, f.parent[u]);
    }
  }

  /** union(v1, v2): find(v1), then find(v2) on the compressed forest, then link the two
      roots found. */
  function Unite(f: Forest, v1: nat, v2: nat): (g: Forest)
    requires Valid(f) && v1 < |f.parent| && v2 < |f.parent|
    ensures |g.parent| == |f.parent|
  {
    CompressValid(f, v1);
    var f1 := Compress(f, v1);
    CompressValid(f1, v2);
    var f2 := Compress(f1, v2);
    Link(f2, Root(f, v1), Root(f1, v2))
  }

  /** union keeps the forest well formed and merges exactly the two sets of v1 and v2:
      afterwards they share a root, one of their two old roots, and every other vertex
      keeps its root. When the roots already agree only compression has happened. */
  lemma UniteSpec(f: Forest, v1: nat, v2: nat)
    requires Valid(f) && v1 < |f.parent| && v2 < |f.parent|
    ensures Valid(Unite(f, v1, v2))
    ensures Root(Unite(f, v1, v2), v1) == Root(Unite(f, v1, v2), v2)
    ensures Root(Unite(f, v1, v2), v1) == Root(f, v1) || Root(Unite(f, v1, v2), v1) == Root(f, v2)
    ensures forall u :: 0 <= u < |f.parent| ==>
      Root(Unite(f, v1, v2), u) ==
        if Root(f, u) == Root(f, v1) || Root(f, u) == Root(f, v2) then Root(Unite(f, v1, v2), v1)
        else Root(f, u)
    ensures Valid(Compress(f, v1))
    ensures Root(f, v1) == Root(f, v2) ==> Unite(f, v1, v2) == Compress(Compress(f, v1), v2)
  {
    CompressRoots(f, v1);
    var f1 := Compress(f, v1);
    CompressRoots(f1, v2);
    var f2 := Compress(f1, v2);
    var r1, r2 := Root(f, v1), Root(f1, v2);
    assert r2 == Root(f, v2);
    assert Root(f2, r1) == r1 && Root(f2, r2) == r2;
    var g := Link(f2, r1, r2);
    if r1 != r2 {
      LinkSpec(f2, r1, r2);
    }
    forall u | 0 <= u < |f.parent|
      ensures Root(g, u) == if Root(f, u) == r1 || Root(f, u) == r2 then Root(g, r1) else Root(f, u)
    {
      assert Root(f2, u) == Root(f, u);
    }
  }

  /** Union by height: a union of two different sets raises the surviving root's height by
      one exactly when both trees had the same height, and changes no other height. */
  lemma UniteHeights(f: Forest, v1: nat, v2: nat)
    requires Valid(f) && v1 < |f.parent| && v2 < |f.parent|
    ensures var r1, r2 := Root(f, v1), Root(f, v2);
      forall x :: 0 <= x < |f.height| ==>
        Unite(f, v1, v2).height[x] ==
          f.height[x] + (if x == r1 && r1 != r2 && f.height[r1] == f.height[r2] then 1 else 0)
  {
    CompressRoots(f, v1);
    var f1 := Compress(f, v1);
    CompressRoots(f1, v2);
    var f2 := Compress(f1, v2);
    var r1, r2 := Root(f1, v1), Root(f1, v2);
    assert Root(f2, r1) == r1 && Root(f2, r2) == r2;
    if r1 != r2 {
      LinkSpec(f2, r1, r2);
    }
  }
}
