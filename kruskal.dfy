/**
 * Kruskal's selection loop of runKruskals, and the reference it is proved against.
 *
 * The reference keeps the components of the graph built so far as a labelling
 * (vertex x lies in the component named lab[x]) instead of a union-find forest.
 * Select is the greedy scan on labellings; RunKruskal is the loop of the program
 * on the union-find arrays, and its contract says it computes what Select computes.
 */
module Kruskal {
  import opened UnionFind
  import opened DisjointSets
  import opened Graph

  // ---------------------------------------------------------------------------
  // Components as labellings

  /** Every vertex alone in its own component. */
  function Identity(n: nat): seq<nat> {
    seq(n, x => x)
  }

  /** Joins the components of a and b: the vertices labelled like b take a's label. */
  function Merge(lab: seq<nat>, a: nat, b: nat): (m: seq<nat>)
    requires a < |lab| && b < |lab|
    ensures |m| == |lab|
  {
    seq(|lab|, x requires 0 <= x < |lab| => if lab[x] == lab[b] then lab[a] else lab[x])
  }

  /** The components of the graph on the vertices 0..n-1 with the edges es. */
  function Components(n: nat, es: seq<Edge>): (lab: seq<nat>)
    requires Within(n, es)
    ensures |lab| == n
  {
    if es == [] then Identity(n)
    else
      var last := es[|es| - 1];
      Merge(Components(n, es[..|es| - 1]), last.u, last.v)
  }

  /** All vertices in one component. */
  predicate Connected(lab: seq<nat>) {
    forall x :: 0 <= x < |lab| ==> lab[x] == lab[0]
  }

  /** The names of the components. */
  function Classes(lab: seq<nat>): set<nat> {
    set x | 0 <= x < |lab| :: lab[x]
  }

  /** Every edge joins two different components of the edges before it. An edge closes a
      cycle exactly when its ends are already connected, so this says es is a forest. */
  predicate Acyclic(n: nat, es: seq<Edge>)
    requires Within(n, es)
  {
    es == [] ||
    var init, last := es[..|es| - 1], es[|es| - 1];
    Acyclic(n, init) && Components(n, init)[last.u] != Components(n, init)[last.v]
  }

  /** a occurs in b in the same order: a is a subsequence of b. */
  ghost predicate InOrder(a: seq<Edge>, b: seq<Edge>) {
    exists idx: seq<nat> :: |idx| == |a| &&
      (forall k :: 0 <= k < |a| ==> idx[k] < |b| && a[k] == b[idx[k]]) &&
      (forall k, l :: 0 <= k < l < |a| ==> idx[k] < idx[l])
  }

  /** n vertices start as n components. */
  lemma {:induction false} IdentityClasses(n: nat)
    ensures |Classes(Identity(n))| == n
  {
    if n > 0 {
      IdentityClasses(n - 1);
      var small, big := Identity(n - 1), Identity(n);
      assert Classes(big) == Classes(small) + {n - 1} by {
        forall y | y in Classes(big) ensures y in Classes(small) + {n - 1} {
          var x :| 0 <= x < n && big[x] == y;
          if x < n - 1 { assert small[x] == y; }
        }
        forall y | y in Classes(small) ensures y in Classes(big) {
          var x :| 0 <= x < n - 1 && small[x] == y;
          assert big[x] == y;
        }
        assert big[n - 1] == n - 1;
      }
      assert n - 1 !in Classes(small);
    }
  }

  /** Merging two different components removes exactly one component name. */
  lemma MergeClasses(lab: seq<nat>, a: nat, b: nat)
    requires a < |lab| && b < |lab| && lab[a] != lab[b]
    ensures Classes(Merge(lab, a, b)) == Classes(lab) - {lab[b]}
    ensures |Classes(Merge(lab, a, b))| == |Classes(lab)| - 1
  {
    var m := Merge(lab, a, b);
    forall y | y in Classes(lab) - {lab[b]} ensures y in Classes(m) {
      var x :| 0 <= x < |lab| && lab[x] == y;
      assert m[x] == y;
    }
    assert lab[a] in Classes(lab);
    assert lab[b] in Classes(lab);
  }

  /** Merging keeps every pair that was together together, and puts a and b together. */
  lemma MergeJoins(lab: seq<nat>, a: nat, b: nat)
    requires a < |lab| && b < |lab|
    ensures Merge(lab, a, b)[a] == Merge(lab, a, b)[b]
    ensures forall x, y :: 0 <= x < |lab| && 0 <= y < |lab| && lab[x] == lab[y] ==>
      Merge(lab, a, b)[x] == Merge(lab, a, b)[y]
  {
  }

  /** A non-empty labelling is connected exactly when it names a single component. */
  lemma OneClass(lab: seq<nat>)
    requires |lab| > 0
    ensures Connected(lab) <==> |Classes(lab)| == 1
  {
    assert lab[0] in Classes(lab);
    if Connected(lab) {
      assert Classes(lab) == {lab[0]};
    } else {
      var x :| 0 <= x < |lab| && lab[x] != lab[0];
      assert lab[x] in Classes(lab) - {lab[0]};
      assert |Classes(lab) - {lab[0]}| == |Classes(lab)| - 1;
    }
  }

  // ---------------------------------------------------------------------------
  // The greedy scan

  datatype Selection = Selection(accepted: seq<Edge>, comp: seq<nat>)

  /** Scans es in order, accepting an edge exactly when its ends lie in different
      components, which it then joins. */
  function Select(n: nat, es: seq<Edge>): (s: Selection)
    requires Within(n, es)
    ensures |s.comp| == n
  {
    if es == [] then Selection([], Identity(n))
    else
      var prev := Select(n, es[..|es| - 1]);
      var e := es[|es| - 1];
      if prev.comp[e.u] != prev.comp[e.v] then Selection(prev.accepted + [e], Merge(prev.comp, e.u, e.v))
      else prev
  }

  /** The components Select keeps are those of the edges it accepted, and each accepted
      edge joined two different components: the accepted edges form a forest. */
  lemma {:induction false} SelectForest(n: nat, es: seq<Edge>)
    requires Within(n, es)
    ensures Within(n, Select(n, es).accepted)
    ensures Select(n, es).comp == Components(n, Select(n, es).accepted)
    ensures Acyclic(n, Select(n, es).accepted)
  {
    if es != [] {
      var init := es[..|es| - 1];
      SelectForest(n, init);
      var prev := Select(n, init);
      var e := es[|es| - 1];
      if prev.comp[e.u] != prev.comp[e.v] {
        var acc := prev.accepted + [e];
        assert acc[..|acc| - 1] == prev.accepted;
      }
    }
  }

  /** Select accepts the edges it accepts in the order it scans them. */
  lemma {:induction false} SelectInOrder(n: nat, es: seq<Edge>)
    requires Within(n, es)
    ensures InOrder(Select(n, es).accepted, es)
  {
    if es == [] {
      var none: seq<nat> := [];
      assert |none| == 0;
    } else {
      var init, e := es[..|es| - 1], es[|es| - 1];
      assert es == init + [e];
      SelectInOrder(n, init);
      var prev := Select(n, init).accepted;
      if Select(n, es).accepted == prev {
        InOrderSkip(prev, init, e);
      } else {
        InOrderTake(prev, init, e);
      }
    }
  }

  lemma InOrderSkip(a: seq<Edge>, b: seq<Edge>, x: Edge)
    requires InOrder(a, b)
    ensures InOrder(a, b + [x])
  {
    var idx: seq<nat> :| |idx| == |a| &&
      (forall k :: 0 <= k < |a| ==> idx[k] < |b| && a[k] == b[idx[k]]) &&
      (forall k, l :: 0 <= k < l < |a| ==> idx[k] < idx[l]);
    assert forall k :: 0 <= k < |a| ==> idx[k] < |b + [x]| && a[k] == (b + [x])[idx[k]];
  }

  lemma InOrderTake(a: seq<Edge>, b: seq<Edge>, x: Edge)
    requires InOrder(a, b)
    ensures InOrder(a + [x], b + [x])
  {
    var idx: seq<nat> :| |idx| == |a| &&
      (forall k :: 0 <= k < |a| ==> idx[k] < |b| && a[k] == b[idx[k]]) &&
      (forall k, l :: 0 <= k < l < |a| ==> idx[k] < idx[l]);
    var idx' := idx + [|b|];
    var a', b' := a + [x], b + [x];
    assert |idx'| == |a'|;
    forall k | 0 <= k < |a'| ensures idx'[k] < |b'| && a'[k] == b'[idx'[k]] {
      if k < |a| {
        assert idx'[k] == idx[k] && a'[k] == a[k] && b'[idx[k]] == b[idx[k]];
      }
    }
    assert forall k, l :: 0 <= k < l < |a'| ==> idx'[k] < idx'[l];
  }

  /** After the scan, the two ends of every scanned edge are in one component. */
  lemma {:induction false} SelectConnects(n: nat, es: seq<Edge>)
    requires Within(n, es)
    ensures forall k :: 0 <= k < |es| ==> Select(n, es).comp[es[k].u] == Select(n, es).comp[es[k].v]
  {
    if es != [] {
      var init := es[..|es| - 1];
      SelectConnects(n, init);
      var prev := Select(n, init);
      var e := es[|es| - 1];
      if prev.comp[e.u] != prev.comp[e.v] {
        MergeJoins(prev.comp, e.u, e.v);
      }
    }
  }

  /** Each accepted edge removes one component: components + accepted edges == n. */
  lemma {:induction false} SelectCount(n: nat, es: seq<Edge>)
    requires Within(n, es)
    ensures |Classes(Select(n, es).comp)| + |Select(n, es).accepted| == n
  {
    if es == [] {
      IdentityClasses(n);
    } else {
      var init := es[..|es| - 1];
      SelectCount(n, init);
      var prev := Select(n, init);
      var e := es[|es| - 1];
      if prev.comp[e.u] != prev.comp[e.v] {
        MergeClasses(prev.comp, e.u, e.v);
      }
    }
  }

  /** Scanning every pair of the complete graph leaves one component, so n - 1 edges are
      accepted by the end of the list: the loop of runKruskals never runs out of edges. */
  lemma CompleteScan(n: nat, es: seq<Edge>, w: (nat, nat) -> int)
    requires Within(n, es)
    requires forall i, j :: 0 <= i < j < n ==> Edge(i, j, w(i, j)) in es
    ensures Connected(Select(n, es).comp)
    ensures |Select(n, es).accepted| == if n == 0 then 0 else n - 1
  {
    var comp := Select(n, es).comp;
    SelectConnects(n, es);
    forall x | 0 < x < n ensures comp[x] == comp[0] {
      assert Edge(0, x, w(0, x)) in es;
      var k :| 0 <= k < |es| && es[k] == Edge(0, x, w(0, x));
    }
    SelectCount(n, es);
    if n > 0 {
      OneClass(comp);
    }
  }

  /** The scan stops at k: n - 1 edges are accepted from the first k edges but not from
      the first k - 1 (for n <= 1 the scan stops at once). */
  predicate StopsAt(n: nat, es: seq<Edge>, k: nat)
    requires Within(n, es)
  {
    k <= |es| && |Select(n, es[..k]).accepted| >= n - 1 &&
    (k > 0 ==> |Select(n, es[..k - 1]).accepted| < n - 1)
  }

  /** Where the scan stops, no shorter prefix yields n - 1 edges: k is the first such
      prefix length. */
  lemma StopsAtFirst(n: nat, es: seq<Edge>, k: nat)
    requires Within(n, es) && StopsAt(n, es, k)
    ensures forall j :: 0 <= j < k ==> |Select(n, es[..j]).accepted| < n - 1
  {
    forall j | 0 <= j < k ensures |Select(n, es[..j]).accepted| < n - 1 {
      SelectGrows(n, es, j, k - 1);
    }
  }

  /** Where the scan stops is determined by the list. */
  lemma StopsAtUnique(n: nat, es: seq<Edge>, k1: nat, k2: nat)
    requires Within(n, es) && StopsAt(n, es, k1) && StopsAt(n, es, k2)
    ensures k1 == k2
  {
    StopsAtFirst(n, es, k1);
    StopsAtFirst(n, es, k2);
  }

  // ---------------------------------------------------------------------------
  // The union-find forest agrees with the labelling

  /** Two vertices share a root exactly when they share a label. */
  ghost predicate SamePartition(f: Forest, lab: seq<nat>) {
    UnionFind.Valid(f) && |f.parent| == |lab| &&
    forall x, y :: 0 <= x < |lab| && 0 <= y < |lab| ==> (Root(f, x) == Root(f, y) <==> lab[x] == lab[y])
  }

  lemma PartitionStart(n: nat)
    ensures SamePartition(Singletons(n), Identity(n))
  {
    forall x | 0 <= x < n ensures Root(Singletons(n), x) == x {
    }
  }

  /** find changes no root, so the forest keeps describing the same components. */
  lemma PartitionCompress(f: Forest, lab: seq<nat>, v: nat)
    requires SamePartition(f, lab) && v < |lab|
    ensures SamePartition(Compress(f, v), lab)
  {
    CompressRoots(f, v);
  }

  /** union of two vertices in different components describes the merged labelling. */
  lemma PartitionUnite(f: Forest, lab: seq<nat>, a: nat, b: nat)
    requires SamePartition(f, lab) && a < |lab| && b < |lab| && lab[a] != lab[b]
    ensures SamePartition(Unite(f, a, b), Merge(lab, a, b))
  {
    UniteSpec(f, a, b);
  }

  /** One turn of the loop on the forest: find(u), find(v), and union(u, v) when the two
      roots differ. The roots differ exactly when the labels do, and afterwards the forest
      describes the labelling Select has after the edge. */
  lemma PartitionStep(f0: Forest, lab: seq<nat>, u: nat, v: nat)
    requires SamePartition(f0, lab) && u < |lab| && v < |lab|
    ensures UnionFind.Valid(Compress(f0, u))
    ensures SamePartition(Compress(Compress(f0, u), v), lab)
    ensures (Root(f0, u) != Root(Compress(f0, u), v)) == (lab[u] != lab[v])
    ensures lab[u] != lab[v] ==>
      SamePartition(Unite(Compress(Compress(f0, u), v), u, v), Merge(lab, u, v))
  {
    PartitionCompress(f0, lab, u);
    CompressRoots(f0, u);
    var f1 := Compress(f0, u);
    PartitionCompress(f1, lab, v);
    var f2 := Compress(f1, v);
    if lab[u] != lab[v] {
      PartitionUnite(f2, lab, u, v);
    }
  }

  /** Scanning one more edge of the list. */
  lemma SelectNext(n: nat, es: seq<Edge>, k: nat)
    requires Within(n, es) && k < |es|
    ensures var prev, e := Select(n, es[..k]), es[k];
      Select(n, es[..k + 1]) ==
        if prev.comp[e.u] != prev.comp[e.v] then Selection(prev.accepted + [e], Merge(prev.comp, e.u, e.v))
        else prev
  {
    assert es[..k + 1][..k] == es[..k];
  }

  // ---------------------------------------------------------------------------
  // The loop of runKruskals

  /** Scanning further never un-accepts an edge. */
  lemma {:induction false} SelectGrows(n: nat, es: seq<Edge>, j: nat, k: nat)
    requires Within(n, es) && j <= k <= |es|
    ensures |Select(n, es[..j]).accepted| <= |Select(n, es[..k]).accepted|
    decreases k
  {
    if j < k {
      SelectGrows(n, es, j, k - 1);
      SelectNext(n, es, k - 1);
    }
  }

  /** What holds each time the loop of runKruskals tests its condition: k edges of es have
      been scanned, acc are the ones Select accepts from them, the forest f describes
      Select's components, and before the last scan fewer than n - 1 were accepted. */
  ghost predicate ScanInv(n: nat, es: seq<Edge>, k: nat, acc: seq<Edge>, f: Forest) {
    Within(n, es) && k <= |es| &&
    acc == Select(n, es[..k]).accepted &&
    SamePartition(f, Select(n, es[..k]).comp) &&
    (k > 0 ==> |Select(n, es[..k - 1]).accepted| < n - 1)
  }

  lemma ScanStart(n: nat, es: seq<Edge>)
    requires Within(n, es)
    ensures ScanInv(n, es, 0, [], Singletons(n))
  {
    PartitionStart(n);
  }

  /** While fewer than n - 1 edges are accepted, the complete list has an edge left. */
  lemma ScanContinues(n: nat, es: seq<Edge>, w: (nat, nat) -> int, k: nat, acc: seq<Edge>, f: Forest)
    requires ScanInv(n, es, k, acc, f) && |acc| < n - 1
    requires forall i, j :: 0 <= i < j < n ==> Edge(i, j, w(i, j)) in es
    ensures k < |es|
  {
    if k == |es| {
      assert es[..k] == es;
      CompleteScan(n, es[..k], w);
    }
  }

  /** One turn of the loop: find on both ends, and union plus append when the roots differ. */
  lemma ScanStep(n: nat, es: seq<Edge>, k: nat, acc: seq<Edge>, f0: Forest)
    requires ScanInv(n, es, k, acc, f0) && k < |es| && |acc| < n - 1
    ensures var e := es[k];
      UnionFind.Valid(Compress(f0, e.u)) && UnionFind.Valid(Compress(Compress(f0, e.u), e.v))
    ensures var e := es[k]; var f1 := Compress(f0, e.u); var f2 := Compress(f1, e.v);
      if Root(f0, e.u) != Root(f1, e.v) then ScanInv(n, es, k + 1, acc + [e], Unite(f2, e.u, e.v))
      else ScanInv(n, es, k + 1, acc, f2)
  {
    var e := es[k];
    var sel := Select(n, es[..k]);
    SelectNext(n, es, k);
    PartitionStep(f0, sel.comp, e.u, e.v);
    assert es[..k + 1][..k] == es[..k];
  }

  /** Once a prefix yields n - 1 accepted edges, they are exactly n - 1, form a spanning
      tree, and the scan's labelling is a single component. */
  lemma SelectDone(n: nat, pre: seq<Edge>)
    requires Within(n, pre) && |Select(n, pre).accepted| >= n - 1
    ensures |Select(n, pre).accepted| == if n == 0 then 0 else n - 1
    ensures Connected(Select(n, pre).comp)
    ensures Within(n, Select(n, pre).accepted) && Acyclic(n, Select(n, pre).accepted)
    ensures Connected(Components(n, Select(n, pre).accepted))
  {
    var s := Select(n, pre);
    SelectCount(n, pre);
    SelectForest(n, pre);
    if n > 0 {
      assert s.comp[0] in Classes(s.comp);
      OneClass(s.comp);
    }
  }

  /** A forest describing a single component has one root. */
  lemma PartitionConnected(f: Forest, lab: seq<nat>)
    requires SamePartition(f, lab) && Connected(lab)
    ensures forall x :: 0 <= x < |lab| ==> Root(f, x) == Root(f, 0)
  {
  }

  /** The edges accepted when the loop stops form a spanning tree, and every vertex has
      the same root. */
  lemma ScanDone(n: nat, es: seq<Edge>, k: nat, acc: seq<Edge>, f: Forest)
    requires ScanInv(n, es, k, acc, f) && |acc| >= n - 1
    ensures |acc| == (if n == 0 then 0 else n - 1)
    ensures Within(n, acc) && Acyclic(n, acc) && Connected(Components(n, acc))
    ensures forall x :: 0 <= x < n ==> Root(f, x) == Root(f, 0)
  {
    var pre := es[..k];
    SelectDone(n, pre);
    PartitionConnected(f, Select(n, pre).comp);
  }

  /** The sorted complete edge list that the loop scans. */
  lemma SortedPairs(n: nat, w: (nat, nat) -> int)
    ensures Within(n, SortByWeight(Pairs(n, w)))
    ensures forall i, j :: 0 <= i < j < n ==> Edge(i, j, w(i, j)) in SortByWeight(Pairs(n, w))
    ensures NonDecreasing(SortByWeight(Pairs(n, w)))
    ensures 2 * |SortByWeight(Pairs(n, w))| == n * (n - 1)
  {
    var pairs := Pairs(n, w);
    var sorted := SortByWeight(pairs);
    SortSpec(pairs);
    PairsShape(n, w);
    PairsNested(n, w);
    PairsCount(n, w);
    forall k | 0 <= k < |sorted| ensures sorted[k].u < n && sorted[k].v < n {
      assert sorted[k] in multiset(pairs);
    }
    forall i, j | 0 <= i < j < n ensures Edge(i, j, w(i, j)) in sorted {
      assert Edge(i, j, w(i, j)) in multiset(sorted);
    }
    assert |multiset(sorted)| == |multiset(pairs)|;
  }

  /** One turn of the loop of runKruskals: take the next edge, find both ends, and when the
      roots differ, union them and accept the edge. */
  method ScanEdge(n: nat, edges: seq<Edge>, k: nat, acc: seq<Edge>, ds: DisjointSet)
    returns (k': nat, acc': seq<Edge>)
    requires ds.Valid() && ScanInv(n, edges, k, acc, ds.Model()) && k < |edges| && |acc| < n - 1
    modifies ds.parent, ds.height
    ensures ds.Valid() && k' == k + 1 && ScanInv(n, edges, k', acc', ds.Model())
  {
    ghost var f0 := ds.Model();
    ScanStep(n, edges, k, acc, f0);
    var e := edges[k];
    k' := k + 1;
    var root1 := ds.Find(e.u);
    ghost var f1 := ds.Model();
    var root2 := ds.Find(e.v);
    ghost var f2 := ds.Model();
    assert f1 == Compress(f0, e.u) && f2 == Compress(f1, e.v);
    assert root1 == Root(f0, e.u) && root2 == Root(f1, e.v);
    if root1 != root2 {
      ds.Union(e.u, e.v);
      acc' := acc + [e];
    } else {
      acc' := acc;
    }
  }

  /** The while loop of runKruskals on the sorted list: make-set for every vertex, then
      scan the edges in order, accepting an edge when find gives its ends different roots,
      until n - 1 edges are accepted. The list holds every pair, so it never runs out. */
  method ScanEdges(n: nat, edges: seq<Edge>, ghost w: (nat, nat) -> int)
    returns (accepted: seq<Edge>, currEdge: nat, tables: Forest)
    requires Within(n, edges)
    requires forall i, j :: 0 <= i < j < n ==> Edge(i, j, w(i, j)) in edges
    ensures StopsAt(n, edges, currEdge)
    ensures accepted == Select(n, edges[..currEdge]).accepted
    ensures |accepted| == if n == 0 then 0 else n - 1
    ensures Within(n, accepted) && Acyclic(n, accepted) && Connected(Components(n, accepted))
    ensures UnionFind.Valid(tables) && |tables.parent| == n
    ensures forall x :: 0 <= x < n ==> Root(tables, x) == Root(tables, 0)
  {
    var ds := new DisjointSet(n);
    ScanStart(n, edges);
    accepted := [];
    currEdge := 0;
    while |accepted| < n - 1
      invariant ds.Valid() && fresh(ds.parent) && fresh(ds.height)
      invariant ScanInv(n, edges, currEdge, accepted, ds.Model())
      decreases |edges| - currEdge
    {
      ScanContinues(n, edges, w, currEdge, accepted, ds.Model());
      currEdge, accepted := ScanEdge(n, edges, currEdge, accepted, ds);
    }
    tables := ds.Model();
    ScanDone(n, edges, currEdge, accepted, tables);
  }

  /** runKruskals from the creation of the edges to the end of its while loop: build all
      pairs, sort them by weight, and scan them. The accepted edges are a spanning tree of
      the n vertices, and they are exactly those the greedy scan of the sorted list accepts
      by the time it has n - 1. */
  method RunKruskal(n: nat, w: (nat, nat) -> int)
    returns (edges: seq<Edge>, accepted: seq<Edge>, currEdge: nat, tables: Forest)
    ensures edges == SortByWeight(Pairs(n, w)) && Within(n, edges)
    ensures StopsAt(n, edges, currEdge)
    ensures accepted == Select(n, edges[..currEdge]).accepted
    ensures |accepted| == if n == 0 then 0 else n - 1
    ensures Within(n, accepted) && Acyclic(n, accepted) && Connected(Components(n, accepted))
    ensures UnionFind.Valid(tables) && |tables.parent| == n
    ensures forall x :: 0 <= x < n ==> Root(tables, x) == Root(tables, 0)
  {
    var pairs := BuildEdges(n, w);
    edges := SortByWeight(pairs);
    SortedPairs(n, w);
    accepted, currEdge, tables := ScanEdges(n, edges, w);
  }
}
