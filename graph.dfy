/**
 * The complete graph that Kruskal's algorithm runs on: one edge per pair of
 * vertices i < j, generated row by row, then stably sorted by weight.
 *
 * A weight is whatever totally ordered key the caller supplies for the pair (i, j);
 * the Euclidean distance of the program is one such key.
 */
module Graph {

  /** An edge from vertex u to vertex v (u < v when generated) with its weight. */
  datatype Edge = Edge(u: nat, v: nat, w: int)

  /** All endpoints are vertices 0..n-1. */
  predicate Within(n: nat, es: seq<Edge>) {
    forall k :: 0 <= k < |es| ==> es[k].u < n && es[k].v < n
  }

  /** Generation order: by first endpoint, then by second. */
  predicate Before(a: Edge, b: Edge) {
    a.u < b.u || (a.u == b.u && a.v < b.v)
  }

  /** The edges (i, i+1), ..., (i, j-1): the inner loop after it has reached j. */
  function Row(w: (nat, nat) -> int, i: nat, j: nat): seq<Edge>
    decreases j
  {
    if j <= i + 1 then [] else Row(w, i, j - 1) + [Edge(i, j - 1, w(i, j - 1))]
  }

  /** Rows 0..i-1 of the n-vertex graph: the outer loop after it has reached i. */
  function Rows(n: nat, w: (nat, nat) -> int, i: nat): seq<Edge>
  {
    if i == 0 then [] else Rows(n, w, i - 1) + Row(w, i - 1, n)
  }

  /** The complete edge list, in generation order. */
  function Pairs(n: nat, w: (nat, nat) -> int): seq<Edge>
  {
    Rows(n, w, n)
  }

  /** Builds the complete edge list with the two nested loops of runKruskals. */
  method BuildEdges(n: nat, w: (nat, nat) -> int) returns (edges: seq<Edge>)
    ensures edges == Pairs(n, w)
    ensures 2 * |edges| == n * (n - 1)
    ensures forall k :: 0 <= k < |edges| ==>
      edges[k].u < edges[k].v < n && edges[k].w == w(edges[k].u, edges[k].v)
  {
    edges := [];
    for i := 0 to n
      invariant edges == Rows(n, w, i)
    {
      for j := i + 1 to n
        invariant edges == Rows(n, w, i) + Row(w, i, j)
      {
        edges := edges + [Edge(i, j, w(i, j))];
      }
    }
    PairsCount(n, w);
    PairsShape(n, w);
  }

  lemma {:induction false} RowFacts(w: (nat, nat) -> int, i: nat, j: nat)
    ensures |Row(w, i, j)| == if j <= i + 1 then 0 else j - i - 1
    ensures forall k :: 0 <= k < |Row(w, i, j)| ==>
      Row(w, i, j)[k] == Edge(i, i + 1 + k, w(i, i + 1 + k))
    decreases j
  {
    if j > i + 1 {
      RowFacts(w, i, j - 1);
    }
  }

  lemma {:induction false} RowsCount(n: nat, w: (nat, nat) -> int, i: nat)
    requires i <= n
    ensures 2 * |Rows(n, w, i)| == i * (2 * n - 1 - i)
  {
    if i > 0 {
      RowsCount(n, w, i - 1);
      RowFacts(w, i - 1, n);
      assert 2 * |Rows(n, w, i)| == (i - 1) * (2 * n - i) + 2 * (n - i);
    }
  }

  /** There are exactly n(n-1)/2 edges. */
  lemma PairsCount(n: nat, w: (nat, nat) -> int)
    ensures 2 * |Pairs(n, w)| == n * (n - 1)
  {
    RowsCount(n, w, n);
  }

  lemma {:induction false} RowsBounds(n: nat, w: (nat, nat) -> int, i: nat)
    requires i <= n
    ensures forall k :: 0 <= k < |Rows(n, w, i)| ==>
      Rows(n, w, i)[k].u < i && Rows(n, w, i)[k].u < Rows(n, w, i)[k].v < n &&
      Rows(n, w, i)[k].w == w(Rows(n, w, i)[k].u, Rows(n, w, i)[k].v)
  {
    if i > 0 {
      RowsBounds(n, w, i - 1);
      RowFacts(w, i - 1, n);
      var prev: seq<Edge>, row: seq<Edge> := Rows(n, w, i - 1), Row(w, i - 1, n);
      forall k | 0 <= k < |prev + row|
        ensures (prev + row)[k].u < i && (prev + row)[k].u < (prev + row)[k].v < n &&
          (prev + row)[k].w == w((prev + row)[k].u, (prev + row)[k].v)
      {
        if k >= |prev| {
          assert (prev + row)[k] == row[k - |prev|];
        }
      }
    }
  }

  lemma {:induction false} RowsOrdered(n: nat, w: (nat, nat) -> int, i: nat)
    requires i <= n
    ensures forall k, l :: 0 <= k < l < |Rows(n, w, i)| ==> Before(Rows(n, w, i)[k], Rows(n, w, i)[l])
  {
    if i > 0 {
      RowsOrdered(n, w, i - 1);
      RowsBounds(n, w, i - 1);
      RowFacts(w, i - 1, n);
      var prev: seq<Edge>, row: seq<Edge> := Rows(n, w, i - 1), Row(w, i - 1, n);
      forall k, l | 0 <= k < l < |prev + row| ensures Before((prev + row)[k], (prev + row)[l]) {
        if l >= |prev| {
          assert (prev + row)[l] == row[l - |prev|];
          if k >= |prev| {
            assert (prev + row)[k] == row[k - |prev|];
          } else {
            assert (prev + row)[k] == prev[k];
          }
        } else {
          assert (prev + row)[k] == prev[k] && (prev + row)[l] == prev[l];
        }
      }
    }
  }

  lemma RowHas(w: (nat, nat) -> int, i: nat, j: nat, b: nat)
    requires i < b < j
    ensures Edge(i, b, w(i, b)) in Row(w, i, j)
  {
    RowFacts(w, i, j);
    assert Row(w, i, j)[b - i - 1] == Edge(i, b, w(i, b));
  }

  lemma {:induction false} RowsHas(n: nat, w: (nat, nat) -> int, i: nat, a: nat, b: nat)
    requires a < i <= n && a < b < n
    ensures Edge(a, b, w(a, b)) in Rows(n, w, i)
  {
    if a == i - 1 {
      RowHas(w, a, n, b);
    } else {
      RowsHas(n, w, i - 1, a, b);
    }
  }

  /** Every edge joins two distinct vertices i < j and carries the weight of that pair. */
  lemma PairsShape(n: nat, w: (nat, nat) -> int)
    ensures forall k :: 0 <= k < |Pairs(n, w)| ==>
      Pairs(n, w)[k].u < Pairs(n, w)[k].v < n &&
      Pairs(n, w)[k].w == w(Pairs(n, w)[k].u, Pairs(n, w)[k].v)
  {
    RowsBounds(n, w, n);
  }

  /** The list is strictly increasing in generation order (so no pair occurs twice) and
      holds every pair i < j < n. */
  lemma PairsNested(n: nat, w: (nat, nat) -> int)
    ensures forall k, l :: 0 <= k < l < |Pairs(n, w)| ==> Before(Pairs(n, w)[k], Pairs(n, w)[l])
    ensures forall i, j :: 0 <= i < j < n ==> Edge(i, j, w(i, j)) in Pairs(n, w)
  {
    RowsOrdered(n, w, n);
    forall i, j | 0 <= i < j < n ensures Edge(i, j, w(i, j)) in Pairs(n, w) {
      RowsHas(n, w, n, i, j);
    }
  }

  // ---------------------------------------------------------------------------
  // Sorting by weight

  /** Inserts e into a weight-sorted list, before the first edge at least as heavy. */
  function Insert(e: Edge, s: seq<Edge>): seq<Edge>
  {
    if s == [] || e.w <= s[0].w then [e] + s else [s[0]] + Insert(e, s[1..])
  }

  /** The list sorted by ascending weight, equal weights keeping their order. The library
      sort of the program is stable, and a stable sort has only one possible result. */
  function SortByWeight(s: seq<Edge>): seq<Edge>
  {
    if s == [] then [] else Insert(s[0], SortByWeight(s[1..]))
  }

  predicate NonDecreasing(s: seq<Edge>) {
    forall k, l :: 0 <= k < l < |s| ==> s[k].w <= s[l].w
  }

  /** The edges of s with weight c, in their order in s. */
  function WithWeight(s: seq<Edge>, c: int): seq<Edge>
  {
    if s == [] then [] else (if s[0].w == c then [s[0]] else []) + WithWeight(s[1..], c)
  }

  lemma {:induction false} InsertPermutes(e: Edge, s: seq<Edge>)
    ensures multiset(Insert(e, s)) == multiset(s) + multiset{e}
  {
    if s != [] && e.w > s[0].w {
      InsertPermutes(e, s[1..]);
      assert s == [s[0]] + s[1..];
      assert multiset(s) == multiset{s[0]} + multiset(s[1..]);
      assert multiset([s[0]] + Insert(e, s[1..])) == multiset{s[0]} + multiset(Insert(e, s[1..]));
    }
  }

  /** Putting an edge no heavier than any of a sorted list in front keeps it sorted. */
  lemma ConsSorted(x: Edge, t: seq<Edge>)
    requires NonDecreasing(t) && forall k :: 0 <= k < |t| ==> x.w <= t[k].w
    ensures NonDecreasing([x] + t)
  {
    var r := [x] + t;
    forall k, l | 0 <= k < l < |r| ensures r[k].w <= r[l].w {
      assert r[l] == t[l - 1];
      if k > 0 {
        assert r[k] == t[k - 1];
      }
    }
  }

  /** Inserting keeps every weight at least b when e and s already are. */
  lemma {:induction false} InsertBound(e: Edge, s: seq<Edge>, b: int)
    requires b <= e.w && forall k :: 0 <= k < |s| ==> b <= s[k].w
    ensures forall k :: 0 <= k < |Insert(e, s)| ==> b <= Insert(e, s)[k].w
  {
    if s != [] && e.w > s[0].w {
      InsertBound(e, s[1..], b);
    }
  }

  lemma {:induction false} InsertSorted(e: Edge, s: seq<Edge>)
    requires NonDecreasing(s)
    ensures NonDecreasing(Insert(e, s))
  {
    if s == [] || e.w <= s[0].w {
      ConsSorted(e, s);
    } else {
      InsertSorted(e, s[1..]);
      InsertBound(e, s[1..], s[0].w);
      ConsSorted(s[0], Insert(e, s[1..]));
    }
  }

  lemma {:induction false} InsertStable(e: Edge, s: seq<Edge>, c: int)
    ensures WithWeight(Insert(e, s), c) == (if e.w == c then [e] else []) + WithWeight(s, c)
  {
    var head: seq<Edge> := if e.w == c then [e] else [];
    if s == [] || e.w <= s[0].w {
      var r := [e] + s;
      assert r[0] == e && r[1..] == s;
      assert WithWeight(r, c) == head + WithWeight(s, c);
    } else {
      var t := Insert(e, s[1..]);
      InsertStable(e, s[1..], c);
      var r := [s[0]] + t;
      assert r[0] == s[0] && r[1..] == t;
      var first: seq<Edge> := if s[0].w == c then [s[0]] else [];
      assert WithWeight(r, c) == first + (head + WithWeight(s[1..], c));
      assert WithWeight(s, c) == first + WithWeight(s[1..], c);
      assert first == [] || head == [];
    }
  }

  lemma {:induction false} SortPermutes(s: seq<Edge>)
    ensures multiset(SortByWeight(s)) == multiset(s)
  {
    if s != [] {
      SortPermutes(s[1..]);
      InsertPermutes(s[0], SortByWeight(s[1..]));
      assert s == [s[0]] + s[1..];
    }
  }

  lemma {:induction false} SortSorted(s: seq<Edge>)
    ensures NonDecreasing(SortByWeight(s))
  {
    if s != [] {
      SortSorted(s[1..]);
      InsertSorted(s[0], SortByWeight(s[1..]));
    }
  }

  lemma {:induction false} SortStable(s: seq<Edge>, c: int)
    ensures WithWeight(SortByWeight(s), c) == WithWeight(s, c)
  {
    if s != [] {
      SortStable(s[1..], c);
      InsertStable(s[0], SortByWeight(s[1..]), c);
    }
  }

  /** The sort permutes its input, orders it by weight, and is stable: for every weight,
      the edges of that weight come out in the order they went in. */
  lemma SortSpec(s: seq<Edge>)
    ensures multiset(SortByWeight(s)) == multiset(s)
    ensures NonDecreasing(SortByWeight(s))
    ensures forall c :: WithWeight(SortByWeight(s), c) == WithWeight(s, c)
  {
    SortPermutes(s);
    SortSorted(s);
    forall c ensures WithWeight(SortByWeight(s), c) == WithWeight(s, c) {
      SortStable(s, c);
    }
  }
}
