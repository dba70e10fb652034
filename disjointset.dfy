/**
 * The parent and height tables of the Kruskal animation, updated in place.
 * Circle identities are the vertex indices 0..n-1; the two hash maps of the
 * program become two arrays indexed by vertex.
 */
module DisjointSets {
  import opened UnionFind

  class DisjointSet {
    var parent: array<nat>
    var height: array<nat>

    /** The two tables as a forest value. */
    function Model(): Forest
      reads this, parent, height
    {
      Forest(parent[..], height[..])
    }

    ghost predicate Valid()
      reads this, parent, height
    {
      parent != height && UnionFind.Valid(Model())
    }

    /** The make-set step for the vertices 0..n-1: each becomes its own parent with
        height 1. */
    constructor (n: nat)
      ensures Valid() && fresh(parent) && fresh(height)
      ensures Model() == Singletons(n)
    {
      var p := new nat[n];
      var h := new nat[n];
      for i := 0 to n
        invariant forall k :: 0 <= k < i ==> p[k] == k && h[k] == 1
      {
        p[i] := i;
        h[i] := 1;
      }
      parent, height := p, h;
      new;
      assert parent[..] == Singletons(n).parent;
      assert height[..] == Singletons(n).height;
    }

    /** find with path compression: returns the root of v and points v and every vertex
        on its former path directly at that root. */
    method Find(v: nat) returns (r: nat)
      requires Valid() && v < parent.Length
      modifies parent
      ensures Valid()
      ensures r == Root(old(Model()), v)
      ensures Model() == Compress(old(Model()), v)
      decreases Taller(Model(), v)
    {
      ghost var f := Model();
      if parent[v] != v {
        TallerShrinks(f, v);
        var root := Find(parent[v]);
        parent[v] := root;
        assert parent[..] == Compress(f, v).parent;
        CompressValid(f, v);
      }
      r := parent[v];
      CompressFlattens(f, v);
    }

    /** union by height of the sets of v1 and v2. */
    method Union(v1: nat, v2: nat)
      requires Valid() && v1 < parent.Length && v2 < parent.Length
      modifies parent, height
      ensures Valid()
      ensures Model() == Unite(old(Model()), v1, v2)
    {
      ghost var f := Model();
      CompressRoots(f, v1);
      var root1 := Find(v1);
      ghost var f1 := Model();
      CompressRoots(f1, v2);
      var root2 := Find(v2);
      assert Root(f1, root1) == root1;
      LinkRoots(root1, root2);
    }

    /** The second half of union: unless the two roots are the same, the lower tree goes
        under the higher, and on a tie root2 goes under root1, which grows by one. */
    method LinkRoots(root1: nat, root2: nat)
      requires Valid() && root1 < parent.Length && root2 < parent.Length
      requires parent[root1] == root1 && parent[root2] == root2
      modifies parent, height
      ensures Valid()
      ensures Model() == Link(old(Model()), root1, root2)
    {
      ghost var f := Model();
      if root1 != root2 {
        LinkSpec(f, root1, root2);
        if height[root1] < height[root2] {
          parent[root1] := root2;
          assert parent[..] == f.parent[root1 := root2];
        } else if height[root1] > height[root2] {
          parent[root2] := root1;
          assert parent[..] == f.parent[root2 := root1];
        } else {
          parent[root2] := root1;
          height[root1] := height[root1] + 1;
          assert parent[..] == f.parent[root2 := root1];
          assert height[..] == f.height[root1 := f.height[root1] + 1];
        }
      }
    }
  }
}
