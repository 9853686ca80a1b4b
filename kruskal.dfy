/** Kruskal.cpp: the DSU class (parent -1 marks a root, ranks start at 1,
    find compresses paths, unite unions by rank) and KruskalMST::computeMST,
    which walks a sorted copy of the graph's edge list and keeps an edge when
    its endpoints lie in different sets. */
module Kruskal {
  import opened Edges
  import opened EdgeSort
  import opened Connectivity
  import opened UnionFind
  import opened SpanningForest
  import opened GraphModel

  class DSU {
    const parent: array<int>
    const rank: array<int>

    ghost predicate Valid()
      reads this, parent, rank
    {
      parent != rank && RankOrdered(parent[..], rank[..], false)
    }

    /** The partition: each vertex labelled by its root. */
    ghost function Classes(): (L: seq<int>)
      reads this, parent, rank
      requires Valid()
      ensures |L| == parent.Length
    {
      Roots(parent[..], rank[..], false)
    }

    /** n singleton sets: every parent -1, every rank 1. */
    constructor (n: nat)
      ensures Valid() && fresh(parent) && fresh(rank)
      ensures parent.Length == n && Classes() == Identity(n)
      ensures forall i :: 0 <= i < n ==> parent[i] == -1 && rank[i] == 1
    {
      parent := new int[n](_ => -1);
      rank := new int[n](_ => 1);
      new;
      AllRoots(parent[..], rank[..], false);
    }

    /** The root of i's set. Every vertex on the way is pointed straight at
        the root; the partition does not change. */
    method Find(i: int) returns (r: int)
      requires Valid() && 0 <= i < parent.Length
      modifies parent
      ensures Valid()
      ensures r == old(Classes())[i] && parent[r] == -1
      ensures Classes() == old(Classes())
      ensures r == i || parent[i] == r
      decreases MaxOf(rank[..]) - rank[i]
    {
      if parent[i] == -1 {
        RootOfRoot(parent[..], rank[..], false, i);
        return i;
      }
      r := Find(parent[i]);
      ghost var P := parent[..];
      assert Roots(P, rank[..], false)[i] == r != i;
      RootOfRoot(P, rank[..], false, i);
      Compress(P, rank[..], false, i);
      parent[i] := r;
      assert parent[..] == P[i := r];
    }

    /** Unites the sets of x and y: the root of lower rank goes under the
        other; on a tie y's root goes under x's root, whose rank grows by one.
        Nothing changes when they already share a set. */
    method Unite(x: int, y: int)
      requires Valid() && 0 <= x < parent.Length && 0 <= y < parent.Length
      modifies parent, rank
      ensures Valid()
      ensures var L := old(Classes()); var s1, s2 := L[x], L[y];
        Classes() == (if s1 == s2 then L
                      else if old(rank[s1]) < old(rank[s2]) then Relabel(L, s1, s2)
                      else Relabel(L, s2, s1))
      ensures var L := old(Classes()); var s1, s2 := L[x], L[y];
        rank[..] == (if s1 != s2 && old(rank[s1]) == old(rank[s2]) then old(rank[..])[s1 := old(rank[s1]) + 1]
                     else old(rank[..]))
    {
      var s1 := Find(x);
      var s2 := Find(y);
      ghost var P, R := parent[..], rank[..];
      if s1 != s2 {
        if rank[s1] < rank[s2] {
          Link(P, R, R, false, s2, s1);
          parent[s1] := s2;
          assert parent[..] == P[s1 := s2];
        } else if rank[s1] > rank[s2] {
          Link(P, R, R, false, s1, s2);
          parent[s2] := s1;
          assert parent[..] == P[s2 := s1];
        } else {
          Link(P, R, R[s1 := R[s1] + 1], false, s1, s2);
          parent[s2] := s1;
          rank[s1] := rank[s1] + 1;
          assert parent[..] == P[s2 := s1] && rank[..] == R[s1 := R[s1] + 1];
        }
      }
    }
  }

  /** KruskalMST::computeMST: the graph's list is copied and sorted by
      (w, u, v); an edge is kept exactly when the edges before it in that order
      leave its endpoints apart. The graph itself is only read. */
  method ComputeMST(graph: Graph) returns (mst: seq<Edge>)
    requires graph.Valid()
    ensures mst == Greedy(SortEdges(graph.mstEdges))
  {
    var edges := SortEdges(graph.GetEdges());
    SortKeepsEndpoints(graph.mstEdges, graph.V);
    var dsu := new DSU(graph.V);
    NoEdgesIdentity(graph.V);
    mst := [];
    var i := 0;
    while i < |edges|
      invariant 0 <= i <= |edges|
      invariant dsu.Valid() && dsu.parent.Length == graph.V
      invariant EndpointsIn(edges, graph.V)
      invariant Represents(dsu.Classes(), edges[..i])
      invariant mst == Greedy(edges[..i])
    {
      mst := Consider(dsu, edges, i, mst);
      i := i + 1;
    }
    assert edges[..i] == edges;
  }

  /** The loop body for edge i: the edge is kept, and its endpoints' sets
      united, exactly when find gives different roots. */
  method Consider(dsu: DSU, edges: seq<Edge>, i: int, mst: seq<Edge>) returns (mst': seq<Edge>)
    requires 0 <= i < |edges| && dsu.Valid() && EndpointsIn(edges, dsu.parent.Length)
    requires Represents(dsu.Classes(), edges[..i]) && mst == Greedy(edges[..i])
    modifies dsu.parent, dsu.rank
    ensures dsu.Valid()
    ensures Represents(dsu.Classes(), edges[..i + 1]) && mst' == Greedy(edges[..i + 1])
  {
    var e := edges[i];
    ghost var L := dsu.Classes();
    KeepStep(L, edges, i);
    var ru := dsu.Find(e.u);
    var rv := dsu.Find(e.v);
    assert dsu.Classes() == L && ru == L[e.u] && rv == L[e.v];
    if ru != rv {
      dsu.Unite(e.u, e.v);
      assert dsu.Classes() == Relabel(L, L[e.u], L[e.v]) || dsu.Classes() == Relabel(L, L[e.v], L[e.u]);
      mst' := mst + [e];
    } else {
      mst' := mst;
    }
  }

  /** One step of the loop: with labels naming the components of the first
      i edges, differing labels at the endpoints of edge i mean Greedy keeps
      it, and merging the two classes (either way round) names the components
      of the first i + 1 edges. */
  lemma KeepStep(L: seq<int>, es: seq<Edge>, i: int)
    requires 0 <= i < |es| && EndpointsIn(es, |L|) && Represents(L, es[..i])
    ensures var e := es[i];
      L[e.u] == L[e.v] ==> Greedy(es[..i + 1]) == Greedy(es[..i]) && Represents(L, es[..i + 1])
    ensures var e := es[i];
      L[e.u] != L[e.v] ==>
        Greedy(es[..i + 1]) == Greedy(es[..i]) + [e] &&
        Represents(Relabel(L, L[e.v], L[e.u]), es[..i + 1]) &&
        Represents(Relabel(L, L[e.u], L[e.v]), es[..i + 1])
  {
    var pre, e := es[..i], es[i];
    var next := es[..i + 1];
    assert next == pre + [e];
    assert next[..|next| - 1] == pre && next[|next| - 1] == e;
    if L[e.u] == L[e.v] {
      SameClassRepresents(L, pre, e);
      assert Greedy(next) == Greedy(pre) + [];
    } else {
      MergeRepresents(L, pre, e, L[e.v], L[e.u]);
      MergeRepresents(L, pre, e, L[e.u], L[e.v]);
    }
  }

  /** What the kept edges amount to: a forest, in nondecreasing (w, u, v)
      order, drawn from the input list, connecting exactly what the input
      connects, with at most V - 1 edges (exactly V - 1 when the input
      connects every vertex). */
  lemma KruskalProperties(es: seq<Edge>, n: nat)
    requires EndpointsIn(es, n)
    ensures IsForest(Greedy(SortEdges(es)))
    ensures Sorted(Greedy(SortEdges(es)))
    ensures forall k :: 0 <= k < |Greedy(SortEdges(es))| ==> Greedy(SortEdges(es))[k] in es
    ensures forall a, b :: Connected(Greedy(SortEdges(es)), a, b) <==> Connected(es, a, b)
    ensures n >= 1 ==> |Greedy(SortEdges(es))| <= n - 1
    ensures n >= 1 && ConnectsAll(es, n) ==> |Greedy(SortEdges(es))| == n - 1
  {
    KruskalShape(es);
    KruskalConnects(es);
    if n >= 1 {
      KruskalSize(es, n);
    }
  }

  /** The kept edges form a forest, sorted, drawn from the input. */
  lemma KruskalShape(es: seq<Edge>)
    ensures IsForest(Greedy(SortEdges(es)))
    ensures Sorted(Greedy(SortEdges(es)))
    ensures forall k :: 0 <= k < |Greedy(SortEdges(es))| ==> Greedy(SortEdges(es))[k] in es
  {
    var s := SortEdges(es);
    var g := Greedy(s);
    GreedyForest(s);
    GreedySubsequence(s);
    SubsequenceOfSorted(g, s);
    SubsequenceMembers(g, s);
    assert forall x :: x in s ==> x in es by {
      forall x | x in s ensures x in es {
        assert x in multiset(s);
      }
    }
  }

  /** The kept edges connect two vertices exactly when the input does. */
  lemma KruskalConnects(es: seq<Edge>)
    ensures forall a, b :: Connected(Greedy(SortEdges(es)), a, b) <==> Connected(es, a, b)
  {
    var s := SortEdges(es);
    var g := Greedy(s);
    assert EdgesWithin(s, es) && EdgesWithin(es, s) by {
      forall x | x in s ensures x in es { assert x in multiset(s); }
      forall x | x in es ensures x in s { assert x in multiset(es); }
    }
    forall a, b ensures Connected(g, a, b) <==> Connected(es, a, b) {
      GreedySpans(s, a, b);
      if Connected(s, a, b) { ConnectedMono(s, es, a, b); }
      if Connected(es, a, b) { ConnectedMono(es, s, a, b); }
    }
  }

  /** At most V - 1 edges are kept, and exactly V - 1 when the input connects every vertex. */
  lemma KruskalSize(es: seq<Edge>, n: nat)
    requires EndpointsIn(es, n) && n >= 1
    ensures |Greedy(SortEdges(es))| <= n - 1
    ensures ConnectsAll(es, n) ==> |Greedy(SortEdges(es))| == n - 1
  {
    var s := SortEdges(es);
    SortKeepsEndpoints(es, n);
    GreedySize(s, n);
    if ConnectsAll(es, n) {
      forall x, y | 0 <= x < n && 0 <= y < n ensures Connected(s, x, y) {
        KruskalConnects(es);
        GreedySpans(s, x, y);
      }
    }
  }
}
