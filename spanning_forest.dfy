/** The spanning forest that Kruskal's loop builds, defined without any
    union-find: walking the list in order, keep an edge exactly when the edges
    before it do not already connect its endpoints. */
module SpanningForest {
  import opened Edges
  import opened Connectivity

  ghost function Greedy(es: seq<Edge>): seq<Edge>
    decreases |es|
  {
    if es == [] then []
    else
      var pre, e := es[..|es| - 1], es[|es| - 1];
      Greedy(pre) + (if Connected(pre, e.u, e.v) then [] else [e])
  }

  /** The kept edges are a subsequence of the list, in its order. */
  lemma {:induction false} GreedySubsequence(es: seq<Edge>)
    ensures IsSubsequence(Greedy(es), es)
    decreases |es|
  {
    if es != [] {
      var pre, e := es[..|es| - 1], es[|es| - 1];
      assert pre + [e] == es;
      assert Greedy(es) == Greedy(pre) + (if Connected(pre, e.u, e.v) then [] else [e]);
      GreedySubsequence(pre);
      SubsequenceAppend(Greedy(pre), pre, e);
      if Connected(pre, e.u, e.v) {
        assert Greedy(es) == Greedy(pre);
      }
    }
  }

  /** Every edge of the list has its endpoints connected by the kept edges. */
  lemma {:induction false} GreedyCoversEdges(es: seq<Edge>)
    ensures forall k :: 0 <= k < |es| ==> Connected(Greedy(es), es[k].u, es[k].v)
    decreases |es|
  {
    if es != [] {
      var pre, e := es[..|es| - 1], es[|es| - 1];
      var g, g' := Greedy(pre), Greedy(es);
      GreedyCoversEdges(pre);
      assert EdgesWithin(g, g');
      forall k | 0 <= k < |es| ensures Connected(g', es[k].u, es[k].v) {
        if k < |es| - 1 {
          assert es[k] == pre[k];
          ConnectedMono(g, g', es[k].u, es[k].v);
        } else if Connected(pre, e.u, e.v) {
          ConnectedThrough(pre, g, e.u, e.v);
          ConnectedMono(g, g', e.u, e.v);
        } else {
          ConnectedByEdge(g', |g|);
        }
      }
    }
  }

  /** The kept edges connect exactly what the whole list connects. */
  lemma GreedySpans(es: seq<Edge>, a: int, b: int)
    ensures Connected(Greedy(es), a, b) <==> Connected(es, a, b)
  {
    GreedySubsequence(es);
    SubsequenceMembers(Greedy(es), es);
    if Connected(Greedy(es), a, b) {
      ConnectedMono(Greedy(es), es, a, b);
    }
    if Connected(es, a, b) {
      GreedyCoversEdges(es);
      ConnectedThrough(es, Greedy(es), a, b);
    }
  }

  /** No kept edge closes a cycle. */
  lemma {:induction false} GreedyForest(es: seq<Edge>)
    ensures IsForest(Greedy(es))
    decreases |es|
  {
    if es != [] {
      var pre, e := es[..|es| - 1], es[|es| - 1];
      var g := Greedy(pre);
      GreedyForest(pre);
      if Connected(pre, e.u, e.v) {
        assert Greedy(es) == g + [];
        assert g + [] == g;
      } else {
        assert Greedy(es) == g + [e];
        GreedySpans(pre, e.u, e.v);
        ForestExtend(g, e);
      }
    }
  }

  lemma ForestExtend(g: seq<Edge>, e: Edge)
    requires IsForest(g) && !Connected(g, e.u, e.v)
    ensures IsForest(g + [e])
  {
    var g' := g + [e];
    forall k | 0 <= k < |g'| ensures !Connected(g'[..k], g'[k].u, g'[k].v) {
      if k < |g| {
        assert g'[..k] == g[..k];
      } else {
        assert g'[..k] == g;
      }
    }
  }

  /** Kept edges plus components of the list make up the vertex count: some
      labelling L names the components and |Greedy(es)| + NumLabels(L) == n. */
  lemma {:induction false} GreedyCount(es: seq<Edge>, n: nat) returns (L: seq<int>)
    requires EndpointsIn(es, n)
    ensures |L| == n && Represents(L, es)
    ensures |Greedy(es)| + NumLabels(L) == n
    decreases |es|
  {
    if es == [] {
      NoEdgesIdentity(n);
      L := Identity(n);
    } else {
      var pre, e := es[..|es| - 1], es[|es| - 1];
      assert es == pre + [e];
      var L0 := GreedyCount(pre, n);
      if L0[e.u] == L0[e.v] {
        SameClassRepresents(L0, pre, e);
        L := L0;
      } else {
        MergeRepresents(L0, pre, e, L0[e.v], L0[e.u]);
        RelabelCount(L0, e.u, e.v);
        L := Relabel(L0, L0[e.v], L0[e.u]);
      }
    }
  }

  /** A forest on n >= 1 vertices has at most n - 1 edges, and exactly n - 1
      when the list connects all of them. */
  lemma GreedySize(es: seq<Edge>, n: nat)
    requires EndpointsIn(es, n) && n >= 1
    ensures |Greedy(es)| <= n - 1
    ensures ConnectsAll(es, n) ==> |Greedy(es)| == n - 1
  {
    var L := GreedyCount(es, n);
    ClassCount(L, es);
  }

  /** The same loop computed with quick-find labels: the kept edges, then the labels. */
  function Select(es: seq<Edge>, L: seq<int>): (r: (seq<Edge>, seq<int>))
    requires EndpointsIn(es, |L|)
    ensures |r.1| == |L|
    decreases |es|
  {
    if es == [] then ([], L)
    else
      var e := es[0];
      if L[e.u] == L[e.v] then Select(es[1..], L)
      else
        var rest := Select(es[1..], Relabel(L, L[e.v], L[e.u]));
        ([e] + rest.0, rest.1)
  }

  /** Started from labels that name the components of a prefix, Select keeps
      exactly what Greedy keeps after that prefix. */
  lemma {:induction false} SelectIsGreedy(pre: seq<Edge>, es: seq<Edge>, L: seq<int>)
    requires EndpointsIn(pre, |L|) && EndpointsIn(es, |L|) && Represents(L, pre)
    ensures Greedy(pre) + Select(es, L).0 == Greedy(pre + es)
    decreases |es|
  {
    if es == [] {
      assert pre + es == pre;
    } else {
      var kept, L' := SelectStep(pre, es, L);
      var pre', tail := pre + [es[0]], es[1..];
      SelectIsGreedy(pre', tail, L');
      calc {
        Greedy(pre) + Select(es, L).0;
        Greedy(pre) + (kept + Select(tail, L').0);
        { AppendAssoc(Greedy(pre), kept, Select(tail, L').0); }
        (Greedy(pre) + kept) + Select(tail, L').0;
        Greedy(pre') + Select(tail, L').0;
        Greedy(pre' + tail);
        Greedy(pre + es);
      }
    }
  }

  /** One edge of SelectIsGreedy: what Select keeps of es[0] is what Greedy
      keeps after pre, and the new labels name the components of pre + [es[0]]. */
  lemma SelectStep(pre: seq<Edge>, es: seq<Edge>, L: seq<int>) returns (kept: seq<Edge>, L': seq<int>)
    requires EndpointsIn(pre, |L|) && EndpointsIn(es, |L|) && Represents(L, pre) && es != []
    ensures |L'| == |L| && EndpointsIn(pre + [es[0]], |L|) && EndpointsIn(es[1..], |L|)
    ensures Represents(L', pre + [es[0]])
    ensures Select(es, L).0 == kept + Select(es[1..], L').0
    ensures Greedy(pre + [es[0]]) == Greedy(pre) + kept
    ensures (pre + [es[0]]) + es[1..] == pre + es
  {
    var e, tail := es[0], es[1..];
    SplitFirst(pre, es, |L|);
    GreedyAppend(pre, e);
    if L[e.u] == L[e.v] {
      SameClassRepresents(L, pre, e);
      kept, L' := [], L;
      assert Select(es, L).0 == Select(tail, L).0;
    } else {
      MergeRepresents(L, pre, e, L[e.v], L[e.u]);
      kept, L' := [e], Relabel(L, L[e.v], L[e.u]);
    }
  }

  lemma AppendAssoc(a: seq<Edge>, b: seq<Edge>, c: seq<Edge>)
    ensures a + (b + c) == (a + b) + c
  {
  }

  /** Moving the first edge of es to the end of pre. */
  lemma SplitFirst(pre: seq<Edge>, es: seq<Edge>, n: int)
    requires es != [] && EndpointsIn(pre, n) && EndpointsIn(es, n)
    ensures (pre + [es[0]]) + es[1..] == pre + es
    ensures EndpointsIn(pre + [es[0]], n) && EndpointsIn(es[1..], n)
  {
    assert es == [es[0]] + es[1..];
    assert forall k :: 0 <= k < |es| - 1 ==> es[1..][k] == es[k + 1];
  }

  /** Greedy over one more edge. */
  lemma GreedyAppend(pre: seq<Edge>, e: Edge)
    ensures Greedy(pre + [e]) == Greedy(pre) + (if Connected(pre, e.u, e.v) then [] else [e])
  {
    var pre' := pre + [e];
    assert pre'[..|pre'| - 1] == pre && pre'[|pre'| - 1] == e;
  }

  /** From singleton classes, Select is Greedy. */
  lemma SelectFromScratch(es: seq<Edge>, n: nat)
    requires EndpointsIn(es, n)
    ensures Select(es, Identity(n)).0 == Greedy(es)
  {
    NoEdgesIdentity(n);
    SelectIsGreedy([], es, Identity(n));
    assert [] + es == es;
  }
}
