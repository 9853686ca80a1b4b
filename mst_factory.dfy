/** mst_factory.cpp: MSTFactory::computeMST picks an algorithm by name.
    "prim" and "kruskal" run those algorithms on the graph; every other name,
    "boruvka" included (its branch is commented out), yields an empty list. */
module MstFactory {
  import opened Edges
  import opened EdgeSort
  import opened SpanningForest
  import opened GraphModel
  import Prim
  import Kruskal

  /** What computeMST returns for a list es on n vertices and a name.
      Whatever the name, the result uses only vertices of the graph and has
      at most n - 1 edges. */
  ghost function Dispatch(es: seq<Edge>, n: nat, algorithm: string): (r: seq<Edge>)
    requires EndpointsIn(es, n) && (algorithm == "prim" ==> n >= 1)
    ensures EndpointsIn(r, n)
    ensures n >= 1 ==> |r| <= n - 1
  {
    if algorithm == "prim" then
      PrimInRange(es, n);
      Prim.PrimSpec(es, n)
    else if algorithm == "kruskal" then
      KruskalInRange(es, n);
      Greedy(SortEdges(es))
    else []
  }

  lemma PrimInRange(es: seq<Edge>, n: nat)
    requires n >= 1 && EndpointsIn(es, n)
    ensures EndpointsIn(Prim.PrimSpec(es, n), n) && |Prim.PrimSpec(es, n)| <= n - 1
  {
    Prim.PrimProperties(es, n);
  }

  lemma KruskalInRange(es: seq<Edge>, n: nat)
    requires EndpointsIn(es, n)
    ensures EndpointsIn(Greedy(SortEdges(es)), n) && (n >= 1 ==> |Greedy(SortEdges(es))| <= n - 1)
  {
    Kruskal.KruskalProperties(es, n);
  }

  /** MSTFactory::computeMST. It has no modifies clause: the graph is only read. */
  method ComputeMST(graph: Graph, algorithm: string) returns (r: seq<Edge>)
    requires graph.Valid() && (algorithm == "prim" ==> graph.V >= 1)
    ensures algorithm == "prim" ==> r == Prim.PrimSpec(graph.mstEdges, graph.V)
    ensures algorithm == "kruskal" ==> r == Greedy(SortEdges(graph.mstEdges))
    ensures algorithm != "prim" && algorithm != "kruskal" ==> r == []
    ensures r == Dispatch(graph.mstEdges, graph.V, algorithm)
  {
    if algorithm == "prim" {
      r := Prim.ComputeMST(graph);
    } else if algorithm == "kruskal" {
      r := Kruskal.ComputeMST(graph);
    } else {
      r := [];
    }
  }
}
