/** main.cpp: runMSTAlgorithms. For each name in turn it asks the factory for
    a tree over the graph's current edge list, clears the list and re-adds the
    returned edges with addMSTEdge. The matrix is never cleared, so each
    re-added edge overwrites its two cells and every other cell keeps whatever
    it held. Each later algorithm therefore reads the previous one's output. */
module Driver {
  import opened Edges
  import opened MatrixPaths
  import opened GraphModel
  import opened MstFactory

  /** The edge list after running the algorithms in order, starting from es. */
  ghost function RunAll(es: seq<Edge>, n: nat, algorithms: seq<string>): (r: seq<Edge>)
    requires EndpointsIn(es, n) && ("prim" in algorithms ==> n >= 1)
    ensures EndpointsIn(r, n)
    decreases |algorithms|
  {
    if algorithms == [] then es
    else
      var prev := RunAll(es, n, algorithms[..|algorithms| - 1]);
      var name := algorithms[|algorithms| - 1];
      Dispatch(prev, n, name)
  }

  /** The matrix after addMSTEdge has been applied to each edge of es in order. */
  ghost function SetAll(M: seq<seq<int>>, es: seq<Edge>): (r: seq<seq<int>>)
    requires IsSquare(M) && EndpointsIn(es, |M|)
    ensures |r| == |M| && IsSquare(r)
    ensures Symmetric(M) ==> Symmetric(r)
    decreases |es|
  {
    if es == [] then M
    else
      var e := es[|es| - 1];
      SetEdge(SetAll(M, es[..|es| - 1]), e.u, e.v, e.w)
  }

  /** The matrix after running the algorithms in order from list es and matrix M. */
  ghost function MatrixAfter(M: seq<seq<int>>, es: seq<Edge>, algorithms: seq<string>): (r: seq<seq<int>>)
    requires IsSquare(M) && EndpointsIn(es, |M|) && ("prim" in algorithms ==> |M| >= 1)
    ensures |r| == |M| && IsSquare(r)
    ensures Symmetric(M) ==> Symmetric(r)
    decreases |algorithms|
  {
    if algorithms == [] then M
    else
      var pre := algorithms[..|algorithms| - 1];
      SetAll(MatrixAfter(M, es, pre), RunAll(es, |M|, algorithms))
  }

  /** runMSTAlgorithms: afterwards the edge list is exactly the last
      algorithm's output, in order, and the matrix has had every output edge
      of every run written into it, in order, over its old contents. */
  method RunMSTAlgorithms(graph: Graph, algorithms: seq<string>)
    requires graph.Valid() && ("prim" in algorithms ==> graph.V >= 1)
    modifies graph, graph.adjMatrix
    ensures graph.Valid()
    ensures graph.mstEdges == RunAll(old(graph.mstEdges), graph.V, algorithms)
    ensures graph.Adj == MatrixAfter(old(graph.Adj), old(graph.mstEdges), algorithms)
  {
    ghost var es0, M0 := graph.mstEdges, graph.Adj;
    var i := 0;
    while i < |algorithms|
      invariant 0 <= i <= |algorithms|
      invariant graph.Valid()
      invariant graph.mstEdges == RunAll(es0, graph.V, algorithms[..i])
      invariant graph.Adj == MatrixAfter(M0, es0, algorithms[..i])
    {
      assert algorithms[..i + 1][..i] == algorithms[..i] && algorithms[..i + 1][i] == algorithms[i];
      var mst := ComputeMST(graph, algorithms[i]);
      ghost var M := graph.Adj;
      Replace(graph, mst);
      assert graph.Adj == SetAll(M, mst);
      i := i + 1;
    }
    assert algorithms[..i] == algorithms;
  }

  /** The clear-and-re-add step: the list becomes mst, and the matrix gets
      mst's edges written over it in order. */
  method Replace(graph: Graph, mst: seq<Edge>)
    requires graph.Valid() && EndpointsIn(mst, graph.V)
    modifies graph, graph.adjMatrix
    ensures graph.Valid()
    ensures graph.mstEdges == mst
    ensures graph.Adj == SetAll(old(graph.Adj), mst)
  {
    ghost var M := graph.Adj;
    graph.mstEdges := [];
    var j := 0;
    while j < |mst|
      invariant 0 <= j <= |mst|
      invariant graph.Valid()
      invariant graph.mstEdges == mst[..j]
      invariant graph.Adj == SetAll(M, mst[..j])
    {
      var e := mst[j];
      graph.AddMSTEdge(e.u, e.v, e.w);
      assert mst[..j + 1][..j] == mst[..j];
      j := j + 1;
    }
    assert mst[..j] == mst;
  }

  /** A cell that no edge of es joins is left as it was. */
  lemma {:induction false} SetAllKeeps(M: seq<seq<int>>, es: seq<Edge>, a: int, b: int)
    requires IsSquare(M) && EndpointsIn(es, |M|) && 0 <= a < |M| && 0 <= b < |M|
    requires forall k :: 0 <= k < |es| ==> !Joins(es[k], a, b)
    ensures SetAll(M, es)[a][b] == M[a][b]
    decreases |es|
  {
    if es != [] {
      SetAllKeeps(M, es[..|es| - 1], a, b);
    }
  }

  /** A cell joined by some edge of es holds the weight of the last such edge. */
  lemma {:induction false} SetAllLast(M: seq<seq<int>>, es: seq<Edge>, k: int)
    requires IsSquare(M) && EndpointsIn(es, |M|) && 0 <= k < |es|
    requires forall j :: k < j < |es| ==> !Joins(es[j], es[k].u, es[k].v)
    ensures SetAll(M, es)[es[k].u][es[k].v] == es[k].w
    decreases |es|
  {
    if k < |es| - 1 {
      SetAllLast(M, es[..|es| - 1], k);
    }
  }
}
