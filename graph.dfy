/** The Graph class of graph.hpp / Graph.cpp: V vertices, an adjacency matrix
    in which -1 means "no edge", and an edge list (mstEdges) that both the
    input graph and every computed MST are kept in. The statistics read the
    edge list; the two path queries read the matrix. */
module GraphModel {
  import opened Edges
  import opened MatrixPaths
  import opened PriorityQueue

  class Graph {
    const V: nat
    const adjMatrix: array2<int>
    var mstEdges: seq<Edge>
    /** The matrix as a value, kept equal to adjMatrix's contents. */
    ghost var Adj: seq<seq<int>>

    ghost predicate Valid()
      reads this, adjMatrix
    {
      adjMatrix.Length0 == V && adjMatrix.Length1 == V &&
      |Adj| == V && Symmetric(Adj) &&
      (forall i, j :: 0 <= i < V && 0 <= j < V ==> Adj[i][j] == adjMatrix[i, j]) &&
      EndpointsIn(mstEdges, V)
    }

    /** V vertices, every matrix cell -1, an empty edge list. */
    constructor (n: nat)
      ensures Valid() && fresh(adjMatrix)
      ensures V == n && mstEdges == []
      ensures forall i, j :: 0 <= i < n && 0 <= j < n ==> Adj[i][j] == -1
    {
      V := n;
      adjMatrix := new int[n, n]((i, j) => -1);
      mstEdges := [];
      Adj := seq(n, i => seq(n, j => -1));
    }

    /** Appends (weight, u, v) to the edge list and writes weight into both
        cells of {u, v}. */
    method AddEdge(u: int, v: int, weight: int)
      requires Valid() && 0 <= u < V && 0 <= v < V
      modifies this, adjMatrix
      ensures Valid()
      ensures mstEdges == old(mstEdges) + [Edge(weight, u, v)]
      ensures Adj == SetEdge(old(Adj), u, v, weight)
    {
      mstEdges := mstEdges + [Edge(weight, u, v)];
      adjMatrix[u, v] := weight;
      adjMatrix[v, u] := weight;
      Adj := SetEdge(Adj, u, v, weight);
    }

    /** The MST algorithms' way of recording a chosen edge; it does exactly what AddEdge does. */
    method AddMSTEdge(u: int, v: int, weight: int)
      requires Valid() && 0 <= u < V && 0 <= v < V
      modifies this, adjMatrix
      ensures Valid()
      ensures mstEdges == old(mstEdges) + [Edge(weight, u, v)]
      ensures Adj == SetEdge(old(Adj), u, v, weight)
    {
      AddEdge(u, v, weight);
    }

    /** Clears both cells of {u, v} and drops every listed edge joining u and v,
        in either orientation. */
    method RemoveEdge(u: int, v: int)
      requires Valid() && 0 <= u < V && 0 <= v < V
      modifies this, adjMatrix
      ensures Valid()
      ensures mstEdges == WithoutEndpoints(old(mstEdges), u, v)
      ensures Adj == SetEdge(old(Adj), u, v, -1)
    {
      adjMatrix[u, v] := -1;
      adjMatrix[v, u] := -1;
      Adj := SetEdge(Adj, u, v, -1);
      mstEdges := WithoutEndpoints(mstEdges, u, v);
    }

    /** A copy of the edge list. */
    function GetEdges(): (r: seq<Edge>)
      reads this
      ensures r == mstEdges
    {
      mstEdges
    }

    /** getTotalWeight: adds up the listed weights in one pass. */
    method GetTotalWeight() returns (r: int)
      ensures r == TotalWeight(mstEdges)
    {
      r := 0;
      for k := 0 to |mstEdges|
        invariant r == TotalWeight(mstEdges[..k])
      {
        assert mstEdges[..k + 1][..k] == mstEdges[..k];
        r := r + mstEdges[k].w;
      }
      assert mstEdges[..|mstEdges|] == mstEdges;
    }

    /** getLongestDistance: a running std::max over the weights, from 0. */
    method GetLongestDistance() returns (r: int)
      ensures r == LongestDistance(mstEdges)
    {
      r := 0;
      for k := 0 to |mstEdges|
        invariant r == LongestDistance(mstEdges[..k])
      {
        assert mstEdges[..k + 1][..k] == mstEdges[..k];
        if r < mstEdges[k].w {
          r := mstEdges[k].w;
        }
      }
      assert mstEdges[..|mstEdges|] == mstEdges;
    }

    /** getShortestDistance: a running std::min over the weights from IntMax,
        with IntMax reported as 0 at the end. */
    method GetShortestDistance() returns (r: int)
      ensures r == ShortestDistance(mstEdges)
    {
      var shortest := IntMax;
      for k := 0 to |mstEdges|
        invariant shortest == MinWeight(mstEdges[..k])
      {
        assert mstEdges[..k + 1][..k] == mstEdges[..k];
        if mstEdges[k].w < shortest {
          shortest := mstEdges[k].w;
        }
      }
      assert mstEdges[..|mstEdges|] == mstEdges;
      r := if shortest == IntMax then 0 else shortest;
    }

    /** Dijkstra from start over the matrix, as getShortestPath runs it: stale
        queue entries are not skipped, only re-relaxed. The result is the
        least weight of a walk from start to end, or IntMax when there is none. */
    method GetShortestPath(start: int, end: int) returns (r: int)
      requires Valid() && 0 <= start < V && 0 <= end < V
      requires NonNegative(Adj)
      ensures 0 <= r <= IntMax
      ensures forall p :: WalkFromTo(Adj, p, start, end) ==> r <= PathWeight(Adj, p)
      ensures r == IntMax || Reached(Adj, start, end, r)
      ensures start == end ==> r == 0
    {
      var dist := new int[V](_ => IntMax);
      dist[start] := 0;
      var pq: seq<Entry> := [(0, start)];
      StartState(Adj, start, dist[..], pq);
      while pq != []
        invariant dist.Length == V
        invariant InRange(dist[..]) && dist[start] == 0
        invariant QueueInRange(pq, V)
        invariant Sound(Adj, start, dist[..])
        invariant Settled(Adj, dist[..], pq, -1)
        invariant SumOf(dist[..]) >= 0
        decreases SumOf(dist[..]) + |pq|
      {
        var u := pq[MinIndex(pq)].1;
        PopStep(Adj, start, dist[..], pq);
        pq := Pop(pq);
        pq := RelaxNeighbours(dist, u, pq, start);
        RelaxDone(Adj, start, dist[..], pq, u);
      }
      forall p | WalkFromTo(Adj, p, start, end) ensures dist[end] <= PathWeight(Adj, p) {
        WalkBound(Adj, dist[..], start, p);
      }
      r := dist[end];
    }

    /** The inner loop of getShortestPath for the popped vertex u: every
        neighbour whose distance drops is lowered and pushed. Afterwards u is
        relaxed too, and the sum of the distances plus the queue length has
        not grown. */
    method RelaxNeighbours(dist: array<int>, u: int, pq: seq<Entry>, ghost start: int) returns (pq': seq<Entry>)
      requires Valid() && NonNegative(Adj) && dist.Length == V && 0 <= u < V && 0 <= start < V
      requires RelaxInv(Adj, start, dist[..], pq, u, 0)
      modifies dist
      ensures RelaxInv(Adj, start, dist[..], pq', u, V)
      ensures SumOf(dist[..]) + |pq'| <= old(SumOf(dist[..])) + |pq|
    {
      pq' := pq;
      var v := 0;
      while v < V
        invariant 0 <= v <= V
        invariant RelaxInv(Adj, start, dist[..], pq', u, v)
        invariant SumOf(dist[..]) + |pq'| <= old(SumOf(dist[..])) + |pq|
      {
        ghost var d := dist[..];
        var weight := adjMatrix[u, v];
        assert weight == Adj[u][v];
        if weight != -1 && dist[u] + weight < dist[v] {
          var nv := dist[u] + weight;
          RelaxStep(Adj, start, d, pq', u, v, nv);
          dist[v] := nv;
          assert dist[..] == d[v := nv];
          pq' := pq' + [(nv, v)];
        } else {
          SkipStep(Adj, start, d, pq', u, v);
        }
        v := v + 1;
      }
    }

    /** Backtracking search over simple paths from start, as getLongestPath
        runs it: the greatest weight of a simple path from start to end, or 0
        when end cannot be reached (or every such path weighs less). */
    method GetLongestPath(start: int, end: int) returns (r: int)
      requires Valid() && 0 <= start < V
      ensures r >= 0
      ensures forall p :: SimplePathFromTo(Adj, p, start, end) ==> PathWeight(Adj, p) <= r
      ensures r == 0 || exists p :: SimplePathFromTo(Adj, p, start, end) && PathWeight(Adj, p) == r
    {
      var visited := new bool[V](_ => false);
      ghost var none := visited[..];
      r := Dfs(visited, start, 0, end, 0);
      forall p | SimplePathFromTo(Adj, p, start, end) ensures PathWeight(Adj, p) <= r {
        assert Avoids(p, none);
      }
      if r != 0 {
        ghost var p :| SimplePathFromTo(Adj, p, start, end) && Avoids(p, none) && r == 0 + PathWeight(Adj, p);
      }
    }

    /** One call of getLongestPath's dfs lambda: u is entered at the given
        distance, best is the longest path recorded so far. On return the
        visited marks are as they were, and best has been raised to cover
        every simple path from u to end through unvisited vertices. */
    method Dfs(visited: array<bool>, u: int, distance: int, end: int, best: int) returns (best': int)
      requires Valid() && visited.Length == V && 0 <= u < V && !visited[u]
      modifies visited
      ensures visited[..] == old(visited[..])
      ensures best' >= best
      ensures Bounded(Adj, u, end, old(visited[..]), distance, best')
      ensures best' == best || Witnessed(Adj, u, end, old(visited[..]), distance, best')
      decreases V - CountTrue(visited[..])
    {
      ghost var vis0 := visited[..];
      visited[u] := true;
      ghost var vis1 := visited[..];
      assert vis1 == vis0[u := true];
      best' := best;
      if u == end {
        if best' < distance {
          best' := distance;
        }
        ArrivedAtEnd(Adj, u, vis0, distance, best');
      } else {
        CountTrueSet(vis0, u);
        var v := 0;
        while v < V
          invariant 0 <= v <= V
          invariant visited[..] == vis1
          invariant best' >= best
          invariant CoversUpTo(Adj, u, end, vis0, distance, best', v)
          invariant best' == best || Witnessed(Adj, u, end, vis0, distance, best')
        {
          if !visited[v] && adjMatrix[u, v] != -1 {
            ghost var prev := best';
            best' := Dfs(visited, v, distance + adjMatrix[u, v], end, best');
            StepInto(Adj, u, v, end, vis0, distance, prev, best');
          } else {
            StepPast(Adj, u, v, end, vis0, distance, best');
          }
          v := v + 1;
        }
        CoversAll(Adj, u, end, vis0, distance, best');
      }
      visited[u] := false;
      assert visited[..] == vis0;
    }
  }

  /** Every simple path from u to end through unvisited vertices, entered at
      the given distance, ends no later than best. */
  ghost predicate Bounded(M: seq<seq<int>>, u: int, end: int, visited: seq<bool>, distance: int, best: int) {
    forall p :: SimplePathFromTo(M, p, u, end) && Avoids(p, visited) ==> distance + PathWeight(M, p) <= best
  }

  /** Some such path ends exactly at best. */
  ghost predicate Witnessed(M: seq<seq<int>>, u: int, end: int, visited: seq<bool>, distance: int, best: int) {
    exists p :: SimplePathFromTo(M, p, u, end) && Avoids(p, visited) && best == distance + PathWeight(M, p)
  }

  /** Bounded, for the paths whose second vertex is below v: the neighbours the
      loop in dfs has already tried. */
  ghost predicate CoversUpTo(M: seq<seq<int>>, u: int, end: int, visited: seq<bool>, distance: int, best: int, v: int) {
    forall p :: SimplePathFromTo(M, p, u, end) && Avoids(p, visited) && |p| > 1 && p[1] < v ==>
      distance + PathWeight(M, p) <= best
  }

  /** Reaching end: the only simple path from end to end is [end], of weight 0. */
  lemma ArrivedAtEnd(M: seq<seq<int>>, u: int, visited: seq<bool>, distance: int, best: int)
    requires IsSquare(M) && 0 <= u < |M| && 0 <= u < |visited| && !visited[u] && best >= distance
    ensures Bounded(M, u, u, visited, distance, best)
    ensures best == distance ==> Witnessed(M, u, u, visited, distance, best)
  {
    assert SimplePathFromTo(M, [u], u, u) && PathWeight(M, [u]) == 0;
    assert Avoids([u], visited);
    forall p | SimplePathFromTo(M, p, u, u) ensures PathWeight(M, p) == 0 {
      TrivialPath(M, p, u);
    }
  }

  /** A neighbour v that is visited or not adjacent starts no path. */
  lemma StepPast(M: seq<seq<int>>, u: int, v: int, end: int, visited: seq<bool>, distance: int, best: int)
    requires IsSquare(M) && 0 <= u < |M| && 0 <= v < |M| && |visited| == |M| && !visited[u]
    requires visited[u := true][v] || M[u][v] == -1
    requires CoversUpTo(M, u, end, visited, distance, best, v)
    ensures CoversUpTo(M, u, end, visited, distance, best, v + 1)
  {
    forall p | SimplePathFromTo(M, p, u, end) && Avoids(p, visited) && |p| > 1 && p[1] == v
      ensures false
    {
      PathTail(M, p, u, end, visited);
    }
  }

  /** A recursive call into neighbour v covers the paths that continue through
      v, and any new best it reports is a path from u. */
  lemma StepInto(M: seq<seq<int>>, u: int, v: int, end: int, visited: seq<bool>, distance: int, prev: int, best: int)
    requires IsSquare(M) && 0 <= u < |M| && 0 <= v < |M| && |visited| == |M| && !visited[u]
    requires M[u][v] != -1 && best >= prev
    requires CoversUpTo(M, u, end, visited, distance, prev, v)
    requires Bounded(M, v, end, visited[u := true], distance + M[u][v], best)
    requires best == prev || Witnessed(M, v, end, visited[u := true], distance + M[u][v], best)
    ensures CoversUpTo(M, u, end, visited, distance, best, v + 1)
    ensures best == prev || Witnessed(M, u, end, visited, distance, best)
  {
    forall p | SimplePathFromTo(M, p, u, end) && Avoids(p, visited) && |p| > 1 && p[1] <= v
      ensures distance + PathWeight(M, p) <= best
    {
      if p[1] == v {
        PathTail(M, p, u, end, visited);
      }
    }
    if best != prev {
      var q :| SimplePathFromTo(M, q, v, end) && Avoids(q, visited[u := true]) &&
               best == distance + M[u][v] + PathWeight(M, q);
      PathCons(M, q, u, v, end, visited);
    }
  }

  /** Having tried every neighbour, all paths out of u are covered. */
  lemma CoversAll(M: seq<seq<int>>, u: int, end: int, visited: seq<bool>, distance: int, best: int)
    requires IsSquare(M) && u != end
    requires CoversUpTo(M, u, end, visited, distance, best, |M|)
    ensures Bounded(M, u, end, visited, distance, best)
  {
    forall p | SimplePathFromTo(M, p, u, end) && Avoids(p, visited)
      ensures distance + PathWeight(M, p) <= best
    {
      assert |p| > 1 && p[1] < |M|;
    }
  }

  /** Some walk from s to x weighs exactly d. */
  ghost predicate Reached(M: seq<seq<int>>, s: int, x: int, d: int) {
    exists p :: WalkFromTo(M, p, s, x) && PathWeight(M, p) == d
  }

  /** No edge out of x can shorten a tentative distance. */
  ghost predicate Relaxed(M: seq<seq<int>>, d: seq<int>, x: int)
    requires IsSquare(M) && |d| == |M| && 0 <= x < |M|
  {
    forall y :: 0 <= y < |M| && M[x][y] != -1 ==> d[y] <= d[x] + M[x][y]
  }

  ghost predicate InRange(d: seq<int>) {
    forall x :: 0 <= x < |d| ==> 0 <= d[x] <= IntMax
  }

  ghost predicate QueueInRange(pq: seq<Entry>, n: int) {
    forall k :: 0 <= k < |pq| ==> 0 <= pq[k].1 < n
  }

  /** Every finite tentative distance is the weight of some walk from s. */
  ghost predicate Sound(M: seq<seq<int>>, s: int, d: seq<int>) {
    forall x :: 0 <= x < |d| && d[x] < IntMax ==> Reached(M, s, x, d[x])
  }

  /** Every reached vertex other than except is still queued or already relaxed. */
  ghost predicate Settled(M: seq<seq<int>>, d: seq<int>, pq: seq<Entry>, except: int)
    requires IsSquare(M) && |d| == |M|
  {
    forall x :: 0 <= x < |d| && x != except && d[x] < IntMax ==> Holds(pq, x) || Relaxed(M, d, x)
  }

  /** The edges from u to the neighbours below v have been relaxed. */
  ghost predicate RelaxedBelow(M: seq<seq<int>>, d: seq<int>, u: int, v: int)
    requires IsSquare(M) && |d| == |M| && 0 <= u < |M|
  {
    forall y :: 0 <= y < v && y < |M| && M[u][y] != -1 ==> d[y] <= d[u] + M[u][y]
  }

  lemma StartState(M: seq<seq<int>>, s: int, d: seq<int>, pq: seq<Entry>)
    requires IsSquare(M) && |d| == |M| && 0 <= s < |M|
    requires d == seq(|M|, _ => IntMax)[s := 0] && pq == [(0, s)]
    ensures InRange(d) && QueueInRange(pq, |M|) && Sound(M, s, d) && Settled(M, d, pq, -1)
    ensures SumOf(d) >= 0
  {
    assert WalkFromTo(M, [s], s, s) && PathWeight(M, [s]) == 0;
    assert pq[0].1 == s;
    SumNonNegative(d);
  }

  /** What holds while the neighbours of u below v have been looked at. */
  ghost predicate RelaxInv(M: seq<seq<int>>, s: int, d: seq<int>, pq: seq<Entry>, u: int, v: int) {
    IsSquare(M) && |d| == |M| && 0 <= u < |M| && 0 <= s < |M| &&
    InRange(d) && d[s] == 0 && QueueInRange(pq, |M|) && Sound(M, s, d) &&
    Settled(M, d, pq, u) && RelaxedBelow(M, d, u, v) && SumOf(d) >= 0
  }

  /** Popping the top vertex u leaves every other reached vertex queued or relaxed. */
  lemma PopStep(M: seq<seq<int>>, s: int, d: seq<int>, pq: seq<Entry>)
    requires IsSquare(M) && |d| == |M| && pq != [] && 0 <= s < |M|
    requires InRange(d) && d[s] == 0 && QueueInRange(pq, |M|) && Sound(M, s, d)
    requires Settled(M, d, pq, -1) && SumOf(d) >= 0
    ensures 0 <= pq[MinIndex(pq)].1 < |M|
    ensures RelaxInv(M, s, d, Pop(pq), pq[MinIndex(pq)].1, 0)
  {
    var r := Pop(pq);
    forall k | 0 <= k < |r| ensures 0 <= r[k].1 < |M| {
      assert r[k] in pq;
    }
  }

  /** After all neighbours of u, u is relaxed as well. */
  lemma RelaxDone(M: seq<seq<int>>, s: int, d: seq<int>, pq: seq<Entry>, u: int)
    requires RelaxInv(M, s, d, pq, u, |M|)
    ensures InRange(d) && d[s] == 0 && QueueInRange(pq, |M|) && Sound(M, s, d)
    ensures Settled(M, d, pq, -1) && SumOf(d) >= 0
  {
  }

  /** A neighbour v that is absent or not improved changes nothing. */
  lemma SkipStep(M: seq<seq<int>>, s: int, d: seq<int>, pq: seq<Entry>, u: int, v: int)
    requires RelaxInv(M, s, d, pq, u, v) && 0 <= v < |M|
    requires M[u][v] == -1 || d[u] + M[u][v] >= d[v]
    ensures RelaxInv(M, s, d, pq, u, v + 1)
  {
  }

  /** Lowering d[v] to d[u] + M[u][v] keeps the distances sound, keeps the
      others queued or relaxed (v itself is pushed), and lowers the sum of
      the distances by at least one. */
  lemma RelaxStep(M: seq<seq<int>>, s: int, d: seq<int>, pq: seq<Entry>, u: int, v: int, nv: int)
    requires NonNegative(M) && RelaxInv(M, s, d, pq, u, v) && 0 <= v < |M|
    requires M[u][v] != -1 && nv == d[u] + M[u][v] && nv < d[v]
    ensures RelaxInv(M, s, d[v := nv], pq + [(nv, v)], u, v + 1)
    ensures SumOf(d[v := nv]) < SumOf(d)
  {
    var d' := d[v := nv];
    var pq' := pq + [(nv, v)];
    assert u != v;
    var p :| WalkFromTo(M, p, s, u) && PathWeight(M, p) == d[u];
    ExtendWalk(M, p, s, u, v);
    assert pq'[|pq'| - 1].1 == v;
    forall x | 0 <= x < |d'| && x != u && d'[x] < IntMax ensures Holds(pq', x) || Relaxed(M, d', x) {
      if x != v {
        if Holds(pq, x) {
          var k :| 0 <= k < |pq| && pq[k].1 == x;
          assert pq'[k].1 == x;
        }
      }
    }
    SumUpdate(d, v, nv);
    SumNonNegative(d');
  }

  /** Once every reached vertex is relaxed, no walk from s undercuts a
      tentative distance. */
  lemma {:induction false} WalkBound(M: seq<seq<int>>, d: seq<int>, s: int, p: seq<int>)
    requires NonNegative(M) && |d| == |M| && IsPath(M, p) && p[0] == s
    requires 0 <= s < |M| && d[s] == 0
    requires forall x :: 0 <= x < |M| ==> d[x] <= IntMax
    requires forall x :: 0 <= x < |M| && d[x] < IntMax ==> Relaxed(M, d, x)
    ensures d[p[|p| - 1]] <= PathWeight(M, p)
    decreases |p|
  {
    if |p| > 1 {
      var q := p[..|p| - 1];
      assert IsPath(M, q);
      WalkBound(M, d, s, q);
      var x, y := p[|p| - 2], p[|p| - 1];
      assert M[x][y] >= 0;
      assert d[x] <= PathWeight(M, q);
      if d[x] < IntMax {
        assert Relaxed(M, d, x);
      }
    }
  }

  function SumOf(s: seq<int>): int {
    if s == [] then 0 else SumOf(s[..|s| - 1]) + s[|s| - 1]
  }

  lemma {:induction false} SumNonNegative(s: seq<int>)
    requires forall i :: 0 <= i < |s| ==> s[i] >= 0
    ensures SumOf(s) >= 0
  {
    if s != [] {
      SumNonNegative(s[..|s| - 1]);
    }
  }

  lemma {:induction false} SumUpdate(s: seq<int>, i: int, x: int)
    requires 0 <= i < |s|
    ensures SumOf(s[i := x]) == SumOf(s) - s[i] + x
  {
    if i < |s| - 1 {
      assert s[i := x][..|s| - 1] == s[..|s| - 1][i := x];
      SumUpdate(s[..|s| - 1], i, x);
    } else {
      assert s[i := x][..|s| - 1] == s[..|s| - 1];
    }
  }

  function CountTrue(s: seq<bool>): (c: nat)
    ensures c <= |s|
  {
    if s == [] then 0 else CountTrue(s[..|s| - 1]) + (if s[|s| - 1] then 1 else 0)
  }

  lemma {:induction false} CountTrueSet(s: seq<bool>, i: int)
    requires 0 <= i < |s| && !s[i]
    ensures CountTrue(s[i := true]) == CountTrue(s) + 1
  {
    if i < |s| - 1 {
      assert s[i := true][..|s| - 1] == s[..|s| - 1][i := true];
      CountTrueSet(s[..|s| - 1], i);
    } else {
      assert s[i := true][..|s| - 1] == s[..|s| - 1];
    }
  }

  /** The edge list with every edge joining u and v (either way round)
      removed, as the erase/remove_if in removeEdge leaves it. */
  function WithoutEndpoints(es: seq<Edge>, u: int, v: int): (r: seq<Edge>)
    ensures forall k :: 0 <= k < |r| ==> r[k] in es
    decreases |es|
  {
    if es == [] then []
    else
      var rest := WithoutEndpoints(es[1..], u, v);
      if Joins(es[0], u, v) then rest else [es[0]] + rest
  }

  /** The entries kept by removeEdge are those not joining u and v, in their
      old order. */
  lemma {:induction false} WithoutEndpointsOrder(es: seq<Edge>, u: int, v: int)
    ensures IsSubsequence(WithoutEndpoints(es, u, v), es)
    ensures forall k :: 0 <= k < |WithoutEndpoints(es, u, v)| ==> !Joins(WithoutEndpoints(es, u, v)[k], u, v)
    decreases |es|
  {
    if es != [] {
      var rest := WithoutEndpoints(es[1..], u, v);
      WithoutEndpointsOrder(es[1..], u, v);
      if Joins(es[0], u, v) {
        assert rest != [] ==> rest[0] != es[0];
      } else {
        var r := [es[0]] + rest;
        assert r[0] == es[0] && r[1..] == rest;
      }
    }
  }

  /** Every entry not joining u and v keeps its number of occurrences, and a
      list with no such entry is left as it is. */
  lemma {:induction false} WithoutEndpointsCounts(es: seq<Edge>, u: int, v: int)
    ensures forall e :: !Joins(e, u, v) ==> multiset(WithoutEndpoints(es, u, v))[e] == multiset(es)[e]
    ensures (forall k :: 0 <= k < |es| ==> !Joins(es[k], u, v)) ==> WithoutEndpoints(es, u, v) == es
    decreases |es|
  {
    if es != [] {
      WithoutEndpointsCounts(es[1..], u, v);
      assert es == [es[0]] + es[1..];
      assert multiset(es) == multiset{es[0]} + multiset(es[1..]);
      if forall k :: 0 <= k < |es| ==> !Joins(es[k], u, v) {
        assert forall k :: 0 <= k < |es| - 1 ==> es[1..][k] == es[k + 1];
      }
    }
  }

  /** getTotalWeight: the sum of the listed weights, accumulated left to right. */
  function TotalWeight(es: seq<Edge>): int {
    if es == [] then 0 else TotalWeight(es[..|es| - 1]) + es[|es| - 1].w
  }

  lemma {:induction false} TotalWeightAppend(a: seq<Edge>, b: seq<Edge>)
    ensures TotalWeight(a + b) == TotalWeight(a) + TotalWeight(b)
    decreases |b|
  {
    if b != [] {
      assert (a + b)[..|a + b| - 1] == a + b[..|b| - 1];
      TotalWeightAppend(a, b[..|b| - 1]);
    } else {
      assert a + b == a;
    }
  }

  /** The total does not depend on the order of the list. */
  lemma {:induction false} TotalWeightPermutation(a: seq<Edge>, b: seq<Edge>)
    requires multiset(a) == multiset(b)
    ensures TotalWeight(a) == TotalWeight(b)
    decreases |a|
  {
    if a != [] {
      var e := a[|a| - 1];
      assert e in multiset(b);
      var i :| 0 <= i < |b| && b[i] == e;
      var b' := b[..i] + b[i + 1..];
      assert b == b[..i] + [e] + b[i + 1..];
      assert a == a[..|a| - 1] + [e];
      assert multiset(a[..|a| - 1]) == multiset(a) - multiset{e};
      assert multiset(b') == multiset(b) - multiset{e};
      TotalWeightPermutation(a[..|a| - 1], b');
      TotalWeightRemove(b, i);
    }
  }

  lemma {:induction false} TotalWeightRemove(b: seq<Edge>, i: int)
    requires 0 <= i < |b|
    ensures TotalWeight(b) == TotalWeight(b[..i] + b[i + 1..]) + b[i].w
    decreases |b|
  {
    var c := b[..i] + b[i + 1..];
    if i == |b| - 1 {
      assert c == b[..|b| - 1];
    } else {
      var b' := b[..|b| - 1];
      TotalWeightRemove(b', i);
      assert c[..|c| - 1] == b'[..i] + b'[i + 1..];
      assert c[|c| - 1] == b[|b| - 1];
    }
  }

  /** getLongestDistance: the largest weight, and never below the initial 0. */
  function LongestDistance(es: seq<Edge>): (r: int)
    ensures r >= 0
    ensures forall k :: 0 <= k < |es| ==> es[k].w <= r
    ensures r == 0 || exists k :: 0 <= k < |es| && es[k].w == r
  {
    if es == [] then 0
    else
      var m := LongestDistance(es[..|es| - 1]);
      assert forall k :: 0 <= k < |es| - 1 ==> es[..|es| - 1][k] == es[k];
      if m < es[|es| - 1].w then es[|es| - 1].w else m
  }

  /** The running std::min of getShortestDistance, started at IntMax. */
  function MinWeight(es: seq<Edge>): (m: int)
    ensures m <= IntMax
    ensures forall k :: 0 <= k < |es| ==> m <= es[k].w
    ensures m == IntMax || exists k :: 0 <= k < |es| && es[k].w == m
  {
    if es == [] then IntMax
    else
      var m := MinWeight(es[..|es| - 1]);
      assert forall k :: 0 <= k < |es| - 1 ==> es[..|es| - 1][k] == es[k];
      if es[|es| - 1].w < m then es[|es| - 1].w else m
  }

  /** getShortestDistance: the smallest weight, except that a running minimum
      still equal to IntMax (no edge, or none below IntMax) is reported as 0. */
  function ShortestDistance(es: seq<Edge>): (r: int)
    ensures (forall k :: 0 <= k < |es| ==> es[k].w >= IntMax) ==> r == 0
    ensures (exists k :: 0 <= k < |es| && es[k].w < IntMax) ==>
              (forall k :: 0 <= k < |es| ==> r <= es[k].w) && exists k :: 0 <= k < |es| && es[k].w == r
  {
    var m := MinWeight(es);
    if m == IntMax then 0 else m
  }
}
