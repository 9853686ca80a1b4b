/** The adjacency-matrix view of a graph: a square matrix in which -1 means
    "no edge", and the walks and simple paths that the path queries search. */
module MatrixPaths {

  ghost predicate IsSquare(M: seq<seq<int>>) {
    forall i :: 0 <= i < |M| ==> |M[i]| == |M|
  }

  ghost predicate Symmetric(M: seq<seq<int>>) {
    IsSquare(M) && forall i, j :: 0 <= i < |M| && 0 <= j < |M| ==> M[i][j] == M[j][i]
  }

  /** Every cell is "absent" (-1) or a non-negative weight. */
  ghost predicate NonNegative(M: seq<seq<int>>) {
    IsSquare(M) && forall i, j :: 0 <= i < |M| && 0 <= j < |M| ==> M[i][j] == -1 || M[i][j] >= 0
  }

  /** Both cells of the undirected edge {u, v} set to w, as addEdge and
      removeEdge write them; every other cell is left alone. */
  function SetEdge(M: seq<seq<int>>, u: int, v: int, w: int): (r: seq<seq<int>>)
    requires IsSquare(M) && 0 <= u < |M| && 0 <= v < |M|
    ensures |r| == |M| && IsSquare(r)
    ensures r[u][v] == w && r[v][u] == w
    ensures forall i, j :: 0 <= i < |M| && 0 <= j < |M| && !(i == u && j == v) && !(i == v && j == u) ==>
              r[i][j] == M[i][j]
    ensures Symmetric(M) ==> Symmetric(r)
  {
    var m1 := M[u := M[u][v := w]];
    m1[v := m1[v][u := w]]
  }

  /** A walk along present cells: vertices in range, each step a cell other than -1. */
  ghost predicate IsPath(M: seq<seq<int>>, p: seq<int>) {
    IsSquare(M) && |p| >= 1 &&
    (forall i :: 0 <= i < |p| ==> 0 <= p[i] < |M|) &&
    forall i :: 0 <= i < |p| - 1 ==> M[p[i]][p[i + 1]] != -1
  }

  ghost predicate WalkFromTo(M: seq<seq<int>>, p: seq<int>, s: int, t: int) {
    IsPath(M, p) && p[0] == s && p[|p| - 1] == t
  }

  ghost predicate Distinct(p: seq<int>) {
    forall i, j :: 0 <= i < j < |p| ==> p[i] != p[j]
  }

  ghost predicate SimplePathFromTo(M: seq<seq<int>>, p: seq<int>, s: int, t: int) {
    WalkFromTo(M, p, s, t) && Distinct(p)
  }

  /** The sum of the cells along the walk. */
  ghost function PathWeight(M: seq<seq<int>>, p: seq<int>): int
    requires IsPath(M, p)
    decreases |p|
  {
    if |p| == 1 then 0
    else
      assert IsPath(M, p[..|p| - 1]);
      PathWeight(M, p[..|p| - 1]) + M[p[|p| - 2]][p[|p| - 1]]
  }

  /** With no negative cell, no walk has negative weight. */
  lemma {:induction false} WeightNonNegative(M: seq<seq<int>>, p: seq<int>)
    requires NonNegative(M) && IsPath(M, p)
    ensures PathWeight(M, p) >= 0
    decreases |p|
  {
    if |p| > 1 {
      assert IsPath(M, p[..|p| - 1]);
      WeightNonNegative(M, p[..|p| - 1]);
    }
  }

  /** Extending a walk by one present cell at the end. */
  lemma ExtendWalk(M: seq<seq<int>>, p: seq<int>, s: int, u: int, v: int)
    requires WalkFromTo(M, p, s, u) && 0 <= v < |M| && M[u][v] != -1
    ensures WalkFromTo(M, p + [v], s, v)
    ensures PathWeight(M, p + [v]) == PathWeight(M, p) + M[u][v]
  {
    var q := p + [v];
    assert IsPath(M, q);
    assert q[..|q| - 1] == p;
  }

  /** The weight of a walk, read from its first step. */
  lemma {:induction false} WeightFront(M: seq<seq<int>>, p: seq<int>)
    requires IsPath(M, p) && |p| >= 2
    ensures IsPath(M, p[1..])
    ensures PathWeight(M, p) == M[p[0]][p[1]] + PathWeight(M, p[1..])
    decreases |p|
  {
    assert IsPath(M, p[1..]);
    if |p| > 2 {
      var q := p[..|p| - 1];
      assert IsPath(M, q);
      WeightFront(M, q);
      assert q[1..] == p[1..][..|p[1..]| - 1];
    }
  }

  /** None of the path's vertices is marked visited. */
  ghost predicate Avoids(p: seq<int>, visited: seq<bool>) {
    forall i :: 0 <= i < |p| ==> 0 <= p[i] < |visited| && !visited[p[i]]
  }

  /** A simple path out of u, cut after its first step. */
  lemma PathTail(M: seq<seq<int>>, p: seq<int>, u: int, t: int, visited: seq<bool>)
    requires SimplePathFromTo(M, p, u, t) && Avoids(p, visited) && |p| >= 2
    ensures SimplePathFromTo(M, p[1..], p[1], t)
    ensures Avoids(p[1..], visited[u := true])
    ensures M[u][p[1]] != -1 && !visited[p[1]] && p[1] != u
    ensures PathWeight(M, p) == M[u][p[1]] + PathWeight(M, p[1..])
  {
    WeightFront(M, p);
    forall i | 0 <= i < |p[1..]| ensures p[1..][i] != u {
      assert p[1..][i] == p[i + 1];
    }
  }

  /** A simple path out of v that avoids u, preceded by the step u -> v. */
  lemma PathCons(M: seq<seq<int>>, q: seq<int>, u: int, v: int, t: int, visited: seq<bool>)
    requires SimplePathFromTo(M, q, v, t) && 0 <= u < |visited|
    requires Avoids(q, visited[u := true]) && !visited[u]
    requires 0 <= u < |M| && M[u][v] != -1
    ensures SimplePathFromTo(M, [u] + q, u, t) && Avoids([u] + q, visited)
    ensures PathWeight(M, [u] + q) == M[u][v] + PathWeight(M, q)
  {
    var p := [u] + q;
    assert p[1..] == q;
    forall i | 0 <= i < |q| ensures q[i] != u {
      assert !visited[u := true][q[i]];
    }
    assert IsPath(M, p);
    WeightFront(M, p);
  }

  /** The only simple path from t to itself is the one-vertex path. */
  lemma TrivialPath(M: seq<seq<int>>, p: seq<int>, t: int)
    requires SimplePathFromTo(M, p, t, t)
    ensures |p| == 1 && PathWeight(M, p) == 0
  {
  }
}
