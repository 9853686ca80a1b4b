/** The theory behind both union-find structures of the MST algorithms.
    Kruskal's DSU marks a root with parent -1 (selfRoot == false); Boruvka's
    parent array marks it with parent[i] == i (selfRoot == true). Union by
    rank keeps every parent strictly higher in rank than its child, which is
    what makes the recursive find terminate. */
module UnionFind {
  import opened Connectivity

  predicate IsRoot(parent: seq<int>, i: int, selfRoot: bool)
    requires 0 <= i < |parent|
  {
    if selfRoot then parent[i] == i else parent[i] == -1
  }

  /** Every non-root points inside the structure at a vertex of higher rank. */
  ghost predicate RankOrdered(parent: seq<int>, rank: seq<int>, selfRoot: bool) {
    |parent| == |rank| &&
    forall i :: 0 <= i < |parent| && !IsRoot(parent, i, selfRoot) ==>
      0 <= parent[i] < |parent| && rank[i] < rank[parent[i]]
  }

  function MaxOf(s: seq<int>): (m: int)
    ensures forall i :: 0 <= i < |s| ==> s[i] <= m
  {
    if s == [] then 0
    else
      var m' := MaxOf(s[1..]);
      assert forall i :: 1 <= i < |s| ==> s[i] == s[1..][i - 1];
      if s[0] < m' then m' else s[0]
  }

  /** The root reached by following parent pointers from i. */
  ghost function Root(parent: seq<int>, rank: seq<int>, selfRoot: bool, i: int): (r: int)
    requires RankOrdered(parent, rank, selfRoot) && 0 <= i < |parent|
    ensures 0 <= r < |parent| && IsRoot(parent, r, selfRoot)
    ensures rank[i] <= rank[r]
    ensures !IsRoot(parent, i, selfRoot) ==> rank[i] < rank[r] && r != i
    decreases MaxOf(rank) - rank[i]
  {
    if IsRoot(parent, i, selfRoot) then i else Root(parent, rank, selfRoot, parent[i])
  }

  /** The set partition: vertex i belongs to the class named by its root. */
  ghost function Roots(parent: seq<int>, rank: seq<int>, selfRoot: bool): (L: seq<int>)
    requires RankOrdered(parent, rank, selfRoot)
    ensures |L| == |parent|
    ensures forall i :: 0 <= i < |parent| ==> L[i] == Root(parent, rank, selfRoot, i)
  {
    seq(|parent|, i requires 0 <= i < |parent| => Root(parent, rank, selfRoot, i))
  }

  lemma RootOfRoot(parent: seq<int>, rank: seq<int>, selfRoot: bool, i: int)
    requires RankOrdered(parent, rank, selfRoot) && 0 <= i < |parent|
    ensures Root(parent, rank, selfRoot, i) == i <==> IsRoot(parent, i, selfRoot)
    ensures Root(parent, rank, selfRoot, Root(parent, rank, selfRoot, i)) == Root(parent, rank, selfRoot, i)
  {
  }

  /** When every vertex is a root, each vertex is its own class. */
  lemma AllRoots(parent: seq<int>, rank: seq<int>, selfRoot: bool)
    requires |parent| == |rank|
    requires forall i :: 0 <= i < |parent| ==> IsRoot(parent, i, selfRoot)
    ensures RankOrdered(parent, rank, selfRoot)
    ensures Roots(parent, rank, selfRoot) == Identity(|parent|)
  {
  }

  /** Path compression: pointing a non-root straight at its root keeps the
      ordering and changes no vertex's root. */
  lemma Compress(parent: seq<int>, rank: seq<int>, selfRoot: bool, x: int)
    requires RankOrdered(parent, rank, selfRoot) && 0 <= x < |parent|
    requires !IsRoot(parent, x, selfRoot)
    ensures RankOrdered(parent[x := Root(parent, rank, selfRoot, x)], rank, selfRoot)
    ensures Roots(parent[x := Root(parent, rank, selfRoot, x)], rank, selfRoot) == Roots(parent, rank, selfRoot)
  {
    var p' := parent[x := Root(parent, rank, selfRoot, x)];
    assert RankOrdered(p', rank, selfRoot);
    forall j | 0 <= j < |parent|
      ensures Root(p', rank, selfRoot, j) == Root(parent, rank, selfRoot, j)
    {
      CompressAt(parent, rank, selfRoot, x, j);
    }
  }

  lemma {:induction false} CompressAt(parent: seq<int>, rank: seq<int>, selfRoot: bool, x: int, j: int)
    requires RankOrdered(parent, rank, selfRoot) && 0 <= x < |parent| && 0 <= j < |parent|
    requires !IsRoot(parent, x, selfRoot)
    requires RankOrdered(parent[x := Root(parent, rank, selfRoot, x)], rank, selfRoot)
    ensures Root(parent[x := Root(parent, rank, selfRoot, x)], rank, selfRoot, j) == Root(parent, rank, selfRoot, j)
    decreases MaxOf(rank) - rank[j]
  {
    var r := Root(parent, rank, selfRoot, x);
    var p' := parent[x := r];
    if IsRoot(parent, j, selfRoot) {
      assert j != x && IsRoot(p', j, selfRoot);
    } else if j == x {
      assert IsRoot(p', r, selfRoot);
      assert Root(p', rank, selfRoot, r) == r;
    } else {
      CompressAt(parent, rank, selfRoot, x, parent[j]);
    }
  }

  /** Union: root b goes under root a, with a's rank raised if need be so
      that it outranks b. Exactly b's class is renamed to a. */
  lemma Link(parent: seq<int>, rank: seq<int>, rank': seq<int>, selfRoot: bool, a: int, b: int)
    requires RankOrdered(parent, rank, selfRoot)
    requires 0 <= a < |parent| && 0 <= b < |parent| && a != b
    requires IsRoot(parent, a, selfRoot) && IsRoot(parent, b, selfRoot)
    requires |rank'| == |rank| && rank'[a] >= rank[a] && rank'[a] > rank[b]
    requires forall i :: 0 <= i < |rank| && i != a ==> rank'[i] == rank[i]
    ensures RankOrdered(parent[b := a], rank', selfRoot)
    ensures Roots(parent[b := a], rank', selfRoot) == Relabel(Roots(parent, rank, selfRoot), b, a)
  {
    var p' := parent[b := a];
    assert RankOrdered(p', rank', selfRoot);
    forall j | 0 <= j < |parent|
      ensures Root(p', rank', selfRoot, j) == Relabel(Roots(parent, rank, selfRoot), b, a)[j]
    {
      LinkAt(parent, rank, rank', selfRoot, a, b, j);
    }
  }

  lemma {:induction false} LinkAt(parent: seq<int>, rank: seq<int>, rank': seq<int>, selfRoot: bool, a: int, b: int, j: int)
    requires RankOrdered(parent, rank, selfRoot)
    requires 0 <= a < |parent| && 0 <= b < |parent| && a != b && 0 <= j < |parent|
    requires IsRoot(parent, a, selfRoot) && IsRoot(parent, b, selfRoot)
    requires RankOrdered(parent[b := a], rank', selfRoot)
    ensures Root(parent[b := a], rank', selfRoot, j) ==
            if Root(parent, rank, selfRoot, j) == b then a else Root(parent, rank, selfRoot, j)
    decreases MaxOf(rank') - rank'[j]
  {
    var p' := parent[b := a];
    if IsRoot(p', j, selfRoot) {
      assert j != b && IsRoot(parent, j, selfRoot);
    } else if j == b {
      assert IsRoot(p', a, selfRoot);
      assert Root(p', rank', selfRoot, a) == a;
    } else {
      LinkAt(parent, rank, rank', selfRoot, a, b, parent[j]);
    }
  }
}
