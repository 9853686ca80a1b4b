/** Weighted undirected edges as the graph layer stores them: the triple
    (weight, u, v), compared lexicographically like std::tuple. */
module Edges {

  datatype Edge = Edge(w: int, u: int, v: int)

  /** std::numeric_limits<int>::max(), the "infinity" of the path queries and of Prim's keys. */
  const IntMax: int := 0x7fff_ffff

  /** The order std::tuple<int, int, int> gives to edges: by weight, then u, then v. */
  predicate EdgeLe(a: Edge, b: Edge) {
    a.w < b.w || (a.w == b.w && (a.u < b.u || (a.u == b.u && a.v <= b.v)))
  }

  predicate Sorted(s: seq<Edge>) {
    forall i, j :: 0 <= i < j < |s| ==> EdgeLe(s[i], s[j])
  }

  /** Every endpoint is a vertex of a graph with n vertices. */
  predicate EndpointsIn(es: seq<Edge>, n: int) {
    forall k :: 0 <= k < |es| ==> 0 <= es[k].u < n && 0 <= es[k].v < n
  }

  /** The edge has endpoints {a, b}, in either orientation. */
  predicate Joins(e: Edge, a: int, b: int) {
    (e.u == a && e.v == b) || (e.u == b && e.v == a)
  }

  /** a is b with some entries dropped, the rest kept in order. */
  predicate IsSubsequence(a: seq<Edge>, b: seq<Edge>)
    decreases |b|
  {
    if a == [] then true
    else if b == [] then false
    else if a[0] == b[0] then IsSubsequence(a[1..], b[1..])
    else IsSubsequence(a, b[1..])
  }

  lemma {:induction false} SubsequenceMembers(a: seq<Edge>, b: seq<Edge>)
    requires IsSubsequence(a, b)
    ensures |a| <= |b|
    ensures forall k :: 0 <= k < |a| ==> a[k] in b
    decreases |b|
  {
    if a == [] {
    } else if a[0] == b[0] {
      SubsequenceMembers(a[1..], b[1..]);
      forall k | 0 <= k < |a| ensures a[k] in b {
        if k > 0 { assert a[k] == a[1..][k - 1]; assert a[k] in b[1..]; }
      }
    } else {
      SubsequenceMembers(a, b[1..]);
    }
  }

  lemma {:induction false} SubsequenceAppend(a: seq<Edge>, b: seq<Edge>, e: Edge)
    requires IsSubsequence(a, b)
    ensures IsSubsequence(a, b + [e]) && IsSubsequence(a + [e], b + [e])
    decreases |b|
  {
    if a == [] {
      if b == [] {
        assert IsSubsequence([e][1..], [e][1..]);
      } else {
        assert (b + [e])[1..] == b[1..] + [e];
        SubsequenceAppend(a, b[1..], e);
      }
    } else if a[0] == b[0] {
      assert (b + [e])[1..] == b[1..] + [e];
      assert (a + [e])[1..] == a[1..] + [e];
      SubsequenceAppend(a[1..], b[1..], e);
    } else {
      assert (b + [e])[1..] == b[1..] + [e];
      SubsequenceAppend(a, b[1..], e);
    }
  }


  /** The weights along a subsequence of a sorted list never decrease. */
  lemma {:induction false} SubsequenceOfSorted(a: seq<Edge>, b: seq<Edge>)
    requires IsSubsequence(a, b) && Sorted(b)
    ensures Sorted(a)
    decreases |b|
  {
    if a == [] {
    } else if a[0] == b[0] {
      SubsequenceOfSorted(a[1..], b[1..]);
      SubsequenceMembers(a[1..], b[1..]);
      forall i, j | 0 <= i < j < |a| ensures EdgeLe(a[i], a[j]) {
        if i == 0 {
          assert a[j] == a[1..][j - 1];
          var k :| 0 <= k < |b[1..]| && b[1..][k] == a[j];
          assert b[k + 1] == a[j];
        } else {
          assert a[i] == a[1..][i - 1] && a[j] == a[1..][j - 1];
        }
      }
    } else {
      SubsequenceOfSorted(a, b[1..]);
    }
  }
}
