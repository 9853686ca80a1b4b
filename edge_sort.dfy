/** The sorted copy Kruskal takes of the edge list (std::sort on (w, u, v)
    triples). The order is total and antisymmetric, so a sorted permutation is
    unique: whatever algorithm std::sort runs, its result is SortEdges(s). */
module EdgeSort {
  import opened Edges

  lemma EdgeLeTotal(a: Edge, b: Edge)
    ensures EdgeLe(a, b) || EdgeLe(b, a)
    ensures EdgeLe(a, b) && EdgeLe(b, a) ==> a == b
  {
  }

  function Insert(e: Edge, s: seq<Edge>): (r: seq<Edge>)
    requires Sorted(s)
    ensures Sorted(r)
    ensures multiset(r) == multiset(s) + multiset{e}
    ensures |r| == |s| + 1
    ensures forall x :: x in r ==> x == e || x in s
  {
    if s == [] then [e]
    else if EdgeLe(e, s[0]) then
      PrependSorted(e, s);
      [e] + s
    else
      var tail := Insert(e, s[1..]);
      assert s == [s[0]] + s[1..];
      PrependSorted(s[0], tail);
      [s[0]] + tail
  }

  lemma PrependSorted(x: Edge, t: seq<Edge>)
    requires Sorted(t)
    requires t != [] ==> EdgeLe(x, t[0])
    ensures Sorted([x] + t)
  {
    var r := [x] + t;
    forall i, j | 0 <= i < j < |r| ensures EdgeLe(r[i], r[j]) {
      if i == 0 && j > 1 {
        assert EdgeLe(t[0], t[j - 1]);
      }
    }
  }

  /** Insertion sort on values: a sorted permutation of s. */
  function SortEdges(s: seq<Edge>): (r: seq<Edge>)
    ensures Sorted(r)
    ensures multiset(r) == multiset(s)
    ensures |r| == |s|
  {
    if s == [] then []
    else
      assert s == [s[0]] + s[1..];
      Insert(s[0], SortEdges(s[1..]))
  }

  /** Sorting keeps the endpoints of every edge in range. */
  lemma SortKeepsEndpoints(s: seq<Edge>, n: int)
    requires EndpointsIn(s, n)
    ensures EndpointsIn(SortEdges(s), n)
    ensures forall x :: x in SortEdges(s) <==> x in s
  {
    var r := SortEdges(s);
    forall x ensures x in r <==> x in s {
      assert x in r <==> x in multiset(r);
    }
    forall k | 0 <= k < |r| ensures 0 <= r[k].u < n && 0 <= r[k].v < n {
      assert r[k] in s;
    }
  }

  /** Two sorted arrangements of the same multiset of edges are equal. */
  lemma {:induction false} SortedUnique(a: seq<Edge>, b: seq<Edge>)
    requires Sorted(a) && Sorted(b)
    requires multiset(a) == multiset(b)
    ensures a == b
  {
    if a == [] {
      assert |multiset(b)| == 0;
    } else {
      assert |multiset(b)| == |a|;
      SameHead(a, b);
      assert a == [a[0]] + a[1..] && b == [b[0]] + b[1..];
      assert multiset(a[1..]) == multiset(a) - multiset{a[0]};
      assert multiset(b[1..]) == multiset(b) - multiset{b[0]};
      SortedUnique(a[1..], b[1..]);
    }
  }

  lemma SameHead(a: seq<Edge>, b: seq<Edge>)
    requires Sorted(a) && Sorted(b) && a != [] && b != []
    requires multiset(a) == multiset(b)
    ensures a[0] == b[0]
  {
    assert a[0] in multiset(b) && b[0] in multiset(a);
    var i :| 0 <= i < |b| && b[i] == a[0];
    var j :| 0 <= j < |a| && a[j] == b[0];
    assert EdgeLe(b[0], a[0]) by { if i > 0 { assert EdgeLe(b[0], b[i]); } }
    assert EdgeLe(a[0], b[0]) by { if j > 0 { assert EdgeLe(a[0], a[j]); } }
    EdgeLeTotal(a[0], b[0]);
  }

  /** Any sorted permutation of the list is the one SortEdges builds. */
  lemma SortIsCanonical(s: seq<Edge>, r: seq<Edge>)
    requires Sorted(r) && multiset(r) == multiset(s)
    ensures r == SortEdges(s)
  {
    SortedUnique(r, SortEdges(s));
  }
}
