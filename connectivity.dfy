/** Connectivity of an edge list, and labellings of the vertices that name
    its connected components. Kruskal's and Boruvka's union-find structures are
    both compared against this notion. */
module Connectivity {
  import opened Edges

  /** Some listed edge has endpoints {a, b}. */
  ghost predicate Linked(es: seq<Edge>, a: int, b: int) {
    exists k :: 0 <= k < |es| && Joins(es[k], a, b)
  }

  /** A walk: a non-empty vertex sequence whose consecutive vertices are linked. */
  ghost predicate IsWalk(es: seq<Edge>, w: seq<int>) {
    |w| >= 1 && forall i :: 0 <= i < |w| - 1 ==> Linked(es, w[i], w[i + 1])
  }

  ghost predicate Connected(es: seq<Edge>, a: int, b: int) {
    exists w :: IsWalk(es, w) && w[0] == a && w[|w| - 1] == b
  }

  /** Each edge joins two vertices that the edges before it did not connect. */
  ghost predicate IsForest(es: seq<Edge>) {
    forall k :: 0 <= k < |es| ==> !Connected(es[..k], es[k].u, es[k].v)
  }

  /** The list connects every pair of vertices 0 .. n-1. */
  ghost predicate ConnectsAll(es: seq<Edge>, n: int) {
    forall x, y :: 0 <= x < n && 0 <= y < n ==> Connected(es, x, y)
  }

  lemma ConnectedRefl(es: seq<Edge>, a: int)
    ensures Connected(es, a, a)
  {
    assert IsWalk(es, [a]);
  }

  lemma ConnectedByEdge(es: seq<Edge>, k: int)
    requires 0 <= k < |es|
    ensures Connected(es, es[k].u, es[k].v) && Connected(es, es[k].v, es[k].u)
  {
    assert Linked(es, es[k].u, es[k].v) && Linked(es, es[k].v, es[k].u);
    assert IsWalk(es, [es[k].u, es[k].v]);
    assert IsWalk(es, [es[k].v, es[k].u]);
  }

  lemma ConnectedSym(es: seq<Edge>, a: int, b: int)
    requires Connected(es, a, b)
    ensures Connected(es, b, a)
  {
    var w :| IsWalk(es, w) && w[0] == a && w[|w| - 1] == b;
    var r := seq(|w|, i requires 0 <= i < |w| => w[|w| - 1 - i]);
    forall i | 0 <= i < |r| - 1 ensures Linked(es, r[i], r[i + 1]) {
      var j := |w| - 2 - i;
      assert Linked(es, w[j], w[j + 1]);
      var k :| 0 <= k < |es| && Joins(es[k], w[j], w[j + 1]);
      assert Joins(es[k], r[i], r[i + 1]);
    }
    assert IsWalk(es, r);
  }

  lemma ConnectedTrans(es: seq<Edge>, a: int, b: int, c: int)
    requires Connected(es, a, b) && Connected(es, b, c)
    ensures Connected(es, a, c)
  {
    var w1 :| IsWalk(es, w1) && w1[0] == a && w1[|w1| - 1] == b;
    var w2 :| IsWalk(es, w2) && w2[0] == b && w2[|w2| - 1] == c;
    var w := w1 + w2[1..];
    forall i | 0 <= i < |w| - 1 ensures Linked(es, w[i], w[i + 1]) {
      if i < |w1| - 1 {
        assert w[i] == w1[i] && w[i + 1] == w1[i + 1];
      } else {
        var j := i - |w1| + 1;
        assert w[i] == w2[j] && w[i + 1] == w2[j + 1];
      }
    }
    assert IsWalk(es, w);
  }

  /** Every edge of es also occurs in fs. */
  ghost predicate EdgesWithin(es: seq<Edge>, fs: seq<Edge>) {
    forall k :: 0 <= k < |es| ==> es[k] in fs
  }

  lemma ConnectedMono(es: seq<Edge>, fs: seq<Edge>, a: int, b: int)
    requires EdgesWithin(es, fs)
    requires Connected(es, a, b)
    ensures Connected(fs, a, b)
  {
    var w :| IsWalk(es, w) && w[0] == a && w[|w| - 1] == b;
    forall i | 0 <= i < |w| - 1 ensures Linked(fs, w[i], w[i + 1]) {
      var k :| 0 <= k < |es| && Joins(es[k], w[i], w[i + 1]);
      var m :| 0 <= m < |fs| && fs[m] == es[k];
    }
    assert IsWalk(fs, w);
  }

  /** If each edge of es has its endpoints connected in fs, then whatever es
      connects, fs connects. */
  lemma {:induction false} ConnectedThrough(es: seq<Edge>, fs: seq<Edge>, a: int, b: int)
    requires forall k :: 0 <= k < |es| ==> Connected(fs, es[k].u, es[k].v)
    requires Connected(es, a, b)
    ensures Connected(fs, a, b)
  {
    var w :| IsWalk(es, w) && w[0] == a && w[|w| - 1] == b;
    var i := 0;
    ConnectedRefl(fs, a);
    while i < |w| - 1
      invariant 0 <= i <= |w| - 1
      invariant Connected(fs, a, w[i])
    {
      var k :| 0 <= k < |es| && Joins(es[k], w[i], w[i + 1]);
      if es[k].u == w[i] {
        ConnectedTrans(fs, a, w[i], w[i + 1]);
      } else {
        ConnectedSym(fs, es[k].u, es[k].v);
        ConnectedTrans(fs, a, w[i], w[i + 1]);
      }
      i := i + 1;
    }
  }

  // ---------------------------------------------------------------------
  // Labellings. L[x] names the component of vertex x, for x in 0 .. |L|-1.

  /** Every edge has both endpoints in range and in the same class. */
  ghost predicate Respects(L: seq<int>, es: seq<Edge>) {
    EndpointsIn(es, |L|) && forall k :: 0 <= k < |es| ==> L[es[k].u] == L[es[k].v]
  }

  /** The classes of L are exactly the connected components of es. */
  ghost predicate Represents(L: seq<int>, es: seq<Edge>) {
    forall x, y {:trigger Connected(es, x, y)} :: 0 <= x < |L| && 0 <= y < |L| ==> (L[x] == L[y] <==> Connected(es, x, y))
  }

  /** A labelling that every edge respects cannot separate connected vertices. */
  lemma {:induction false} RespectsConnected(L: seq<int>, es: seq<Edge>, a: int, b: int)
    requires Respects(L, es)
    requires 0 <= a < |L| && Connected(es, a, b)
    ensures 0 <= b < |L| && L[a] == L[b]
  {
    var w :| IsWalk(es, w) && w[0] == a && w[|w| - 1] == b;
    var i := 0;
    while i < |w| - 1
      invariant 0 <= i <= |w| - 1
      invariant 0 <= w[i] < |L| && L[w[i]] == L[a]
    {
      var k :| 0 <= k < |es| && Joins(es[k], w[i], w[i + 1]);
      i := i + 1;
    }
  }

  /** Every vertex whose label is `from` gets the label `to`. */
  function Relabel(L: seq<int>, from: int, to: int): (r: seq<int>)
    ensures |r| == |L|
    ensures forall i :: 0 <= i < |L| ==> r[i] == if L[i] == from then to else L[i]
  {
    seq(|L|, i requires 0 <= i < |L| => if L[i] == from then to else L[i])
  }

  function Identity(n: nat): (r: seq<int>)
    ensures |r| == n && forall i :: 0 <= i < n ==> r[i] == i
  {
    seq(n, i => i)
  }

  /** The number of classes of L. */
  function NumLabels(L: seq<int>): nat {
    |Image(L)|
  }

  /** The labels in use. */
  function Image(L: seq<int>): set<int> {
    set i | 0 <= i < |L| :: L[i]
  }

  /** With no edges, every vertex is its own component. */
  lemma NoEdgesIdentity(n: nat)
    ensures Represents(Identity(n), [])
    ensures NumLabels(Identity(n)) == n
  {
    var L := Identity(n);
    forall x, y | 0 <= x < n && 0 <= y < n ensures L[x] == L[y] <==> Connected([], x, y) {
      if x == y {
        ConnectedRefl([], x);
      }
      if Connected([], x, y) {
        var w :| IsWalk([], w) && w[0] == x && w[|w| - 1] == y;
        if |w| > 1 {
          assert Linked([], w[0], w[1]);
        }
      }
    }
    IdentityCount(n);
  }

  lemma {:induction false} IdentityCount(n: nat)
    ensures NumLabels(Identity(n)) == n
  {
    if n > 0 {
      IdentityCount(n - 1);
      var L, L' := Identity(n), Identity(n - 1);
      assert Image(L) == Image(L') + {n - 1} by {
        forall x | x in Image(L) ensures x in Image(L') + {n - 1} {
          var i :| 0 <= i < n && L[i] == x;
          if i < n - 1 { assert L'[i] == x; }
        }
        forall x | x in Image(L') ensures x in Image(L) {
          var i :| 0 <= i < n - 1 && L'[i] == x;
          assert L[i] == x;
        }
        assert L[n - 1] == n - 1;
      }
      assert n - 1 !in Image(L');
    }
  }

  /** Adding an edge whose endpoints lie in different classes, and merging
      those two classes, keeps the labelling in step with connectivity. */
  lemma MergeRepresents(L: seq<int>, es: seq<Edge>, e: Edge, from: int, to: int)
    requires Represents(L, es) && EndpointsIn(es, |L|)
    requires 0 <= e.u < |L| && 0 <= e.v < |L| && L[e.u] != L[e.v]
    requires (from == L[e.v] && to == L[e.u]) || (from == L[e.u] && to == L[e.v])
    ensures !Connected(es, e.u, e.v)
    ensures Represents(Relabel(L, from, to), es + [e])
  {
    var L' := Relabel(L, from, to);
    var es' := es + [e];
    assert EdgesWithin(es, es');
    forall k | 0 <= k < |es'| ensures L'[es'[k].u] == L'[es'[k].v] {
      if k < |es| {
        ConnectedByEdge(es, k);
      }
    }
    assert Respects(L', es');
    forall x, y | 0 <= x < |L| && 0 <= y < |L| ensures L'[x] == L'[y] <==> Connected(es', x, y) {
      if Connected(es', x, y) {
        RespectsConnected(L', es', x, y);
      }
      if L'[x] == L'[y] {
        if L[x] == L[y] {
          ConnectedMono(es, es', x, y);
        } else {
          ConnectedByEdge(es', |es|);
          if L[x] == L[e.u] {
            assert L[y] == L[e.v];
            ConnectedMono(es, es', x, e.u);
            ConnectedMono(es, es', e.v, y);
            ConnectedTrans(es', x, e.u, e.v);
            ConnectedTrans(es', x, e.v, y);
          } else {
            assert L[x] == L[e.v] && L[y] == L[e.u];
            ConnectedMono(es, es', x, e.v);
            ConnectedMono(es, es', e.u, y);
            ConnectedTrans(es', x, e.v, e.u);
            ConnectedTrans(es', x, e.u, y);
          }
        }
      }
    }
  }

  /** An edge inside one class changes no component. */
  lemma SameClassRepresents(L: seq<int>, es: seq<Edge>, e: Edge)
    requires Represents(L, es)
    requires 0 <= e.u < |L| && 0 <= e.v < |L| && L[e.u] == L[e.v]
    ensures Connected(es, e.u, e.v)
    ensures Represents(L, es + [e])
  {
    var es' := es + [e];
    assert EdgesWithin(es, es');
    forall k | 0 <= k < |es'| ensures Connected(es, es'[k].u, es'[k].v) {
      if k < |es| {
        ConnectedByEdge(es, k);
      }
    }
    forall x, y | 0 <= x < |L| && 0 <= y < |L| ensures L[x] == L[y] <==> Connected(es', x, y) {
      if Connected(es', x, y) {
        ConnectedThrough(es', es, x, y);
      }
      if L[x] == L[y] {
        ConnectedMono(es, es', x, y);
      }
    }
  }

  /** A non-empty labelling has a class; one representing a connected list has only one. */
  lemma ClassCount(L: seq<int>, es: seq<Edge>)
    requires Represents(L, es) && |L| >= 1
    ensures NumLabels(L) >= 1
    ensures ConnectsAll(es, |L|) ==> NumLabels(L) == 1
  {
    assert L[0] in Image(L);
    if ConnectsAll(es, |L|) {
      assert Image(L) == {L[0]} by {
        forall x | x in Image(L) ensures x == L[0] {
          var i :| 0 <= i < |L| && L[i] == x;
          assert Connected(es, i, 0);
        }
      }
    }
  }

  /** Merging two distinct classes removes exactly one class. */
  lemma RelabelCount(L: seq<int>, a: int, b: int)
    requires 0 <= a < |L| && 0 <= b < |L| && L[a] != L[b]
    ensures NumLabels(Relabel(L, L[b], L[a])) == NumLabels(L) - 1
  {
    var L' := Relabel(L, L[b], L[a]);
    var s, s' := Image(L), Image(L');
    assert s' == s - {L[b]} by {
      forall x | x in s' ensures x in s - {L[b]} {
        var i :| 0 <= i < |L'| && L'[i] == x;
      }
      forall x | x in s - {L[b]} ensures x in s' {
        var i :| 0 <= i < |L| && L[i] == x;
        assert L'[i] == x;
      }
    }
    assert L[b] in s;
  }

  /** A labelling that represents a connected list has a single class. */
  lemma SingleClass(L: seq<int>, es: seq<Edge>)
    requires Represents(L, es) && |L| >= 1
    requires NumLabels(L) <= 1
    ensures ConnectsAll(es, |L|)
  {
    var s := Image(L);
    forall x, y | 0 <= x < |L| && 0 <= y < |L| ensures Connected(es, x, y) {
      assert L[x] in s && L[y] in s;
      if L[x] != L[y] {
        assert {L[x], L[y]} <= s;
        assert |{L[x], L[y]}| == 2;
        SubsetSize({L[x], L[y]}, s);
      }
    }
  }

  lemma SubsetSize(a: set<int>, b: set<int>)
    requires a <= b
    ensures |a| <= |b|
  {
    assert b == a + (b - a);
  }

  /** Two classes remain, so some pair of vertices is apart; if the list
      connects everything, some edge of it crosses between two classes. */
  lemma CrossingEdge(L: seq<int>, es: seq<Edge>)
    requires EndpointsIn(es, |L|)
    requires NumLabels(L) >= 2
    requires ConnectsAll(es, |L|)
    ensures exists k :: 0 <= k < |es| && L[es[k].u] != L[es[k].v]
  {
    var s := Image(L);
    assert |s| >= 2;
    var i :| 0 <= i < |L|;
    var x := L[i];
    assert x in s;
    if forall z :: z in s ==> z == x {
      SubsetSize(s, {x});
      assert false;
    }
    var y :| y in s && y != x;
    var j :| 0 <= j < |L| && L[j] == y;
    if forall k :: 0 <= k < |es| ==> L[es[k].u] == L[es[k].v] {
      assert Respects(L, es);
      RespectsConnected(L, es, i, j);
      assert false;
    }
  }
}
