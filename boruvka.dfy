/** Boruvka.cpp: BoruvkaMST::computeMST with its own union-find over two
    vectors (parent[i] == i marks a root, ranks start at 0). Each round scans
    the edge list for the cheapest edge leaving every component, then adds
    those edges that still join two components, merging them as it goes.
    The round loop only ends once one component is left, so the model asks
    for an edge list that connects every vertex. */
module Boruvka {
  import opened Edges
  import opened Connectivity
  import opened UnionFind
  import opened SpanningForest
  import opened GraphModel

  /** findSet: the root of i, following parent pointers; every vertex on the
      way is pointed straight at the root, and no vertex changes root. */
  method FindSet(parent: array<int>, ghost rank: seq<int>, i: int) returns (r: int)
    requires RankOrdered(parent[..], rank, true) && 0 <= i < parent.Length
    modifies parent
    ensures RankOrdered(parent[..], rank, true)
    ensures r == old(Roots(parent[..], rank, true))[i] && parent[r] == r
    ensures Roots(parent[..], rank, true) == old(Roots(parent[..], rank, true))
    ensures r == i || parent[i] == r
    decreases MaxOf(rank) - rank[i]
  {
    if parent[i] == i {
      RootOfRoot(parent[..], rank, true, i);
      return i;
    }
    r := FindSet(parent, rank, parent[i]);
    ghost var P := parent[..];
    assert Roots(P, rank, true)[i] == r != i;
    RootOfRoot(P, rank, true, i);
    Compress(P, rank, true, i);
    parent[i] := r;
    assert parent[..] == P[i := r];
  }

  /** unionSets: finds the roots a of u and b of v; the root of lower rank
      goes under the other, and on a tie b goes under a and a's rank grows by
      one. There is no same-set guard: with a == b only a's rank changes. */
  method UnionSets(parent: array<int>, rank: array<int>, u: int, v: int)
    requires parent != rank && RankOrdered(parent[..], rank[..], true)
    requires 0 <= u < parent.Length && 0 <= v < parent.Length
    modifies parent, rank
    ensures RankOrdered(parent[..], rank[..], true)
    ensures var L := old(Roots(parent[..], rank[..], true)); var a, b := L[u], L[v];
      Roots(parent[..], rank[..], true) ==
        (if a == b then L
         else if old(rank[a]) > old(rank[b]) then Relabel(L, b, a)
         else if old(rank[a]) < old(rank[b]) then Relabel(L, a, b)
         else Relabel(L, b, a))
    ensures var L := old(Roots(parent[..], rank[..], true)); var a, b := L[u], L[v];
      rank[..] == (if old(rank[a]) == old(rank[b]) then old(rank[..])[a := old(rank[a]) + 1]
                   else old(rank[..]))
  {
    var a := FindSet(parent, rank[..], u);
    var b := FindSet(parent, rank[..], v);
    LinkRoots(parent, rank, a, b);
  }

  /** The linking half of unionSets, for roots a and b. */
  method LinkRoots(parent: array<int>, rank: array<int>, a: int, b: int)
    requires parent != rank && RankOrdered(parent[..], rank[..], true)
    requires 0 <= a < parent.Length && 0 <= b < parent.Length && parent[a] == a && parent[b] == b
    modifies parent, rank
    ensures RankOrdered(parent[..], rank[..], true)
    ensures var L := old(Roots(parent[..], rank[..], true));
      Roots(parent[..], rank[..], true) ==
        (if a == b then L
         else if old(rank[a]) > old(rank[b]) then Relabel(L, b, a)
         else if old(rank[a]) < old(rank[b]) then Relabel(L, a, b)
         else Relabel(L, b, a))
    ensures rank[..] == (if old(rank[a]) == old(rank[b]) then old(rank[..])[a := old(rank[a]) + 1]
                         else old(rank[..]))
  {
    ghost var P, R := parent[..], rank[..];
    if rank[a] > rank[b] {
      Link(P, R, R, true, a, b);
      parent[b] := a;
      assert parent[..] == P[b := a] && rank[..] == R;
    } else if rank[a] < rank[b] {
      Link(P, R, R, true, b, a);
      parent[a] := b;
      assert parent[..] == P[a := b] && rank[..] == R;
    } else if a != b {
      Link(P, R, R[a := R[a] + 1], true, a, b);
      parent[b] := a;
      rank[a] := rank[a] + 1;
      assert parent[..] == P[b := a] && rank[..] == R[a := R[a] + 1];
    } else {
      RaiseRoot(P, R, a);
      parent[b] := a;
      rank[a] := rank[a] + 1;
      assert parent[..] == P && rank[..] == R[a := R[a] + 1];
    }
  }

  /** Raising the rank of a root keeps the ranks ordered and every class. */
  lemma RaiseRoot(P: seq<int>, R: seq<int>, a: int)
    requires RankOrdered(P, R, true) && 0 <= a < |P| && P[a] == a
    ensures RankOrdered(P, R[a := R[a] + 1], true)
    ensures Roots(P, R[a := R[a] + 1], true) == Roots(P, R, true)
  {
    var R' := R[a := R[a] + 1];
    assert RankOrdered(P, R', true);
    forall j | 0 <= j < |P| ensures Root(P, R', true, j) == Root(P, R, true, j) {
      RaiseRootAt(P, R, R', a, j);
    }
  }

  /** Raising the rank of a root keeps every vertex's root. */
  lemma {:induction false} RaiseRootAt(P: seq<int>, R: seq<int>, R': seq<int>, a: int, j: int)
    requires RankOrdered(P, R, true) && 0 <= a < |P| && 0 <= j < |P| && P[a] == a
    requires R' == R[a := R[a] + 1] && RankOrdered(P, R', true)
    ensures Root(P, R', true, j) == Root(P, R, true, j)
    decreases MaxOf(R) - R[j]
  {
    if !IsRoot(P, j, true) {
      RaiseRootAt(P, R, R', a, P[j]);
    }
  }

  /** Edge k runs between two classes of L, one of which is c. */
  predicate Leaves(es: seq<Edge>, L: seq<int>, k: int, c: int)
    requires EndpointsIn(es, |L|) && 0 <= k < |es|
  {
    L[es[k].u] != L[es[k].v] && (L[es[k].u] == c || L[es[k].v] == c)
  }

  /** cheapest[c] after the scan has read the first j edges: the index of the
      lightest edge so far leaving c, an earlier edge winning a tie because
      only a strictly lighter one replaces it; -1 if none leaves c yet. */
  function CheapestUpTo(es: seq<Edge>, L: seq<int>, j: nat, c: int): (r: int)
    requires EndpointsIn(es, |L|) && j <= |es|
    ensures -1 <= r < j
    ensures r != -1 ==> Leaves(es, L, r, c)
  {
    if j == 0 then -1
    else
      var prev := CheapestUpTo(es, L, j - 1, c);
      if Leaves(es, L, j - 1, c) && (prev == -1 || es[prev].w > es[j - 1].w) then j - 1 else prev
  }

  /** What the scan records for class c: -1 exactly when no edge leaves c;
      otherwise an edge leaving c that is no heavier than any other edge
      leaving c and strictly lighter than every earlier one. */
  lemma {:induction false} CheapestIsFirstMinimum(es: seq<Edge>, L: seq<int>, j: nat, c: int)
    requires EndpointsIn(es, |L|) && j <= |es|
    ensures CheapestUpTo(es, L, j, c) == -1 <==> forall k :: 0 <= k < j ==> !Leaves(es, L, k, c)
    ensures var r := CheapestUpTo(es, L, j, c);
      r != -1 ==> forall k :: 0 <= k < j && Leaves(es, L, k, c) ==> es[r].w <= es[k].w
    ensures var r := CheapestUpTo(es, L, j, c);
      r != -1 ==> forall k :: 0 <= k < r && Leaves(es, L, k, c) ==> es[r].w < es[k].w
  {
    if j > 0 {
      CheapestIsFirstMinimum(es, L, j - 1, c);
    }
  }

  /** One scan: cheapest is reset to -1 and then, for each edge whose
      endpoints have different roots, the slots of both roots take the edge's
      position when they are empty or hold a strictly heavier edge. The
      position is the loop index; see README for how the source computes it.
      Only paths are compressed: no vertex changes root. */
  method ScanCheapest(es: seq<Edge>, parent: array<int>, ghost rank: seq<int>, cheapest: array<int>)
    requires parent != cheapest && cheapest.Length == parent.Length
    requires RankOrdered(parent[..], rank, true) && EndpointsIn(es, parent.Length)
    modifies parent, cheapest
    ensures RankOrdered(parent[..], rank, true)
    ensures Roots(parent[..], rank, true) == old(Roots(parent[..], rank, true))
    ensures forall c :: 0 <= c < cheapest.Length ==>
      cheapest[c] == CheapestUpTo(es, old(Roots(parent[..], rank, true)), |es|, c)
  {
    ghost var L := Roots(parent[..], rank, true);
    var n := cheapest.Length;
    for c := 0 to n
      invariant forall x :: 0 <= x < c ==> cheapest[x] == -1
      invariant parent[..] == old(parent[..])
    {
      cheapest[c] := -1;
    }
    for j := 0 to |es|
      invariant RankOrdered(parent[..], rank, true) && Roots(parent[..], rank, true) == L
      invariant forall c :: 0 <= c < n ==> cheapest[c] == CheapestUpTo(es, L, j, c)
    {
      ScanEdge(es, j, parent, rank, cheapest, L);
    }
  }

  /** The scan's body for edge j. */
  method ScanEdge(es: seq<Edge>, j: nat, parent: array<int>, ghost rank: seq<int>, cheapest: array<int>, ghost L: seq<int>)
    requires parent != cheapest && cheapest.Length == parent.Length
    requires j < |es| && EndpointsIn(es, parent.Length)
    requires RankOrdered(parent[..], rank, true) && Roots(parent[..], rank, true) == L
    requires forall c :: 0 <= c < cheapest.Length ==> cheapest[c] == CheapestUpTo(es, L, j, c)
    modifies parent, cheapest
    ensures RankOrdered(parent[..], rank, true) && Roots(parent[..], rank, true) == L
    ensures forall c :: 0 <= c < cheapest.Length ==> cheapest[c] == CheapestUpTo(es, L, j + 1, c)
  {
    var setU := FindSet(parent, rank, es[j].u);
    var setV := FindSet(parent, rank, es[j].v);
    Record(es, j, setU, setV, cheapest, L);
  }

  /** The slot updates for edge j once both endpoint classes are known: each
      of the two classes keeps edge j if it is strictly lighter than the
      class's recorded edge, or if the class has none yet. */
  method Record(es: seq<Edge>, j: nat, setU: int, setV: int, cheapest: array<int>, ghost L: seq<int>)
    requires j < |es| && EndpointsIn(es, |L|) && cheapest.Length == |L|
    requires setU == L[es[j].u] && setV == L[es[j].v]
    requires 0 <= setU < |L| && 0 <= setV < |L|
    requires forall c :: 0 <= c < cheapest.Length ==> cheapest[c] == CheapestUpTo(es, L, j, c)
    modifies cheapest
    ensures forall c :: 0 <= c < cheapest.Length ==> cheapest[c] == CheapestUpTo(es, L, j + 1, c)
  {
    var e := es[j];
    ghost var C := cheapest[..];
    ghost var C' := C;
    if setU != setV {
      if cheapest[setU] == -1 || es[cheapest[setU]].w > e.w {
        cheapest[setU] := j;
        C' := C'[setU := j];
      }
      if cheapest[setV] == -1 || es[cheapest[setV]].w > e.w {
        cheapest[setV] := j;
        C' := C'[setV := j];
      }
    }
    assert cheapest[..] == C';
    forall c | 0 <= c < cheapest.Length
      ensures cheapest[c] == CheapestUpTo(es, L, j + 1, c)
    {
      ScanSlot(es, L, j, c, C[c], C'[c], setU, setV);
    }
  }

  /** One slot of the scan's body: the slot changes to j exactly when edge j
      leaves class c and beats the slot's recorded edge. */
  lemma ScanSlot(es: seq<Edge>, L: seq<int>, j: nat, c: int, before: int, after: int, setU: int, setV: int)
    requires EndpointsIn(es, |L|) && j < |es|
    requires setU == L[es[j].u] && setV == L[es[j].v]
    requires before == CheapestUpTo(es, L, j, c)
    requires after == (if setU != setV && (c == setU || c == setV) && (before == -1 || es[before].w > es[j].w) then j else before)
    ensures after == CheapestUpTo(es, L, j + 1, c)
  {
  }

  /** The state kept between rounds: the union-find classes are the
      components of the chosen edges, which form a forest drawn from the
      input; numComponents counts the classes, and edges plus components
      make up the vertex count. */
  ghost predicate Inv(es: seq<Edge>, n: nat, parent: seq<int>, rank: seq<int>, mst: seq<Edge>, numComponents: int) {
    |parent| == n && RankOrdered(parent, rank, true) &&
    EndpointsIn(mst, n) && IsForest(mst) &&
    (forall k :: 0 <= k < |mst| ==> mst[k] in es) &&
    Represents(Roots(parent, rank, true), mst) &&
    numComponents == NumLabels(Roots(parent, rank, true)) &&
    |mst| + numComponents == n
  }

  /** Adding an edge across two classes and merging them, either way round,
      keeps the invariant with one component fewer. */
  lemma MergeInv(es: seq<Edge>, n: nat, P: seq<int>, R: seq<int>, mst: seq<Edge>, nc: int,
                 e: Edge, P': seq<int>, R': seq<int>)
    requires Inv(es, n, P, R, mst, nc) && e in es
    requires 0 <= e.u < n && 0 <= e.v < n
    requires Roots(P, R, true)[e.u] != Roots(P, R, true)[e.v]
    requires |P'| == n && RankOrdered(P', R', true)
    requires var L := Roots(P, R, true);
      Roots(P', R', true) == Relabel(L, L[e.v], L[e.u]) || Roots(P', R', true) == Relabel(L, L[e.u], L[e.v])
    ensures Inv(es, n, P', R', mst + [e], nc - 1)
  {
    var L := Roots(P, R, true);
    var L' := Roots(P', R', true);
    if L' == Relabel(L, L[e.v], L[e.u]) {
      MergeRepresents(L, mst, e, L[e.v], L[e.u]);
      RelabelCount(L, e.u, e.v);
    } else {
      MergeRepresents(L, mst, e, L[e.u], L[e.v]);
      RelabelCount(L, e.v, e.u);
    }
    ForestExtend(mst, e);
  }

  /** The second loop of a round: for each class slot in turn, the recorded
      edge is added when its endpoints still have different roots (earlier
      merges of the same round may have joined them). Since the first
      recorded edge meets the classes as the scan left them, at least one
      edge is added. */
  method MergeCheapest(es: seq<Edge>, parent: array<int>, rank: array<int>, cheapest: array<int>,
                       mst0: seq<Edge>, nc0: int, ghost L0: seq<int>, ghost w: int)
    returns (mst: seq<Edge>, numComponents: int)
    requires parent != rank && parent != cheapest && rank != cheapest
    requires cheapest.Length == parent.Length && EndpointsIn(es, parent.Length)
    requires Inv(es, parent.Length, parent[..], rank[..], mst0, nc0)
    requires Roots(parent[..], rank[..], true) == L0
    requires forall c :: 0 <= c < cheapest.Length ==> -1 <= cheapest[c] < |es|
    requires 0 <= w < cheapest.Length && cheapest[w] != -1
    requires L0[es[cheapest[w]].u] != L0[es[cheapest[w]].v]
    modifies parent, rank
    ensures Inv(es, parent.Length, parent[..], rank[..], mst, numComponents)
    ensures mst == MergePass(es, cheapest[..], mst0, cheapest.Length)
    ensures numComponents < nc0
  {
    var n := parent.Length;
    ghost var slots := cheapest[..];
    assert forall c :: 0 <= c < n ==> -1 <= slots[c] < |es|;
    mst, numComponents := mst0, nc0;
    var i := 0;
    while i < n
      invariant 0 <= i <= n
      invariant Inv(es, n, parent[..], rank[..], mst, numComponents)
      invariant MergedUpTo(es, slots, mst0, i, mst)
      invariant cheapest[..] == slots
    {
      var k := cheapest[i];
      mst, numComponents := MergeSlot(es, parent, rank, slots, mst0, i, k, mst, numComponents);
      i := i + 1;
    }
    MergePassProgress(es, slots, mst0, L0, w, n);
  }

  /** A slot whose recorded edge crosses two components of the incoming
      edges makes the pass append something: either an earlier slot already
      did, or the edges are still mst0 when the slot is read. */
  lemma {:induction false} MergePassProgress(es: seq<Edge>, slots: seq<int>, mst0: seq<Edge>, L0: seq<int>, w: int, i: nat)
    requires i <= |slots| && forall c :: 0 <= c < |slots| ==> -1 <= slots[c] < |es|
    requires EndpointsIn(es, |L0|) && Represents(L0, mst0)
    requires 0 <= w < i && slots[w] != -1 && L0[es[slots[w]].u] != L0[es[slots[w]].v]
    ensures |MergePass(es, slots, mst0, i)| > |mst0|
  {
    var m := MergePass(es, slots, mst0, i - 1);
    if i - 1 > w {
      MergePassProgress(es, slots, mst0, L0, w, i - 1);
    } else {
      MergePassGrows(es, slots, mst0, i - 1);
      if |m| == |mst0| {
        assert m == m[..|mst0|] == mst0;
        var e := es[slots[w]];
        assert 0 <= e.u < |L0| && 0 <= e.v < |L0|;
        assert !Connected(m, e.u, e.v);
      }
    }
  }

  /** The edges after the merge loop has read slots 0..i-1 of the recorded
      edge indices, starting from mst0: a recorded edge is appended when the
      edges chosen so far do not connect its endpoints yet. */
  ghost function MergePass(es: seq<Edge>, slots: seq<int>, mst0: seq<Edge>, i: nat): seq<Edge>
    requires i <= |slots| && forall c :: 0 <= c < |slots| ==> -1 <= slots[c] < |es|
  {
    if i == 0 then mst0
    else
      var m := MergePass(es, slots, mst0, i - 1);
      var k := slots[i - 1];
      if k == -1 || Connected(m, es[k].u, es[k].v) then m else m + [es[k]]
  }

  /** The merge pass keeps mst0 as a prefix and appends at most one edge per
      slot read. */
  lemma {:induction false} MergePassGrows(es: seq<Edge>, slots: seq<int>, mst0: seq<Edge>, i: nat)
    requires i <= |slots| && forall c :: 0 <= c < |slots| ==> -1 <= slots[c] < |es|
    ensures |mst0| <= |MergePass(es, slots, mst0, i)| <= |mst0| + i
    ensures MergePass(es, slots, mst0, i)[..|mst0|] == mst0
  {
    if i > 0 {
      MergePassGrows(es, slots, mst0, i - 1);
      var m := MergePass(es, slots, mst0, i - 1);
      var k := slots[i - 1];
      if k != -1 && !Connected(m, es[k].u, es[k].v) {
        assert (m + [es[k]])[..|mst0|] == m[..|mst0|];
      }
    }
  }

  /** mst is what the merge pass has built after reading i slots. */
  ghost predicate MergedUpTo(es: seq<Edge>, slots: seq<int>, mst0: seq<Edge>, i: nat, mst: seq<Edge>)
    requires i <= |slots| && forall c :: 0 <= c < |slots| ==> -1 <= slots[c] < |es|
  {
    mst == MergePass(es, slots, mst0, i)
  }

  /** One more slot, judged by a labelling whose classes are the components
      of the edges chosen so far: the edge is appended exactly when the
      labelling separates its endpoints. */
  lemma MergePassStep(es: seq<Edge>, slots: seq<int>, mst0: seq<Edge>, i: nat, L: seq<int>)
    requires i < |slots| && forall c :: 0 <= c < |slots| ==> -1 <= slots[c] < |es|
    requires EndpointsIn(es, |L|) && Represents(L, MergePass(es, slots, mst0, i))
    ensures var m, k := MergePass(es, slots, mst0, i), slots[i];
      MergePass(es, slots, mst0, i + 1) ==
        if k == -1 || L[es[k].u] == L[es[k].v] then m else m + [es[k]]
  {
    var m, k := MergePass(es, slots, mst0, i), slots[i];
    if k != -1 {
      assert L[es[k].u] == L[es[k].v] <==> Connected(m, es[k].u, es[k].v);
    }
  }

  /** Every edge the merge pass appends is the recorded edge of one of the
      slots it read. */
  lemma {:induction false} MergePassFrom(es: seq<Edge>, slots: seq<int>, mst0: seq<Edge>, i: nat)
    requires i <= |slots| && forall c :: 0 <= c < |slots| ==> -1 <= slots[c] < |es|
    ensures forall k :: |mst0| <= k < |MergePass(es, slots, mst0, i)| ==>
      FromSlot(es, slots, i, MergePass(es, slots, mst0, i)[k])
  {
    if i > 0 {
      MergePassFrom(es, slots, mst0, i - 1);
      var m := MergePass(es, slots, mst0, i - 1);
      var r := MergePass(es, slots, mst0, i);
      forall k | |mst0| <= k < |r| ensures FromSlot(es, slots, i, r[k]) {
        if k < |m| {
          assert FromSlot(es, slots, i - 1, m[k]);
          var c :| 0 <= c < i - 1 && slots[c] != -1 && m[k] == es[slots[c]];
          assert r[k] == m[k];
        } else {
          assert slots[i - 1] != -1 && r[k] == es[slots[i - 1]];
        }
      }
    }
  }

  /** e is the recorded edge of one of the first i slots. */
  ghost predicate FromSlot(es: seq<Edge>, slots: seq<int>, i: nat, e: Edge)
    requires i <= |slots| && forall c :: 0 <= c < |slots| ==> -1 <= slots[c] < |es|
  {
    exists c :: 0 <= c < i && slots[c] != -1 && e == es[slots[c]]
  }

  /** es[j] leaves class c of L, weighs no more than any edge leaving c,
      and is strictly lighter than every earlier edge leaving c. */
  ghost predicate FirstLightest(es: seq<Edge>, L: seq<int>, j: int, c: int)
    requires EndpointsIn(es, |L|)
  {
    0 <= j < |es| && Leaves(es, L, j, c) &&
    (forall x :: 0 <= x < |es| && Leaves(es, L, x, c) ==> es[j].w <= es[x].w) &&
    (forall x :: 0 <= x < j && Leaves(es, L, x, c) ==> es[j].w < es[x].w)
  }

  /** Every edge a round appends is, for some class c of the labelling the
      round started from, the first lightest edge of the list leaving c. */
  lemma RoundLightest(es: seq<Edge>, L: seq<int>, mst0: seq<Edge>)
    requires EndpointsIn(es, |L|)
    ensures forall k :: |mst0| <= k < |MergePass(es, Recorded(es, L), mst0, |L|)| ==>
      LightestOfSome(es, L, MergePass(es, Recorded(es, L), mst0, |L|)[k])
  {
    var slots := Recorded(es, L);
    var r := MergePass(es, slots, mst0, |L|);
    MergePassFrom(es, slots, mst0, |L|);
    forall k | |mst0| <= k < |r|
      ensures LightestOfSome(es, L, r[k])
    {
      assert FromSlot(es, slots, |L|, r[k]);
      var c :| 0 <= c < |L| && slots[c] != -1 && r[k] == es[slots[c]];
      SlotLightest(es, L, c);
      var j := slots[c];
      assert FirstLightest(es, L, j, c) && r[k] == es[j];
    }
  }

  /** e is, for some class c of L, the first lightest edge of es leaving c. */
  ghost predicate LightestOfSome(es: seq<Edge>, L: seq<int>, e: Edge)
    requires EndpointsIn(es, |L|)
  {
    exists c, j :: 0 <= c < |L| && FirstLightest(es, L, j, c) && e == es[j]
  }

  /** A non-empty slot of the scan holds the first lightest edge leaving its class. */
  lemma SlotLightest(es: seq<Edge>, L: seq<int>, c: int)
    requires EndpointsIn(es, |L|) && 0 <= c < |L|
    ensures Recorded(es, L)[c] != -1 ==> FirstLightest(es, L, Recorded(es, L)[c], c)
  {
    CheapestIsFirstMinimum(es, L, |es|, c);
  }

  /** The slots as the scan leaves them for the labelling L. */
  function Recorded(es: seq<Edge>, L: seq<int>): (r: seq<int>)
    requires EndpointsIn(es, |L|)
    ensures |r| == |L| && forall c :: 0 <= c < |L| ==> -1 <= r[c] < |es|
  {
    seq(|L|, c requires 0 <= c < |L| => CheapestUpTo(es, L, |es|, c))
  }

  /** The merge loop's body for slot value k: nothing when the slot is
      empty, otherwise MergeOne on the recorded edge. */
  method MergeSlot(es: seq<Edge>, parent: array<int>, rank: array<int>, ghost slots: seq<int>, ghost start: seq<Edge>,
                   i: nat, k: int, mst0: seq<Edge>, nc0: int)
    returns (mst: seq<Edge>, numComponents: int)
    requires parent != rank && EndpointsIn(es, parent.Length)
    requires i < |slots| && k == slots[i] && forall c :: 0 <= c < |slots| ==> -1 <= slots[c] < |es|
    requires MergedUpTo(es, slots, start, i, mst0)
    requires Inv(es, parent.Length, parent[..], rank[..], mst0, nc0)
    modifies parent, rank
    ensures Inv(es, parent.Length, parent[..], rank[..], mst, numComponents)
    ensures MergedUpTo(es, slots, start, i + 1, mst)
    ensures var L := old(Roots(parent[..], rank[..], true));
      if k == -1 || L[es[k].u] == L[es[k].v] then
        numComponents == nc0 && Roots(parent[..], rank[..], true) == L
      else numComponents == nc0 - 1
  {
    MergePassStep(es, slots, start, i, Roots(parent[..], rank[..], true));
    mst, numComponents := mst0, nc0;
    if k != -1 {
      mst, numComponents := MergeOne(es, parent, rank, es[k], mst, numComponents);
    }
  }

  /** The merge loop's body for one recorded edge e: it is added, and its
      two classes merged, only when its endpoints still have different roots. */
  method MergeOne(es: seq<Edge>, parent: array<int>, rank: array<int>, e: Edge, mst0: seq<Edge>, nc0: int)
    returns (mst: seq<Edge>, numComponents: int)
    requires parent != rank && e in es && 0 <= e.u < parent.Length && 0 <= e.v < parent.Length
    requires Inv(es, parent.Length, parent[..], rank[..], mst0, nc0)
    modifies parent, rank
    ensures Inv(es, parent.Length, parent[..], rank[..], mst, numComponents)
    ensures var L := old(Roots(parent[..], rank[..], true));
      if L[e.u] != L[e.v] then mst == mst0 + [e] && numComponents == nc0 - 1
      else mst == mst0 && numComponents == nc0 && Roots(parent[..], rank[..], true) == L
  {
    ghost var P, R := parent[..], rank[..];
    var setU := FindSet(parent, rank[..], e.u);
    var setV := FindSet(parent, rank[..], e.v);
    mst, numComponents := mst0, nc0;
    if setU != setV {
      mst := mst + [e];
      ghost var P1 := parent[..];
      RootOfRoot(P1, R, true, setU);
      RootOfRoot(P1, R, true, setV);
      UnionSets(parent, rank, setU, setV);
      MergeInv(es, parent.Length, P, R, mst0, nc0, e, parent[..], rank[..]);
      numComponents := numComponents - 1;
    }
  }

  /** BoruvkaMST::computeMST. Given an edge list that connects all V
      vertices, it returns a spanning tree of the list: a forest of input
      edges that connects every vertex, with V - 1 edges when V >= 1. The
      graph is only read. */
  method ComputeMST(graph: Graph) returns (mst: seq<Edge>)
    requires graph.Valid() && ConnectsAll(graph.mstEdges, graph.V)
    ensures IsForest(mst) && EndpointsIn(mst, graph.V)
    ensures forall k :: 0 <= k < |mst| ==> mst[k] in graph.mstEdges
    ensures ConnectsAll(mst, graph.V)
    ensures graph.V >= 1 ==> |mst| == graph.V - 1
  {
    var n := graph.V;
    var parent := new int[n](_ => 0);
    var rank := new int[n](_ => 0);
    var cheapest := new int[n](_ => -1);
    mst := [];
    for i := 0 to n
      invariant forall x :: 0 <= x < i ==> parent[x] == x
    {
      parent[i] := i;
    }
    StartInv(graph.mstEdges, n, parent[..], rank[..]);
    var numComponents := n;
    while numComponents > 1
      invariant Inv(graph.mstEdges, n, parent[..], rank[..], mst, numComponents)
      decreases numComponents
    {
      mst, numComponents := Round(graph.GetEdges(), parent, rank, cheapest, mst, numComponents);
    }
    FinishInv(graph.mstEdges, n, parent[..], rank[..], mst, numComponents);
  }

  /** Every vertex its own root and no edge chosen: the invariant holds with
      V components. */
  lemma StartInv(es: seq<Edge>, n: nat, P: seq<int>, R: seq<int>)
    requires |P| == n && |R| == n && forall i :: 0 <= i < n ==> P[i] == i
    ensures Inv(es, n, P, R, [], n)
  {
    AllRoots(P, R, true);
    NoEdgesIdentity(n);
  }

  /** Once at most one component is left, the chosen edges connect every
      vertex, and there are V - 1 of them. */
  lemma FinishInv(es: seq<Edge>, n: nat, P: seq<int>, R: seq<int>, mst: seq<Edge>, nc: int)
    requires Inv(es, n, P, R, mst, nc) && nc <= 1
    ensures ConnectsAll(mst, n)
    ensures n >= 1 ==> |mst| == n - 1
  {
    if n >= 1 {
      var L := Roots(P, R, true);
      ClassCount(L, mst);
      SingleClass(L, mst);
    }
  }

  /** One round of the while loop, which runs while more than one component
      is left: the scan, then the merges. It ends with fewer components. */
  method Round(es: seq<Edge>, parent: array<int>, rank: array<int>, cheapest: array<int>,
               mst0: seq<Edge>, nc0: int)
    returns (mst: seq<Edge>, numComponents: int)
    requires parent != rank && parent != cheapest && rank != cheapest
    requires cheapest.Length == parent.Length && EndpointsIn(es, parent.Length)
    requires ConnectsAll(es, parent.Length)
    requires Inv(es, parent.Length, parent[..], rank[..], mst0, nc0) && nc0 > 1
    modifies parent, rank, cheapest
    ensures Inv(es, parent.Length, parent[..], rank[..], mst, numComponents)
    ensures mst == MergePass(es, Recorded(es, old(Roots(parent[..], rank[..], true))), mst0, parent.Length)
    ensures numComponents < nc0
  {
    ghost var L := Roots(parent[..], rank[..], true);
    ScanCheapest(es, parent, rank[..], cheapest);
    assert cheapest[..] == Recorded(es, L);
    ghost var w := SomeCheapest(es, L);
    forall c | 0 <= c < cheapest.Length && cheapest[c] != -1
      ensures L[es[cheapest[c]].u] != L[es[cheapest[c]].v]
    {
      assert Leaves(es, L, cheapest[c], c);
    }
    mst, numComponents := MergeCheapest(es, parent, rank, cheapest, mst0, nc0, L, w);
  }

  /** With two or more classes and a list connecting everything, some class
      has an edge leaving it, so the scan records at least one edge. */
  lemma SomeCheapest(es: seq<Edge>, L: seq<int>) returns (c: int)
    requires EndpointsIn(es, |L|) && NumLabels(L) >= 2 && ConnectsAll(es, |L|)
    requires forall i :: 0 <= i < |L| ==> 0 <= L[i] < |L|
    ensures 0 <= c < |L| && CheapestUpTo(es, L, |es|, c) != -1
  {
    CrossingEdge(L, es);
    var k :| 0 <= k < |es| && L[es[k].u] != L[es[k].v];
    c := L[es[k].u];
    CheapestIsFirstMinimum(es, L, |es|, c);
    assert Leaves(es, L, k, c);
  }
}
