/** Prim.cpp: PrimMST::computeMST. Vertex 0 starts with key 0; the loop pops
    the smallest (key, vertex) pair, skips vertices already in the tree, emits
    (key[u], parent[u], u) when u has a parent, and then relaxes every edge of
    the list with the neighbour rule "v is the other end if u is the first
    end, else the first end", which also picks v for edges that do not touch u.

    The loop is specified by a state machine (Step, Run); the imperative
    method is proved to compute Run from the initial state. */
module Prim {
  import opened Edges
  import opened PriorityQueue
  import opened GraphModel
  import opened Connectivity

  datatype PrimState = PrimState(key: seq<int>, parent: seq<int>, inMST: seq<bool>, pq: seq<Entry>, out: seq<Edge>)

  /** The neighbour rule of Prim.cpp:39. */
  function Other(e: Edge, u: int): (r: int)
    ensures u == e.u || u == e.v ==> {u, r} == {e.u, e.v}
    ensures u != e.u && u != e.v ==> r == e.u
  {
    if u == e.u then e.v else e.u
  }

  predicate Shaped(st: PrimState, n: nat) {
    |st.key| == n && |st.parent| == n && |st.inMST| == n &&
    forall k :: 0 <= k < |st.pq| ==> 0 <= st.pq[k].1 < n
  }

  /** The starting state for n >= 1 vertices: key[0] = 0, (0, 0) queued. */
  function Init(n: nat): (st: PrimState)
    requires n >= 1
    ensures Shaped(st, n)
  {
    PrimState(seq(n, _ => IntMax)[0 := 0], seq(n, _ => -1), seq(n, _ => false), [(0, 0)], [])
  }

  /** One pass of the inner loop body: edge e seen from the current vertex u. */
  function RelaxEdge(e: Edge, u: int, st: PrimState): (r: PrimState)
    requires Shaped(st, |st.key|) && 0 <= e.u < |st.key| && 0 <= e.v < |st.key|
    ensures Shaped(r, |st.key|) && r.inMST == st.inMST && r.out == st.out
  {
    var v := Other(e, u);
    if !st.inMST[v] && e.w < st.key[v] then
      st.(key := st.key[v := e.w], parent := st.parent[v := u], pq := st.pq + [(e.w, v)])
    else
      st
  }

  /** A relaxation only appends to the queue; a key only drops, only for a
      vertex outside the tree, and every drop queues the new (key, vertex) pair. */
  lemma RelaxEdgeKeys(e: Edge, u: int, st: PrimState)
    requires Shaped(st, |st.key|) && 0 <= e.u < |st.key| && 0 <= e.v < |st.key|
    ensures var r := RelaxEdge(e, u, st);
      |r.pq| >= |st.pq| && r.pq[..|st.pq|] == st.pq
    ensures var r := RelaxEdge(e, u, st);
      forall x :: 0 <= x < |st.key| ==> r.key[x] <= st.key[x]
    ensures var r := RelaxEdge(e, u, st);
      forall x :: 0 <= x < |st.key| && st.inMST[x] ==> r.key[x] == st.key[x] && r.parent[x] == st.parent[x]
    ensures var r := RelaxEdge(e, u, st);
      forall x :: 0 <= x < |st.key| && r.key[x] < st.key[x] ==> (r.key[x], x) in r.pq
  {
    var v := Other(e, u);
    if !st.inMST[v] && e.w < st.key[v] {
      var r := RelaxEdge(e, u, st);
      assert r.pq[|st.pq|] == (e.w, v);
    }
  }

  /** The inner loop from edge j on. */
  function RelaxFrom(es: seq<Edge>, j: nat, u: int, st: PrimState): (r: PrimState)
    requires Shaped(st, |st.key|) && EndpointsIn(es, |st.key|) && j <= |es|
    ensures Shaped(r, |st.key|) && r.inMST == st.inMST && r.out == st.out
    decreases |es| - j
  {
    if j == |es| then st else RelaxFrom(es, j + 1, u, RelaxEdge(es[j], u, st))
  }

  /** One iteration of the while loop. */
  function Step(es: seq<Edge>, st: PrimState): (r: PrimState)
    requires Shaped(st, |st.key|) && EndpointsIn(es, |st.key|) && st.pq != []
    ensures Shaped(r, |st.key|)
  {
    var u := st.pq[MinIndex(st.pq)].1;
    var popped := st.(pq := Pop(st.pq));
    assert Shaped(popped, |st.key|) by {
      forall k | 0 <= k < |popped.pq| ensures 0 <= popped.pq[k].1 < |st.key| {
        assert popped.pq[k] in st.pq;
      }
    }
    if st.inMST[u] then popped
    else
      RelaxFrom(es, 0, u, Enter(popped, u))
  }

  /** The while loop run to the end: the emitted triples. */
  function Run(es: seq<Edge>, st: PrimState): (r: seq<Edge>)
    requires Shaped(st, |st.key|) && EndpointsIn(es, |st.key|)
    ensures |st.out| <= |r| <= |st.out| + |st.inMST| - CountTrue(st.inMST)
    ensures r[..|st.out|] == st.out
    decreases |st.inMST| - CountTrue(st.inMST), |st.pq|
  {
    if st.pq == [] then st.out
    else
      StepDecreases(es, st);
      StepOut(es, st);
      var next := Step(es, st);
      var r := Run(es, next);
      assert r[..|st.out|] == r[..|next.out|][..|st.out|];
      r
  }

  function PrimSpec(es: seq<Edge>, n: nat): (r: seq<Edge>)
    requires n >= 1 && EndpointsIn(es, n)
    ensures |r| <= n
  {
    Run(es, Init(n))
  }

  /** One iteration only appends to the output, and appends no more triples
      than vertices it adds to the tree. */
  lemma StepOut(es: seq<Edge>, st: PrimState)
    requires Shaped(st, |st.key|) && EndpointsIn(es, |st.key|) && st.pq != []
    ensures var r := Step(es, st);
      |st.out| <= |r.out| && r.out[..|st.out|] == st.out &&
      |r.out| - |st.out| <= CountTrue(r.inMST) - CountTrue(st.inMST)
  {
    StepCases(es, st);
  }

  /** Each iteration either shrinks the queue without adding to the tree, or
      adds a vertex to the tree. */
  lemma StepDecreases(es: seq<Edge>, st: PrimState)
    requires Shaped(st, |st.key|) && EndpointsIn(es, |st.key|) && st.pq != []
    ensures var r := Step(es, st);
      |r.inMST| == |st.inMST| &&
      (CountTrue(r.inMST) > CountTrue(st.inMST) ||
       (CountTrue(r.inMST) == CountTrue(st.inMST) && |r.pq| < |st.pq|))
  {
    var u := st.pq[MinIndex(st.pq)].1;
    if !st.inMST[u] {
      CountTrueSet(st.inMST, u);
    }
  }

  /** Edge e seen from u changes nothing: it leads into the tree or is no
      lighter than the key it would replace. */
  predicate Inert(e: Edge, u: int, st: PrimState)
    requires Shaped(st, |st.key|) && 0 <= e.u < |st.key| && 0 <= e.v < |st.key|
  {
    st.inMST[Other(e, u)] || e.w >= st.key[Other(e, u)]
  }

  /** Edges j..j'-1 that change nothing can be passed over. */
  lemma RelaxFromSkip(es: seq<Edge>, j: nat, j': nat, u: int, st: PrimState)
    requires Shaped(st, |st.key|) && EndpointsIn(es, |st.key|) && j <= j' <= |es|
    requires forall k :: j <= k < j' ==> Inert(es[k], u, st)
    ensures RelaxFrom(es, j, u, st) == RelaxFrom(es, j', u, st)
  {
    var k := j;
    while k < j'
      invariant j <= k <= j'
      invariant RelaxFrom(es, j, u, st) == RelaxFrom(es, k, u, st)
    {
      RelaxFromPass(es, k, u, st);
      k := k + 1;
    }
  }

  /** One edge that changes nothing. */
  lemma RelaxFromPass(es: seq<Edge>, j: nat, u: int, st: PrimState)
    requires Shaped(st, |st.key|) && EndpointsIn(es, |st.key|) && j < |es|
    requires Inert(es[j], u, st)
    ensures RelaxFrom(es, j, u, st) == RelaxFrom(es, j + 1, u, st)
  {
    assert RelaxEdge(es[j], u, st) == st;
  }

  /** Some edge of the list leads from p to x by the neighbour rule and weighs w. */
  ghost predicate HasEdge(es: seq<Edge>, w: int, p: int, x: int) {
    exists k :: 0 <= k < |es| && es[k].w == w && Other(es[k], p) == x
  }

  /** What the emitted triples (w, p, x) satisfy: x is a vertex other than 0,
      no vertex is emitted twice, p is 0 or a vertex emitted earlier, and some
      list edge weighing w leads from p to x by the neighbour rule. */
  ghost predicate OutOk(es: seq<Edge>, n: nat, out: seq<Edge>) {
    (forall k :: 0 <= k < |out| ==>
       0 < out[k].v < n && 0 <= out[k].u < n && HasEdge(es, out[k].w, out[k].u, out[k].v)) &&
    (forall i, j :: 0 <= i < j < |out| ==> out[i].v != out[j].v) &&
    (forall k :: 0 <= k < |out| ==> out[k].u == 0 || exists j :: 0 <= j < k && out[j].v == out[k].u)
  }

  /** Vertex 0 never gets a parent, and it is in the tree once anything is. */
  ghost predicate RootFirst(st: PrimState)
    requires |st.parent| >= 1 && |st.inMST| >= 1
  {
    st.parent[0] == -1 && forall x :: 0 <= x < |st.inMST| && st.inMST[x] ==> st.inMST[0]
  }

  /** A vertex's parent is a tree vertex from which a list edge weighing its key leads to it. */
  ghost predicate ParentsOk(es: seq<Edge>, n: nat, st: PrimState)
    requires Shaped(st, n)
  {
    forall x :: 0 <= x < n && st.parent[x] != -1 ==>
      0 <= st.parent[x] < n && st.inMST[st.parent[x]] && HasEdge(es, st.key[x], st.parent[x], x)
  }

  /** The tree is vertex 0 plus the emitted vertices. */
  ghost predicate TreeEmitted(n: nat, st: PrimState)
    requires Shaped(st, n)
  {
    (forall x :: 0 <= x < n && st.inMST[x] && x != 0 ==> exists k :: 0 <= k < |st.out| && st.out[k].v == x) &&
    (forall k :: 0 <= k < |st.out| ==> 0 <= st.out[k].v < n && st.inMST[st.out[k].v])
  }

  /** Every queued vertex other than 0 has a parent. */
  ghost predicate QueuedHaveParents(n: nat, st: PrimState)
    requires Shaped(st, n)
  {
    forall k :: 0 <= k < |st.pq| ==> st.pq[k].1 == 0 || st.parent[st.pq[k].1] != -1
  }

  /** The loop invariant of computeMST. */
  ghost predicate Inv(es: seq<Edge>, n: nat, st: PrimState) {
    n >= 1 && Shaped(st, n) && EndpointsIn(es, n) &&
    RootFirst(st) && ParentsOk(es, n, st) && TreeEmitted(n, st) && QueuedHaveParents(n, st) &&
    OutOk(es, n, st.out)
  }

  lemma InitInv(es: seq<Edge>, n: nat)
    requires n >= 1 && EndpointsIn(es, n)
    ensures Inv(es, n, Init(n))
  {
  }

  /** Relaxing an edge from a tree vertex u keeps the invariant. */
  lemma RelaxEdgeInv(es: seq<Edge>, n: nat, j: int, u: int, st: PrimState)
    requires Inv(es, n, st) && 0 <= j < |es| && 0 <= u < n && st.inMST[u]
    ensures Inv(es, n, RelaxEdge(es[j], u, st))
  {
    var e := es[j];
    var v := Other(e, u);
    if !st.inMST[v] && e.w < st.key[v] {
      var r := RelaxEdge(e, u, st);
      assert v != 0;
      assert HasEdge(es, r.key[v], u, v);
      assert ParentsOk(es, n, r);
      forall k | 0 <= k < |r.pq| ensures r.pq[k].1 == 0 || r.parent[r.pq[k].1] != -1 {
        if k < |st.pq| { assert r.pq[k] == st.pq[k]; }
      }
    }
  }

  lemma {:induction false} RelaxFromInv(es: seq<Edge>, n: nat, j: nat, u: int, st: PrimState)
    requires Inv(es, n, st) && j <= |es| && 0 <= u < n && st.inMST[u]
    ensures Inv(es, n, RelaxFrom(es, j, u, st))
    decreases |es| - j
  {
    if j < |es| {
      var mid := RelaxEdge(es[j], u, st);
      RelaxEdgeInv(es, n, j, u, st);
      assert mid.inMST == st.inMST;
      RelaxFromInv(es, n, j + 1, u, mid);
    }
  }

  /** Popping keeps the invariant. */
  lemma PopInv(es: seq<Edge>, n: nat, st: PrimState)
    requires Inv(es, n, st) && st.pq != []
    ensures Inv(es, n, st.(pq := Pop(st.pq)))
  {
    var popped := st.(pq := Pop(st.pq));
    forall k | 0 <= k < |popped.pq| ensures popped.pq[k].1 == 0 || popped.parent[popped.pq[k].1] != -1 {
      assert popped.pq[k] in st.pq;
    }
  }

  /** The state once u, popped and not yet in the tree, enters it. */
  function Enter(st: PrimState, u: int): (r: PrimState)
    requires 0 <= u < |st.key| == |st.parent| == |st.inMST|
    ensures |r.inMST| == |st.inMST| && r.inMST[u] && (!st.inMST[u] ==> CountTrue(r.inMST) == CountTrue(st.inMST) + 1)
    ensures |st.out| <= |r.out| <= |st.out| + 1 && r.out[..|st.out|] == st.out
    ensures |r.out| > |st.out| <==> st.parent[u] != -1
    ensures |r.out| > |st.out| ==> r.out[|st.out|] == Edge(st.key[u], st.parent[u], u)
  {
    var r := st.(inMST := st.inMST[u := true],
                 out := if st.parent[u] != -1 then st.out + [Edge(st.key[u], st.parent[u], u)] else st.out);
    if st.inMST[u] then r
    else
      CountTrueSet(st.inMST, u);
      r
  }

  /** Vertex 0 or a vertex with a parent entering the tree keeps the invariant. */
  lemma EnterInv(es: seq<Edge>, n: nat, st: PrimState, u: int)
    requires Inv(es, n, st) && 0 <= u < n && !st.inMST[u] && (u == 0 || st.parent[u] != -1)
    ensures Inv(es, n, Enter(st, u))
  {
    if st.parent[u] != -1 {
      EmitOk(es, n, st, u);
    }
    EnterParents(es, n, st, u);
    EnterTree(es, n, st, u);
  }

  lemma EnterParents(es: seq<Edge>, n: nat, st: PrimState, u: int)
    requires Inv(es, n, st) && 0 <= u < n && !st.inMST[u] && (u == 0 || st.parent[u] != -1)
    ensures Shaped(Enter(st, u), n)
    ensures RootFirst(Enter(st, u)) && ParentsOk(es, n, Enter(st, u)) && QueuedHaveParents(n, Enter(st, u))
  {
    var r := Enter(st, u);
    assert RootFirst(r);
  }

  lemma EnterTree(es: seq<Edge>, n: nat, st: PrimState, u: int)
    requires Inv(es, n, st) && 0 <= u < n && !st.inMST[u] && (u == 0 || st.parent[u] != -1)
    ensures Shaped(Enter(st, u), n) && TreeEmitted(n, Enter(st, u))
  {
    var r := Enter(st, u);
    forall x | 0 <= x < n && r.inMST[x] && x != 0 ensures exists k :: 0 <= k < |r.out| && r.out[k].v == x {
      if x == u {
        assert r.out[|r.out| - 1].v == u;
      } else {
        var k :| 0 <= k < |st.out| && st.out[k].v == x;
        assert r.out[k].v == x;
      }
    }
    forall k | 0 <= k < |r.out| ensures 0 <= r.out[k].v < n && r.inMST[r.out[k].v] {
      if k < |st.out| {
        assert r.out[k] == st.out[k];
      }
    }
  }

  /** The triple of a vertex with a parent, appended to the emitted list, keeps OutOk. */
  lemma EmitOk(es: seq<Edge>, n: nat, st: PrimState, u: int)
    requires Inv(es, n, st) && 0 <= u < n && !st.inMST[u] && st.parent[u] != -1
    ensures OutOk(es, n, st.out + [Edge(st.key[u], st.parent[u], u)])
  {
    EmitEdges(es, n, st, u);
    EmitDistinct(es, n, st, u);
    EmitOrdered(es, n, st, u);
  }

  /** Every emitted triple is still an edge of the list between vertices. */
  lemma EmitEdges(es: seq<Edge>, n: nat, st: PrimState, u: int)
    requires Inv(es, n, st) && 0 <= u < n && !st.inMST[u] && st.parent[u] != -1
    ensures var out := st.out + [Edge(st.key[u], st.parent[u], u)];
      forall k :: 0 <= k < |out| ==>
        0 < out[k].v < n && 0 <= out[k].u < n && HasEdge(es, out[k].w, out[k].u, out[k].v)
  {
    var out := st.out + [Edge(st.key[u], st.parent[u], u)];
    assert u != 0 && 0 <= st.parent[u] < n && HasEdge(es, st.key[u], st.parent[u], u);
    forall k | 0 <= k < |out|
      ensures 0 < out[k].v < n && 0 <= out[k].u < n && HasEdge(es, out[k].w, out[k].u, out[k].v)
    {
      if k < |st.out| { assert out[k] == st.out[k]; }
    }
  }

  /** No vertex is emitted twice. */
  lemma EmitDistinct(es: seq<Edge>, n: nat, st: PrimState, u: int)
    requires Inv(es, n, st) && 0 <= u < n && !st.inMST[u] && st.parent[u] != -1
    ensures var out := st.out + [Edge(st.key[u], st.parent[u], u)];
      forall i, j :: 0 <= i < j < |out| ==> out[i].v != out[j].v
  {
    var out := st.out + [Edge(st.key[u], st.parent[u], u)];
    forall i, j | 0 <= i < j < |out| ensures out[i].v != out[j].v {
      if j < |st.out| {
        assert out[i] == st.out[i] && out[j] == st.out[j];
      } else {
        assert out[i] == st.out[i] && st.inMST[out[i].v];
      }
    }
  }

  /** Every emitted parent is vertex 0 or was emitted earlier. */
  lemma EmitOrdered(es: seq<Edge>, n: nat, st: PrimState, u: int)
    requires Inv(es, n, st) && 0 <= u < n && !st.inMST[u] && st.parent[u] != -1
    ensures var out := st.out + [Edge(st.key[u], st.parent[u], u)];
      forall k :: 0 <= k < |out| ==> out[k].u == 0 || exists j :: 0 <= j < k && out[j].v == out[k].u
  {
    var p := st.parent[u];
    var out := st.out + [Edge(st.key[u], p, u)];
    forall k | 0 <= k < |out| ensures out[k].u == 0 || exists j :: 0 <= j < k && out[j].v == out[k].u {
      if k < |st.out| {
        assert out[k] == st.out[k];
        if out[k].u != 0 {
          var j :| 0 <= j < k && st.out[j].v == st.out[k].u;
          assert out[j] == st.out[j];
        }
      } else if p != 0 {
        var j :| 0 <= j < |st.out| && st.out[j].v == p;
        assert out[j] == st.out[j];
      }
    }
  }

  /** One iteration keeps the invariant. */
  lemma StepInv(es: seq<Edge>, n: nat, st: PrimState)
    requires Inv(es, n, st) && st.pq != []
    ensures Inv(es, n, Step(es, st))
  {
    var u := st.pq[MinIndex(st.pq)].1;
    var popped := st.(pq := Pop(st.pq));
    PopInv(es, n, st);
    if !st.inMST[u] {
      EnterInv(es, n, popped, u);
      RelaxFromInv(es, n, 0, u, Enter(popped, u));
    }
  }

  /** Started from a state satisfying the invariant, the loop emits triples
      satisfying OutOk. */
  lemma {:induction false} RunOk(es: seq<Edge>, n: nat, st: PrimState)
    requires Inv(es, n, st)
    ensures OutOk(es, n, Run(es, st))
    decreases |st.inMST| - CountTrue(st.inMST), |st.pq|
  {
    if st.pq != [] {
      StepDecreases(es, st);
      StepInv(es, n, st);
      RunOk(es, n, Step(es, st));
    }
  }

  /** Distinct vertices drawn from 1..n-1 number at most n - 1. */
  lemma DistinctBound(out: seq<Edge>, n: nat)
    requires n >= 1
    requires forall k :: 0 <= k < |out| ==> 0 < out[k].v < n
    requires forall i, j :: 0 <= i < j < |out| ==> out[i].v != out[j].v
    ensures |out| <= n - 1
  {
    var vs := set k | 0 <= k < |out| :: out[k].v;
    DistinctCount(out);
    assert vs <= Below(n) - {0};
    SubsetSize(vs, Below(n) - {0});
  }

  lemma {:induction false} DistinctCount(out: seq<Edge>)
    requires forall i, j :: 0 <= i < j < |out| ==> out[i].v != out[j].v
    ensures |set k | 0 <= k < |out| :: out[k].v| == |out|
  {
    if out != [] {
      var pre := out[..|out| - 1];
      DistinctCount(pre);
      var a := set k | 0 <= k < |pre| :: pre[k].v;
      var b := set k | 0 <= k < |out| :: out[k].v;
      assert b == a + {out[|out| - 1].v};
      assert out[|out| - 1].v !in a;
    }
  }

  /** The vertices 0..n-1. */
  function Below(n: nat): (r: set<int>)
    ensures |r| == n
    ensures forall x :: x in r <==> 0 <= x < n
  {
    if n == 0 then {} else Below(n - 1) + {n - 1}
  }

  /** What computeMST returns for V >= 1: triples (w, p, x) with x a vertex
      other than 0 (the root emits nothing), each vertex at most once, p the
      root or a vertex emitted earlier, w the weight of a list edge that the
      neighbour rule leads from p to x, and at most V - 1 of them. */
  lemma PrimProperties(es: seq<Edge>, n: nat)
    requires n >= 1 && EndpointsIn(es, n)
    ensures OutOk(es, n, PrimSpec(es, n))
    ensures |PrimSpec(es, n)| <= n - 1
  {
    InitInv(es, n);
    RunOk(es, n, Init(n));
    DistinctBound(PrimSpec(es, n), n);
  }

  /** Over one iteration a key only drops, never for a vertex already in the
      tree, and each drop leaves the new (key, vertex) pair queued. */
  lemma StepKeys(es: seq<Edge>, st: PrimState)
    requires Shaped(st, |st.key|) && EndpointsIn(es, |st.key|) && st.pq != []
    ensures var r := Step(es, st);
      forall x :: 0 <= x < |st.key| ==>
        r.key[x] <= st.key[x] &&
        (st.inMST[x] ==> r.key[x] == st.key[x] && r.parent[x] == st.parent[x]) &&
        (r.key[x] < st.key[x] ==> (r.key[x], x) in r.pq)
  {
    var u := st.pq[MinIndex(st.pq)].1;
    if !st.inMST[u] {
      var out := if st.parent[u] != -1 then st.out + [Edge(st.key[u], st.parent[u], u)] else st.out;
      var entered := st.(pq := Pop(st.pq), inMST := st.inMST[u := true], out := out);
      RelaxFromKeys(es, 0, u, entered);
    }
  }

  lemma {:induction false} RelaxFromKeys(es: seq<Edge>, j: nat, u: int, st: PrimState)
    requires Shaped(st, |st.key|) && EndpointsIn(es, |st.key|) && j <= |es|
    ensures var r := RelaxFrom(es, j, u, st);
      forall x :: 0 <= x < |st.key| ==>
        r.key[x] <= st.key[x] &&
        (st.inMST[x] ==> r.key[x] == st.key[x] && r.parent[x] == st.parent[x]) &&
        (r.key[x] < st.key[x] ==> (r.key[x], x) in r.pq)
    decreases |es| - j
  {
    if j < |es| {
      var mid := RelaxEdge(es[j], u, st);
      RelaxEdgeKeys(es[j], u, st);
      RelaxFromKeys(es, j + 1, u, mid);
      var r := RelaxFrom(es, j + 1, u, mid);
      forall x | 0 <= x < |st.key| && r.key[x] < st.key[x] ensures (r.key[x], x) in r.pq {
        if r.key[x] == mid.key[x] {
          RelaxFromKeepsQueue(es, j + 1, u, mid, (mid.key[x], x));
        }
      }
    }
  }

  /** The inner loop only appends to the queue. */
  lemma {:induction false} RelaxFromKeepsQueue(es: seq<Edge>, j: nat, u: int, st: PrimState, x: Entry)
    requires Shaped(st, |st.key|) && EndpointsIn(es, |st.key|) && j <= |es| && x in st.pq
    ensures x in RelaxFrom(es, j, u, st).pq
    decreases |es| - j
  {
    if j < |es| {
      var mid := RelaxEdge(es[j], u, st);
      RelaxEdgeKeys(es[j], u, st);
      var i :| 0 <= i < |st.pq| && st.pq[i] == x;
      assert mid.pq[i] == x;
      RelaxFromKeepsQueue(es, j + 1, u, mid, x);
    }
  }

  /** PrimMST::computeMST, with key, parent and inMST as arrays and the
      priority queue as a bag of pairs. The graph is only read. */
  method ComputeMST(graph: Graph) returns (mst: seq<Edge>)
    requires graph.Valid() && graph.V >= 1
    ensures mst == PrimSpec(graph.mstEdges, graph.V)
  {
    var n := graph.V;
    var key := new int[n](_ => IntMax);
    var parent := new int[n](_ => -1);
    var inMST := new bool[n](_ => false);
    var pq: seq<Entry> := [(0, 0)];
    key[0] := 0;
    mst := [];
    assert PrimState(key[..], parent[..], inMST[..], pq, mst) == Init(n);
    while pq != []
      invariant key.Length == n && parent.Length == n && inMST.Length == n
      invariant Shaped(PrimState(key[..], parent[..], inMST[..], pq, mst), n)
      invariant Run(graph.mstEdges, PrimState(key[..], parent[..], inMST[..], pq, mst)) == Run(graph.mstEdges, Init(n))
      decreases |inMST[..]| - CountTrue(inMST[..]), |pq|
    {
      ghost var before := PrimState(key[..], parent[..], inMST[..], pq, mst);
      StepDecreases(graph.mstEdges, before);
      pq, mst := Iterate(graph, key, parent, inMST, pq, mst);
      assert PrimState(key[..], parent[..], inMST[..], pq, mst) == Step(graph.mstEdges, before);
    }
  }

  /** One iteration of the while loop of computeMST. */
  method Iterate(graph: Graph, key: array<int>, parent: array<int>, inMST: array<bool>, pq: seq<Entry>, mst: seq<Edge>)
    returns (pq': seq<Entry>, mst': seq<Edge>)
    requires graph.Valid() && key != parent
    requires key.Length == graph.V && parent.Length == graph.V && inMST.Length == graph.V
    requires Shaped(PrimState(key[..], parent[..], inMST[..], pq, mst), graph.V) && pq != []
    modifies key, parent, inMST
    ensures PrimState(key[..], parent[..], inMST[..], pq', mst') ==
            Step(graph.mstEdges, PrimState(old(key[..]), old(parent[..]), old(inMST[..]), pq, mst))
  {
    ghost var before := PrimState(key[..], parent[..], inMST[..], pq, mst);
    StepCases(graph.mstEdges, before);
    var u := pq[MinIndex(pq)].1;
    pq' := Pop(pq);
    mst' := mst;
    if !inMST[u] {
      mst' := Admit(key, parent, inMST, mst, u);
      assert PrimState(key[..], parent[..], inMST[..], pq', mst') == Enter(before.(pq := pq'), u);
      var edges := graph.GetEdges();
      pq' := RelaxEdges(key, parent, inMST, pq', mst', edges, u);
    }
  }

  /** Step split into its two cases, with the popped and entered states
      both well shaped. */
  lemma StepCases(es: seq<Edge>, st: PrimState)
    requires Shaped(st, |st.key|) && EndpointsIn(es, |st.key|) && st.pq != []
    ensures var u := st.pq[MinIndex(st.pq)].1; var popped := st.(pq := Pop(st.pq));
      Shaped(popped, |st.key|) && Shaped(Enter(popped, u), |st.key|) &&
      Step(es, st) == if st.inMST[u] then popped else RelaxFrom(es, 0, u, Enter(popped, u))
  {
    var popped := st.(pq := Pop(st.pq));
    forall k | 0 <= k < |popped.pq| ensures 0 <= popped.pq[k].1 < |st.key| {
      assert popped.pq[k] in st.pq;
    }
  }

  /** u joins the tree, and its edge to its parent, if it has one, is emitted. */
  method Admit(key: array<int>, parent: array<int>, inMST: array<bool>, mst: seq<Edge>, u: int)
    returns (mst': seq<Edge>)
    requires key.Length == parent.Length == inMST.Length && 0 <= u < key.Length
    modifies inMST
    ensures inMST[..] == old(inMST[..])[u := true]
    ensures mst' == Enter(PrimState(key[..], parent[..], old(inMST[..]), [], mst), u).out
  {
    inMST[u] := true;
    mst' := mst;
    if parent[u] != -1 {
      mst' := mst + [Edge(key[u], parent[u], u)];
    }
  }

  /** The inner for loop of computeMST: every edge of the list, seen from u. */
  method RelaxEdges(key: array<int>, parent: array<int>, inMST: array<bool>, pq: seq<Entry>, mst: seq<Edge>,
                    es: seq<Edge>, u: int) returns (pq': seq<Entry>)
    requires key != parent && parent.Length == key.Length && inMST.Length == key.Length
    requires Shaped(PrimState(key[..], parent[..], inMST[..], pq, mst), key.Length) && EndpointsIn(es, key.Length)
    modifies key, parent
    ensures PrimState(key[..], parent[..], inMST[..], pq', mst) ==
            RelaxFrom(es, 0, u, PrimState(old(key[..]), old(parent[..]), inMST[..], pq, mst))
  {
    ghost var start := PrimState(key[..], parent[..], inMST[..], pq, mst);
    pq' := pq;
    var j := 0;
    while j < |es|
      invariant 0 <= j <= |es|
      invariant Shaped(PrimState(key[..], parent[..], inMST[..], pq', mst), key.Length)
      invariant RelaxFrom(es, j, u, PrimState(key[..], parent[..], inMST[..], pq', mst)) == RelaxFrom(es, 0, u, start)
    {
      pq' := RelaxOne(key, parent, inMST, pq', mst, es[j], u);
      j := j + 1;
    }
  }

  /** The body of the inner for loop: edge e seen from u. */
  method RelaxOne(key: array<int>, parent: array<int>, inMST: array<bool>, pq: seq<Entry>, mst: seq<Edge>,
                  e: Edge, u: int) returns (pq': seq<Entry>)
    requires key != parent && parent.Length == key.Length && inMST.Length == key.Length
    requires Shaped(PrimState(key[..], parent[..], inMST[..], pq, mst), key.Length)
    requires 0 <= e.u < key.Length && 0 <= e.v < key.Length
    modifies key, parent
    ensures PrimState(key[..], parent[..], inMST[..], pq', mst) ==
            RelaxEdge(e, u, PrimState(old(key[..]), old(parent[..]), inMST[..], pq, mst))
  {
    ghost var st := PrimState(key[..], parent[..], inMST[..], pq, mst);
    pq' := pq;
    var v := if u == e.u then e.v else e.u;
    if !inMST[v] && e.w < key[v] {
      key[v] := e.w;
      parent[v] := u;
      pq' := pq + [(e.w, v)];
      assert key[..] == st.key[v := e.w] && parent[..] == st.parent[v := u];
    }
  }
}
