/** The first example graph of main.cpp (five vertices, five edges, vertex 4
    left without edges) and what the two algorithms and the driver make of it. */
module MainExamples {
  import opened Edges
  import opened EdgeSort
  import opened Connectivity
  import opened SpanningForest
  import opened GraphModel
  import opened Driver
  import opened MatrixPaths
  import Prim
  import opened PriorityQueue

  /** The edge list built by the addEdge calls of main.cpp's first example. */
  function Example1(): (r: seq<Edge>)
    ensures EndpointsIn(r, 5)
  {
    [Edge(10, 0, 1), Edge(6, 0, 2), Edge(5, 0, 3), Edge(15, 1, 3), Edge(4, 2, 3)]
  }

  /** Example1 in (w, u, v) order. */
  function Example1Sorted(): seq<Edge> {
    [Edge(4, 2, 3), Edge(5, 0, 3), Edge(6, 0, 2), Edge(10, 0, 1), Edge(15, 1, 3)]
  }

  /** The edges Kruskal keeps on Example1. */
  function Example1Kruskal(): seq<Edge> {
    [Edge(4, 2, 3), Edge(5, 0, 3), Edge(10, 0, 1)]
  }

  lemma SortExample1(es: seq<Edge>)
    requires es == Example1()
    ensures SortEdges(es) == Example1Sorted()
  {
    SortedExample1();
    PermutedExample1(es);
    SortIsCanonical(es, Example1Sorted());
  }

  lemma SortedExample1()
    ensures Sorted(Example1Sorted())
  {
    var s := Example1Sorted();
    PrependSorted(s[3], s[4..]);
    assert [s[3]] + s[4..] == s[3..];
    PrependSorted(s[2], s[3..]);
    assert [s[2]] + s[3..] == s[2..];
    PrependSorted(s[1], s[2..]);
    assert [s[1]] + s[2..] == s[1..];
    PrependSorted(s[0], s[1..]);
    assert [s[0]] + s[1..] == s;
  }

  lemma PermutedExample1(es: seq<Edge>)
    requires es == Example1()
    ensures multiset(Example1Sorted()) == multiset(es)
  {
  }

  /** The quick-find run over the sorted list: labels 3 -> 2, then 2 -> 0, then 1 -> 0. */
  lemma SelectExample1()
    ensures Select(Example1Sorted(), Identity(5)).0 == Example1Kruskal()
  {
    var s := Example1Sorted();
    var L0 := Identity(5);
    assert L0 == [0, 1, 2, 3, 4];
    var L1 := Relabel(L0, 3, 2);
    assert L1 == [0, 1, 2, 2, 4];
    var L2 := Relabel(L1, 2, 0);
    assert L2 == [0, 1, 0, 0, 4];
    var L3 := Relabel(L2, 1, 0);
    assert L3 == [0, 0, 0, 0, 4];
    assert Select(s[4..], L3).0 == [];
    assert Select(s[3..], L2).0 == [Edge(10, 0, 1)];
    assert Select(s[2..], L2).0 == [Edge(10, 0, 1)];
    assert Select(s[1..], L1).0 == [Edge(5, 0, 3), Edge(10, 0, 1)];
  }

  /** Kruskal's loop over the sorted list keeps (4,2,3), (5,0,3) and
      (10,0,1), weighing 19 together; no kept edge touches vertex 4. */
  lemma GreedyExample1()
    ensures Greedy(Example1Sorted()) == Example1Kruskal()
    ensures TotalWeight(Example1Kruskal()) == 19
    ensures forall k :: 0 <= k < |Example1Kruskal()| ==> Example1Kruskal()[k].u != 4 && Example1Kruskal()[k].v != 4
  {
    assert EndpointsIn(Example1Sorted(), 5);
    SelectFromScratch(Example1Sorted(), 5);
    SelectExample1();
    var k := Example1Kruskal();
    assert k[..2][..1] == [Edge(4, 2, 3)] && k[..2] == [Edge(4, 2, 3), Edge(5, 0, 3)];
    assert [Edge(4, 2, 3)][..0] == [];
    assert TotalWeight([Edge(4, 2, 3)]) == 4;
    assert TotalWeight(k[..2]) == 9;
  }

  /** Kruskal on main.cpp's first graph. */
  lemma KruskalExample1(es: seq<Edge>)
    requires es == Example1()
    ensures Greedy(SortEdges(es)) == Example1Kruskal()
  {
    SortExample1(es);
    GreedyExample1();
  }

  /** What Prim emits on Example1. (4,0,2) is not an edge of the graph: after
      vertex 2 enters the tree, edge (4,2,3) read from vertex 0 leads by the
      neighbour rule to vertex 2 with weight 4. */
  function Example1Prim(): seq<Edge> {
    [Edge(4, 0, 2), Edge(4, 2, 3), Edge(10, 0, 1)]
  }

  /** The states of Prim's loop on Example1 after each iteration. */
  function PrimTrace(i: nat): (r: Prim.PrimState)
    requires i < 7
    ensures Prim.Shaped(r, 5)
  {
    match i
    case 0 => Prim.Init(5)
    case 1 => Prim.PrimState([0, 10, 4, 5, IntMax], [-1, 0, 0, 0, -1], [true, false, false, false, false], [(10, 1), (6, 2), (5, 3), (4, 2)], [])
    case 2 => Prim.PrimState([0, 10, 4, 4, IntMax], [-1, 0, 0, 2, -1], [true, false, true, false, false], [(10, 1), (6, 2), (5, 3), (4, 3)], [Edge(4, 0, 2)])
    case 3 => Prim.PrimState([0, 10, 4, 4, IntMax], [-1, 0, 0, 2, -1], [true, false, true, true, false], [(10, 1), (6, 2), (5, 3)], [Edge(4, 0, 2), Edge(4, 2, 3)])
    case 4 => Prim.PrimState([0, 10, 4, 4, IntMax], [-1, 0, 0, 2, -1], [true, false, true, true, false], [(10, 1), (6, 2)], [Edge(4, 0, 2), Edge(4, 2, 3)])
    case 5 => Prim.PrimState([0, 10, 4, 4, IntMax], [-1, 0, 0, 2, -1], [true, false, true, true, false], [(10, 1)], [Edge(4, 0, 2), Edge(4, 2, 3)])
    case _ => Prim.PrimState([0, 10, 4, 4, IntMax], [-1, 0, 0, 2, -1], [true, true, true, true, false], [], [Edge(4, 0, 2), Edge(4, 2, 3), Edge(10, 0, 1)])
  }

  /** The states inside the inner loop of iteration k: on entry (c = 0) and after each change. */
  function Mid(k: nat, c: nat): (r: Prim.PrimState)
    ensures Prim.Shaped(r, 5)
  {
    match (k, c)
    case (1, 0) => Prim.PrimState([0, IntMax, IntMax, IntMax, IntMax], [-1, -1, -1, -1, -1], [true, false, false, false, false], [], [])
    case (1, 1) => Prim.PrimState([0, 10, IntMax, IntMax, IntMax], [-1, 0, -1, -1, -1], [true, false, false, false, false], [(10, 1)], [])
    case (1, 2) => Prim.PrimState([0, 10, 6, IntMax, IntMax], [-1, 0, 0, -1, -1], [true, false, false, false, false], [(10, 1), (6, 2)], [])
    case (1, 3) => Prim.PrimState([0, 10, 6, 5, IntMax], [-1, 0, 0, 0, -1], [true, false, false, false, false], [(10, 1), (6, 2), (5, 3)], [])
    case (1, 4) => Prim.PrimState([0, 10, 4, 5, IntMax], [-1, 0, 0, 0, -1], [true, false, false, false, false], [(10, 1), (6, 2), (5, 3), (4, 2)], [])
    case (2, 0) => Prim.PrimState([0, 10, 4, 5, IntMax], [-1, 0, 0, 0, -1], [true, false, true, false, false], [(10, 1), (6, 2), (5, 3)], [Edge(4, 0, 2)])
    case (2, 1) => Prim.PrimState([0, 10, 4, 4, IntMax], [-1, 0, 0, 2, -1], [true, false, true, false, false], [(10, 1), (6, 2), (5, 3), (4, 3)], [Edge(4, 0, 2)])
    case (3, 0) => Prim.PrimState([0, 10, 4, 4, IntMax], [-1, 0, 0, 2, -1], [true, false, true, true, false], [(10, 1), (6, 2), (5, 3)], [Edge(4, 0, 2), Edge(4, 2, 3)])
    case (6, 0) => Prim.PrimState([0, 10, 4, 4, IntMax], [-1, 0, 0, 2, -1], [true, true, true, true, false], [], [Edge(4, 0, 2), Edge(4, 2, 3), Edge(10, 0, 1)])
    case _ => Prim.Init(5)
  }

  /** The state of iteration k just after the pop. */
  function Popped(k: nat): (r: Prim.PrimState)
    ensures Prim.Shaped(r, 5)
  {
    match k
    case 1 => Prim.PrimState([0, IntMax, IntMax, IntMax, IntMax], [-1, -1, -1, -1, -1], [false, false, false, false, false], [], [])
    case 2 => Prim.PrimState([0, 10, 4, 5, IntMax], [-1, 0, 0, 0, -1], [true, false, false, false, false], [(10, 1), (6, 2), (5, 3)], [])
    case 3 => Prim.PrimState([0, 10, 4, 4, IntMax], [-1, 0, 0, 2, -1], [true, false, true, false, false], [(10, 1), (6, 2), (5, 3)], [Edge(4, 0, 2)])
    case 4 => Prim.PrimState([0, 10, 4, 4, IntMax], [-1, 0, 0, 2, -1], [true, false, true, true, false], [(10, 1), (6, 2)], [Edge(4, 0, 2), Edge(4, 2, 3)])
    case 5 => Prim.PrimState([0, 10, 4, 4, IntMax], [-1, 0, 0, 2, -1], [true, false, true, true, false], [(10, 1)], [Edge(4, 0, 2), Edge(4, 2, 3)])
    case 6 => Prim.PrimState([0, 10, 4, 4, IntMax], [-1, 0, 0, 2, -1], [true, false, true, true, false], [], [Edge(4, 0, 2), Edge(4, 2, 3)])
    case _ => Prim.Init(5)
  }

  lemma PrimPop1()
    ensures PrimTrace(0).(pq := Pop(PrimTrace(0).pq)) == Popped(1)
    ensures PrimTrace(0).pq != [] && PrimTrace(0).pq[MinIndex(PrimTrace(0).pq)].1 == 0
  {
    assert PrimTrace(0) == Prim.PrimState([0, IntMax, IntMax, IntMax, IntMax], [-1, -1, -1, -1, -1], [false, false, false, false, false], [(0, 0)], []);
    assert MinIndex([(0, 0)]) == 0;
    assert Pop([(0, 0)]) == [];
  }

  lemma PrimEnter1()
    ensures !Popped(1).inMST[0] && Prim.Enter(Popped(1), 0) == Mid(1, 0)
  {
  }

  lemma PrimStep1(es: seq<Edge>)
    requires es == Example1()
    ensures Prim.Step(es, PrimTrace(0)) == Prim.RelaxFrom(es, 0, 0, Mid(1, 0))
  {
    PrimPop1();
    PrimEnter1();
  }

  lemma PrimPop2()
    ensures PrimTrace(1).(pq := Pop(PrimTrace(1).pq)) == Popped(2)
    ensures PrimTrace(1).pq != [] && PrimTrace(1).pq[MinIndex(PrimTrace(1).pq)].1 == 2
  {
    assert PrimTrace(1) == Prim.PrimState([0, 10, 4, 5, IntMax], [-1, 0, 0, 0, -1], [true, false, false, false, false], [(10, 1), (6, 2), (5, 3), (4, 2)], []);
    assert MinIndex([(10, 1), (6, 2), (5, 3), (4, 2)]) == 3;
    assert Pop([(10, 1), (6, 2), (5, 3), (4, 2)]) == [(10, 1), (6, 2), (5, 3)];
  }

  lemma PrimEnter2()
    ensures !Popped(2).inMST[2] && Prim.Enter(Popped(2), 2) == Mid(2, 0)
  {
  }

  lemma PrimStep2(es: seq<Edge>)
    requires es == Example1()
    ensures Prim.Step(es, PrimTrace(1)) == Prim.RelaxFrom(es, 0, 2, Mid(2, 0))
  {
    PrimPop2();
    PrimEnter2();
  }

  lemma PrimPop3()
    ensures PrimTrace(2).(pq := Pop(PrimTrace(2).pq)) == Popped(3)
    ensures PrimTrace(2).pq != [] && PrimTrace(2).pq[MinIndex(PrimTrace(2).pq)].1 == 3
  {
    assert PrimTrace(2) == Prim.PrimState([0, 10, 4, 4, IntMax], [-1, 0, 0, 2, -1], [true, false, true, false, false], [(10, 1), (6, 2), (5, 3), (4, 3)], [Edge(4, 0, 2)]);
    assert MinIndex([(10, 1), (6, 2), (5, 3), (4, 3)]) == 3;
    assert Pop([(10, 1), (6, 2), (5, 3), (4, 3)]) == [(10, 1), (6, 2), (5, 3)];
  }

  lemma PrimEnter3()
    ensures !Popped(3).inMST[3] && Prim.Enter(Popped(3), 3) == Mid(3, 0)
  {
  }

  lemma PrimStep3(es: seq<Edge>)
    requires es == Example1()
    ensures Prim.Step(es, PrimTrace(2)) == Prim.RelaxFrom(es, 0, 3, Mid(3, 0))
  {
    PrimPop3();
    PrimEnter3();
  }

  lemma PrimPop4()
    ensures PrimTrace(3).(pq := Pop(PrimTrace(3).pq)) == Popped(4)
    ensures PrimTrace(3).pq != [] && PrimTrace(3).pq[MinIndex(PrimTrace(3).pq)].1 == 3
  {
    assert PrimTrace(3) == Prim.PrimState([0, 10, 4, 4, IntMax], [-1, 0, 0, 2, -1], [true, false, true, true, false], [(10, 1), (6, 2), (5, 3)], [Edge(4, 0, 2), Edge(4, 2, 3)]);
    assert MinIndex([(10, 1), (6, 2), (5, 3)]) == 2;
    assert Pop([(10, 1), (6, 2), (5, 3)]) == [(10, 1), (6, 2)];
  }

  lemma PrimSkip4()
    ensures Popped(4).inMST[3] && Popped(4) == PrimTrace(4)
  {
  }

  lemma PrimStep4(es: seq<Edge>)
    requires es == Example1()
    ensures Prim.Step(es, PrimTrace(3)) == PrimTrace(4)
  {
    PrimPop4();
    PrimSkip4();
  }

  lemma PrimPop5()
    ensures PrimTrace(4).(pq := Pop(PrimTrace(4).pq)) == Popped(5)
    ensures PrimTrace(4).pq != [] && PrimTrace(4).pq[MinIndex(PrimTrace(4).pq)].1 == 2
  {
    assert PrimTrace(4) == Prim.PrimState([0, 10, 4, 4, IntMax], [-1, 0, 0, 2, -1], [true, false, true, true, false], [(10, 1), (6, 2)], [Edge(4, 0, 2), Edge(4, 2, 3)]);
    assert MinIndex([(10, 1), (6, 2)]) == 1;
    assert Pop([(10, 1), (6, 2)]) == [(10, 1)];
  }

  lemma PrimSkip5()
    ensures Popped(5).inMST[2] && Popped(5) == PrimTrace(5)
  {
  }

  lemma PrimStep5(es: seq<Edge>)
    requires es == Example1()
    ensures Prim.Step(es, PrimTrace(4)) == PrimTrace(5)
  {
    PrimPop5();
    PrimSkip5();
  }

  lemma PrimPop6()
    ensures PrimTrace(5).(pq := Pop(PrimTrace(5).pq)) == Popped(6)
    ensures PrimTrace(5).pq != [] && PrimTrace(5).pq[MinIndex(PrimTrace(5).pq)].1 == 1
  {
    assert PrimTrace(5) == Prim.PrimState([0, 10, 4, 4, IntMax], [-1, 0, 0, 2, -1], [true, false, true, true, false], [(10, 1)], [Edge(4, 0, 2), Edge(4, 2, 3)]);
    assert MinIndex([(10, 1)]) == 0;
    assert Pop([(10, 1)]) == [];
  }

  lemma PrimEnter6()
    ensures !Popped(6).inMST[1] && Prim.Enter(Popped(6), 1) == Mid(6, 0)
  {
  }

  lemma PrimStep6(es: seq<Edge>)
    requires es == Example1()
    ensures Prim.Step(es, PrimTrace(5)) == Prim.RelaxFrom(es, 0, 1, Mid(6, 0))
  {
    PrimPop6();
    PrimEnter6();
  }

  lemma PrimEdge1_0(es: seq<Edge>)
    requires es == Example1()
    ensures Prim.RelaxEdge(es[0], 0, Mid(1, 0)) == Mid(1, 1)
  {
  }

  lemma PrimEdge1_1(es: seq<Edge>)
    requires es == Example1()
    ensures Prim.RelaxEdge(es[1], 0, Mid(1, 1)) == Mid(1, 2)
  {
  }

  lemma PrimEdge1_2(es: seq<Edge>)
    requires es == Example1()
    ensures Prim.RelaxEdge(es[2], 0, Mid(1, 2)) == Mid(1, 3)
  {
  }

  lemma PrimEdge1_4(es: seq<Edge>)
    requires es == Example1()
    ensures Prim.RelaxEdge(es[4], 0, Mid(1, 3)) == Mid(1, 4)
  {
  }

  lemma PrimRelax1(es: seq<Edge>)
    requires es == Example1()
    ensures Prim.RelaxFrom(es, 0, 0, Mid(1, 0)) == PrimTrace(1)
  {
    PrimEdge1_0(es);
    assert Prim.RelaxFrom(es, 0, 0, Mid(1, 0)) == Prim.RelaxFrom(es, 1, 0, Mid(1, 1));
    PrimEdge1_1(es);
    assert Prim.RelaxFrom(es, 1, 0, Mid(1, 1)) == Prim.RelaxFrom(es, 2, 0, Mid(1, 2));
    PrimEdge1_2(es);
    assert Prim.RelaxFrom(es, 2, 0, Mid(1, 2)) == Prim.RelaxFrom(es, 3, 0, Mid(1, 3));
    Prim.RelaxFromSkip(es, 3, 4, 0, Mid(1, 3));
    PrimEdge1_4(es);
    assert Prim.RelaxFrom(es, 4, 0, Mid(1, 3)) == Prim.RelaxFrom(es, 5, 0, Mid(1, 4));
    assert Mid(1, 4) == PrimTrace(1);
  }

  lemma PrimEdge2_4(es: seq<Edge>)
    requires es == Example1()
    ensures Prim.RelaxEdge(es[4], 2, Mid(2, 0)) == Mid(2, 1)
  {
  }

  lemma PrimRelax2(es: seq<Edge>)
    requires es == Example1()
    ensures Prim.RelaxFrom(es, 0, 2, Mid(2, 0)) == PrimTrace(2)
  {
    Prim.RelaxFromSkip(es, 0, 4, 2, Mid(2, 0));
    PrimEdge2_4(es);
    assert Prim.RelaxFrom(es, 4, 2, Mid(2, 0)) == Prim.RelaxFrom(es, 5, 2, Mid(2, 1));
    assert Mid(2, 1) == PrimTrace(2);
  }

  lemma PrimRelax3(es: seq<Edge>)
    requires es == Example1()
    ensures Prim.RelaxFrom(es, 0, 3, Mid(3, 0)) == PrimTrace(3)
  {
    Prim.RelaxFromSkip(es, 0, 5, 3, Mid(3, 0));
    assert Mid(3, 0) == PrimTrace(3);
  }

  lemma PrimRelax6(es: seq<Edge>)
    requires es == Example1()
    ensures Prim.RelaxFrom(es, 0, 1, Mid(6, 0)) == PrimTrace(6)
  {
    Prim.RelaxFromSkip(es, 0, 5, 1, Mid(6, 0));
    assert Mid(6, 0) == PrimTrace(6);
  }

  lemma PrimAdvance1(es: seq<Edge>)
    requires es == Example1()
    ensures Prim.Run(es, PrimTrace(0)) == Prim.Run(es, PrimTrace(1))
  {
    PrimStep1(es);
    PrimRelax1(es);
    assert PrimTrace(0).pq != [];
  }

  lemma PrimAdvance2(es: seq<Edge>)
    requires es == Example1()
    ensures Prim.Run(es, PrimTrace(1)) == Prim.Run(es, PrimTrace(2))
  {
    PrimStep2(es);
    PrimRelax2(es);
    assert PrimTrace(1).pq != [];
  }

  lemma PrimAdvance3(es: seq<Edge>)
    requires es == Example1()
    ensures Prim.Run(es, PrimTrace(2)) == Prim.Run(es, PrimTrace(3))
  {
    PrimStep3(es);
    PrimRelax3(es);
    assert PrimTrace(2).pq != [];
  }

  lemma PrimAdvance4(es: seq<Edge>)
    requires es == Example1()
    ensures Prim.Run(es, PrimTrace(3)) == Prim.Run(es, PrimTrace(4))
  {
    PrimStep4(es);
    assert PrimTrace(3).pq != [];
  }

  lemma PrimAdvance5(es: seq<Edge>)
    requires es == Example1()
    ensures Prim.Run(es, PrimTrace(4)) == Prim.Run(es, PrimTrace(5))
  {
    PrimStep5(es);
    assert PrimTrace(4).pq != [];
  }

  lemma PrimAdvance6(es: seq<Edge>)
    requires es == Example1()
    ensures Prim.Run(es, PrimTrace(5)) == Prim.Run(es, PrimTrace(6))
  {
    PrimStep6(es);
    PrimRelax6(es);
    assert PrimTrace(5).pq != [];
  }

  /** One iteration of Prim's loop on Example1, from state k - 1 to state k. */
  lemma PrimAdvance(es: seq<Edge>, k: nat)
    requires es == Example1() && 1 <= k <= 6
    ensures Prim.Run(es, PrimTrace(k - 1)) == Prim.Run(es, PrimTrace(k))
  {
    if k == 1 { PrimAdvance1(es); }
    else if k == 2 { PrimAdvance2(es); }
    else if k == 3 { PrimAdvance3(es); }
    else if k == 4 { PrimAdvance4(es); }
    else if k == 5 { PrimAdvance5(es); }
    else { PrimAdvance6(es); }
  }

  /** The queue is empty in state 6, so the loop ends there. */
  lemma PrimDone(es: seq<Edge>)
    requires es == Example1()
    ensures Prim.Run(es, PrimTrace(6)) == Example1Prim()
  {
    assert PrimTrace(6).pq == [];
  }

  /** From state k on, Prim's loop on Example1 emits Example1Prim. */
  lemma {:induction false} PrimRunFrom(es: seq<Edge>, k: nat)
    requires es == Example1() && k <= 6
    ensures Prim.Run(es, PrimTrace(k)) == Example1Prim()
    decreases 6 - k
  {
    if k < 6 {
      PrimRunFrom(es, k + 1);
      PrimAdvance(es, k + 1);
    } else {
      PrimDone(es);
    }
  }

  /** The three triples Prim emits on Example1 weigh 18 together. */
  lemma PrimWeight()
    ensures TotalWeight(Example1Prim()) == 18
  {
    var p := Example1Prim();
    assert p[..2][..1] == [Edge(4, 0, 2)] && p[..2] == [Edge(4, 0, 2), Edge(4, 2, 3)];
    assert [Edge(4, 0, 2)][..0] == [];
    assert TotalWeight([Edge(4, 0, 2)]) == 4;
    assert TotalWeight(p[..2]) == 8;
  }

  /** Prim on main.cpp's first graph: three triples of total weight 18, the
      first of which, (4,0,2), is not an edge of the graph. */
  lemma PrimExample1(es: seq<Edge>)
    requires es == Example1()
    ensures Prim.PrimSpec(es, 5) == Example1Prim()
    ensures TotalWeight(Prim.PrimSpec(es, 5)) == 18
    ensures Edge(4, 0, 2) !in es
  {
    PrimRunFrom(es, 0);
    PrimWeight();
    NotAnEdge(es);
  }

  /** No addEdge call of the first example joins vertices 0 and 2 with weight 4. */
  lemma NotAnEdge(es: seq<Edge>)
    requires es == Example1()
    ensures Edge(4, 0, 2) !in es
  {
    assert es == [Edge(10, 0, 1), Edge(6, 0, 2), Edge(5, 0, 3), Edge(15, 1, 3), Edge(4, 2, 3)];
  }

  /** Prim's output for Example1 is already in (w, u, v) order. */
  lemma SortPrim1(p: seq<Edge>)
    requires p == Example1Prim()
    ensures SortEdges(p) == p
  {
    PrependSorted(p[1], p[2..]);
    assert [p[1]] + p[2..] == p[1..];
    PrependSorted(p[0], p[1..]);
    assert [p[0]] + p[1..] == p;
    SortIsCanonical(p, p);
  }

  /** The quick-find run over Prim's output: labels 2 -> 0, then 3 -> 0, then
      1 -> 0, so no triple closes a cycle. */
  lemma SelectPrim1(p: seq<Edge>)
    requires p == Example1Prim()
    ensures EndpointsIn(p, 5) && Select(p, Identity(5)).0 == p
  {
    var L0 := Identity(5);
    assert L0 == [0, 1, 2, 3, 4];
    var L1 := Relabel(L0, 2, 0);
    assert L1 == [0, 1, 0, 3, 4];
    var L2 := Relabel(L1, 3, 0);
    assert L2 == [0, 1, 0, 0, 4];
    var L3 := Relabel(L2, 1, 0);
    assert L3 == [0, 0, 0, 0, 4];
    assert Select(p[3..], L3).0 == [];
    assert Select(p[2..], L2).0 == [Edge(10, 0, 1)];
    assert Select(p[1..], L1).0 == [Edge(4, 2, 3), Edge(10, 0, 1)];
  }

  /** Kruskal on Prim's output for Example1 hands back all three triples. */
  lemma KruskalOnPrim1(p: seq<Edge>)
    requires p == Example1Prim()
    ensures Greedy(SortEdges(p)) == p
  {
    SortPrim1(p);
    SelectPrim1(p);
    SelectFromScratch(p, 5);
  }

  /** Running "prim" alone on the first graph leaves Prim's output. */
  lemma DriverPrim1(es: seq<Edge>)
    requires es == Example1()
    ensures RunAll(es, 5, ["prim"]) == Example1Prim()
  {
    PrimExample1(es);
    assert ["prim"][..0] == [];
  }

  /** main.cpp runs "prim" then "kruskal" on its first graph: Prim replaces the
      five input edges by its three triples and Kruskal, reading those, keeps
      them all, so the final list is Prim's output. */
  lemma DriverExample1(es: seq<Edge>)
    requires es == Example1()
    ensures RunAll(es, 5, ["prim", "kruskal"]) == Example1Prim()
  {
    DriverPrim1(es);
    KruskalOnPrim1(Example1Prim());
    AlgorithmsPrefix();
  }

  lemma AlgorithmsPrefix()
    ensures ["prim", "kruskal"][..1] == ["prim"] && ["prim", "kruskal"][1] == "kruskal"
  {
  }

  /** After the two runs the matrix is the one built by the addEdge calls with
      Prim's triples written over it twice. */
  lemma MatrixExample1(M: seq<seq<int>>, es: seq<Edge>)
    requires IsSquare(M) && |M| == 5 && es == Example1()
    ensures MatrixAfter(M, es, ["prim", "kruskal"]) == SetAll(SetAll(M, Example1Prim()), Example1Prim())
  {
    DriverPrim1(es);
    DriverExample1(es);
    AlgorithmsPrefix();
    assert ["prim"][..0] == [];
  }

  /** Cells of the final matrix that Prim's triples join hold their weights. */
  lemma CellsSetExample1(M: seq<seq<int>>, p: seq<Edge>)
    requires IsSquare(M) && |M| == 5 && p == Example1Prim()
    ensures SetAll(SetAll(M, p), p)[0][2] == 4
    ensures SetAll(SetAll(M, p), p)[2][3] == 4
    ensures SetAll(SetAll(M, p), p)[0][1] == 10
  {
    assert EndpointsIn(p, 5);
    var M1 := SetAll(M, p);
    SetAllLast(M1, p, 0);
    SetAllLast(M1, p, 1);
    SetAllLast(M1, p, 2);
  }

  /** Cells (0,3) and (1,3), which no triple of Prim's joins, keep their values. */
  lemma CellsKeptExample1(M: seq<seq<int>>, p: seq<Edge>)
    requires IsSquare(M) && |M| == 5 && p == Example1Prim()
    ensures SetAll(SetAll(M, p), p)[0][3] == M[0][3]
    ensures SetAll(SetAll(M, p), p)[1][3] == M[1][3]
  {
    assert EndpointsIn(p, 5);
    var M1 := SetAll(M, p);
    SetAllKeeps(M, p, 0, 3);
    SetAllKeeps(M1, p, 0, 3);
    SetAllKeeps(M, p, 1, 3);
    SetAllKeeps(M1, p, 1, 3);
  }

  /** main.cpp's first example: graph1 is built with five addEdge calls and
      runMSTAlgorithms is called with "prim" then "kruskal". The list ends as
      Prim's output, and the matrix still holds the weights 5 at (0,3) and 15
      at (1,3) of input edges that are no longer in the list. */
  method Example1Run() returns (graph: Graph)
    ensures graph.Valid() && graph.V == 5
    ensures graph.mstEdges == Example1Prim()
    ensures graph.adjMatrix[0, 2] == 4 && graph.adjMatrix[2, 3] == 4 && graph.adjMatrix[0, 1] == 10
    ensures graph.adjMatrix[0, 3] == 5 && graph.adjMatrix[1, 3] == 15
  {
    graph := new Graph(5);
    graph.AddEdge(0, 1, 10);
    graph.AddEdge(0, 2, 6);
    graph.AddEdge(0, 3, 5);
    graph.AddEdge(1, 3, 15);
    graph.AddEdge(2, 3, 4);
    assert graph.mstEdges == Example1();
    ghost var M := graph.Adj;
    assert M[0][3] == 5 && M[1][3] == 15;
    RunMSTAlgorithms(graph, ["prim", "kruskal"]);
    DriverExample1(Example1());
    MatrixExample1(M, Example1());
    CellsSetExample1(M, Example1Prim());
    CellsKeptExample1(M, Example1Prim());
  }

  /** Vertex 4 of the first graph has no edge, so the list does not connect
      every vertex: Boruvka's round loop, were the factory to call it, would
      never end on this graph. */
  lemma Example1Disconnected(es: seq<Edge>)
    requires es == Example1()
    ensures !Connected(es, 0, 4) && !ConnectsAll(es, 5)
  {
    var L := [0, 0, 0, 0, 4];
    assert Respects(L, es);
    if Connected(es, 0, 4) {
      RespectsConnected(L, es, 0, 4);
    }
  }
}
