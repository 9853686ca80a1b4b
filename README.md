# Graph and minimum-spanning-tree core, modelled in Dafny

This project models the graph layer of a small C++ MST server, together with its three
spanning-tree algorithms, the name-based factory and the driver that runs them.

- **`Graph`** (module `GraphModel`) holds the vertex count `V`, a `V x V` adjacency matrix in
  which `-1` means "no edge", and the edge list `mstEdges` of `(weight, u, v)` triples. The
  class has the C++ fields:
  - `adjMatrix` is an `array2<int>`, mirrored by a ghost value `Adj`.
  - `mstEdges` is a `seq<Edge>`.

  Its operations:
  - The constructor, `addEdge`, `addMSTEdge` and `removeEdge` are methods that modify the
    object.
  - The three weight statistics are loop methods, each proved equal to a specification
    function over the list.
  - `getShortestPath` is Dijkstra's algorithm over the matrix.
  - `getLongestPath` is a backtracking DFS over the matrix.
- **Kruskal** (module `Kruskal`) has a `DSU` class whose `parent` and `rank` arrays use
  `-1` for a root and start every rank at 1. `ComputeMST` walks a sorted copy of the list
  and keeps an edge exactly when its endpoints lie in different sets.
  - `ComputeMST` is proved equal to `Greedy(SortEdges(list))`.
  - `Greedy` is the order-driven spanning-forest construction (module `SpanningForest`).
    Its properties are proved as lemmas: it is a forest, keeps the input's connectivity,
    and has at most `V - 1` edges.
- **Prim** (module `Prim`) is specified as a state machine over
  `PrimState(key, parent, inMST, pq, out)`. `Step` is one iteration of the `while` loop
  and `Run` runs the loop to its end. The imperative `ComputeMST` over arrays is proved to
  return `PrimSpec`, which is `Run` from the initial state.
  - The source's neighbour rule, "the other end if `u` is the first end, else the first
    end", is modelled as written (`Prim.Other`), so edges that do not touch `u` are also
    relaxed.
  - What is proved for every input:
    - Each emitted triple `(w, p, x)` has an edge of weight `w` that leads from `p` to `x`
      under that rule.
    - `p` is vertex 0 or a vertex emitted earlier.
    - No vertex is emitted twice.
    - There are at most `V - 1` triples.
- **Borůvka** (module `Boruvka`) has its own union-find, in which `parent[i] == i` marks a
  root and ranks start at 0. Each round:
  - Records, per component, the position of the first lightest edge leaving it.
  - Merges along the recorded edges, re-checking the roots before each merge.

  The round's invariant: the union-find classes are the components of the chosen edges,
  the chosen edges form a forest, and their count plus the number of components is `V`.
- **`MstFactory.ComputeMST`** maps `"prim"` and `"kruskal"` to those algorithms. Every
  other name, `"boruvka"` included, gives the empty list, because the `boruvka` branch is
  commented out in the source.
- **`Driver.RunMSTAlgorithms`** runs the named algorithms in order. After each one it
  clears the edge list and re-adds the result with `addMSTEdge`. The matrix is never
  cleared.
  - Each later algorithm reads the previous one's output (`RunAll`).
  - The matrix accumulates every written edge over its old contents (`MatrixAfter`).
- **`MainExamples`** evaluates the first example graph of `main.cpp` (5 vertices, 5 edges):
  - Kruskal selects `(4,2,3), (5,0,3), (10,0,1)`, total 19, with vertex 4 isolated.
  - Because of the neighbour rule, Prim emits `(4,0,2), (4,2,3), (10,0,1)`, total 18.
    `(4,0,2)` is not an edge of the graph.
  - Running `{"prim", "kruskal"}` leaves Prim's three edges in the list. The matrix keeps
    the cells of the dropped edges `{0,3}` and `{1,3}`.
  - The example graph does not connect vertex 4, so none of the three algorithms can
    produce a spanning tree of it.

On this example Kruskal's result weighs 19 and Prim's 18 (`GreedyExample1`, `PrimExample1`).

Shared theory modules:
- `Edges`: the edge type, the `(w, u, v)` order and subsequences.
- `EdgeSort`: `std::sort` as the unique sorted permutation.
- `PriorityQueue`: `std::priority_queue` as a bag with "pop a smallest pair".
- `Connectivity`: walks, components as vertex labellings, forests.
- `UnionFind`: roots and path compression. It is parameterised by the root convention.
- `MatrixPaths`: walks and simple paths over the matrix.

## Model

| member | source | states |
|---|---|---|
| GraphModel.Graph.constructor | Graph.cpp:11 | `V` vertices, every matrix cell `-1`, an empty edge list |
| GraphModel.Graph.AddEdge | Graph.cpp:14-18 | `(w, u, v)` is appended at the end of the list; both cells of `{u, v}` become `w`; the matrix stays symmetric and no other cell changes (via `SetEdge`) |
| GraphModel.Graph.AddMSTEdge | Graph.cpp:37-41 | the same effect as `addEdge`: append to the list and write both cells |
| MatrixPaths.SetEdge | Graph.cpp:16-17 | the two cells of `{u, v}` hold `w`, every other cell is unchanged, symmetry is preserved |
| GraphModel.Graph.RemoveEdge | Graph.cpp:21-31 | both cells of `{u, v}` become `-1` and the list loses every entry joining `u` and `v` in either orientation |
| GraphModel.WithoutEndpoints | Graph.cpp:26-30 | the erase/remove_if result holds only entries of the old list |
| GraphModel.WithoutEndpointsOrder | Graph.cpp:26-30 | the result is an order-preserving subsequence of the old list and no entry of it joins `u` and `v` in either orientation |
| GraphModel.WithoutEndpointsCounts | Graph.cpp:26-30 | every edge not joining `u` and `v` keeps its number of occurrences, and a list with no entry joining them is left unchanged |
| GraphModel.Graph.GetEdges | Graph.cpp:33-35 | returns the edge list as a value, reading the graph without changing it |
| GraphModel.Graph.GetTotalWeight | Graph.cpp:44-50 | the accumulating loop returns `TotalWeight` of the list |
| GraphModel.TotalWeightPermutation | Graph.cpp:44-50 | the total weight does not depend on the order of the list |
| GraphModel.TotalWeightAppend | Graph.cpp:44-50 | the total of a concatenation is the sum of the totals |
| GraphModel.Graph.GetLongestDistance | Graph.cpp:53-59 | the running `std::max` from 0 returns `LongestDistance` of the list |
| GraphModel.LongestDistance | Graph.cpp:53-59 | the result is at least 0 and at least every weight, and it is 0 or some listed weight |
| GraphModel.Graph.GetShortestDistance | Graph.cpp:72-78 | the running `std::min` from `INT_MAX`, with `INT_MAX` reported as 0, returns `ShortestDistance` of the list |
| GraphModel.MinWeight | Graph.cpp:73-76 | the running minimum is at most `INT_MAX` and every weight, and it is `INT_MAX` or a listed weight |
| GraphModel.ShortestDistance | Graph.cpp:72-78 | 0 when no weight is below `INT_MAX` (the empty list included); otherwise the smallest listed weight |
| GraphModel.Graph.GetShortestPath | Graph.cpp:81-103 | with non-negative weights, the result lies between 0 and `INT_MAX` and is at most the weight of every walk from start to end through cells other than `-1`; it is `INT_MAX` or the weight of such a walk, and 0 when start equals end |
| MatrixPaths.WeightNonNegative | Graph.cpp:93-96 | with no negative cell, every walk weighs at least 0, so the start's distance 0 is never undercut |
| GraphModel.Graph.RelaxNeighbours | Graph.cpp:92-100 | the inner loop leaves every neighbour of the popped vertex relaxed or queued, and it does not raise the sum of distances plus queue length (the termination measure) |
| GraphModel.WalkBound | Graph.cpp:88-101 | when the start has distance 0 and every vertex with a finite distance has all its edges relaxed (the state when the queue runs empty), the distance of a walk's last vertex is at most the walk's weight |
| GraphModel.Graph.GetLongestPath | Graph.cpp:106-133 | the result is at least 0, at least the weight of every simple path from start to end, and it is 0 or the weight of such a path |
| GraphModel.Graph.Dfs | Graph.cpp:111-127 | the recursive search restores `visited` on return (backtracking), never lowers the best value, bounds every simple extension that avoids the visited vertices, and raises the best value only to the weight of such a path |
| UnionFind.Compress | Kruskal.cpp:15 | pointing a non-root vertex straight at its root keeps the rank order and every vertex's root |
| UnionFind.Link | Kruskal.cpp:23-29 | hanging root `b` under root `a` (rank of `a` above that of `b`) keeps the rank order and relabels class `b` as `a` |
| Kruskal.DSU.constructor | Kruskal.cpp:10 | `n` singleton sets: every parent `-1`, every rank 1 |
| Kruskal.DSU.Find | Kruskal.cpp:12-16 | returns the root of `i`'s set (parent `-1`); afterwards `i` is the root or points straight at it, and the partition is unchanged |
| Kruskal.DSU.Unite | Kruskal.cpp:18-32 | same set: nothing changes; otherwise the lower-rank root goes under the other, and on a tie `y`'s root goes under `x`'s root, whose rank grows by one |
| Kruskal.ComputeMST | Kruskal.cpp:35-61 | the result is `Greedy` over the list sorted by `(w, u, v)`; the graph is only read |
| Kruskal.Consider | Kruskal.cpp:44-52 | the loop body keeps edge `i`, and unites its endpoints' sets, exactly when their roots differ, so the kept list stays `Greedy` of the edges read so far and the sets stay their components |
| Kruskal.KeepStep | Kruskal.cpp:49-52 | an edge is kept exactly when its endpoints carry different labels, and merging the two classes names the components of one more edge |
| Kruskal.KruskalProperties | Kruskal.cpp:44-57 | the result is a forest, sorted, drawn from the input, with exactly the input's connectivity, and at most `V - 1` edges (exactly `V - 1` when the input connects everything) |
| EdgeSort.SortEdges | Kruskal.cpp:37 | the sorted copy is sorted by `(w, u, v)`, a permutation of the list and of the same length |
| EdgeSort.SortIsCanonical | Kruskal.cpp:37 | every sorted permutation of the list equals `SortEdges` of it, so `std::sort`'s result is determined |
| SpanningForest.GreedyForest | Kruskal.cpp:44-57 | keeping edges that join different components builds a forest |
| SpanningForest.GreedySpans | Kruskal.cpp:44-57 | the kept edges connect two vertices exactly when the whole list does |
| SpanningForest.GreedySize | Kruskal.cpp:44-57 | at most `n - 1` edges are kept, and exactly `n - 1` when the list connects all `n` vertices |
| SpanningForest.SelectFromScratch | Kruskal.cpp:44-57 | the executable label-based selection from singletons equals `Greedy` |
| PriorityQueue.MinIndex | Prim.cpp:20 | the top of the queue is a lexicographically smallest `(key, vertex)` pair |
| PriorityQueue.Pop | Prim.cpp:21 | pop removes exactly one copy of the top pair and keeps every other pair |
| Prim.Other | Prim.cpp:39 | the neighbour rule: for an edge touching `u` the result is the other endpoint (with `u` the two make up the edge's endpoints); for an edge not touching `u` it is the edge's first endpoint, not a neighbour of `u` |
| Prim.Init | Prim.cpp:7-14 | the initial state is well formed: `V` keys, parents and flags, with `(0, 0)` queued |
| Prim.RelaxFrom | Prim.cpp:35-46 | the inner loop from edge `j` on keeps the state well formed and leaves tree membership and output untouched |
| Prim.Enter | Prim.cpp:23-28 | the popped vertex is in the tree afterwards, one more vertex than before when it was not; the output grows by at most one triple, exactly when the vertex has a parent, and that triple is `(key[u], parent[u], u)` |
| Prim.Step | Prim.cpp:19-46 | one iteration keeps the state well formed: flags, keys and parents stay one per vertex, and every queued pair names a vertex |
| Prim.StepOut | Prim.cpp:19-46 | one iteration only appends to the output, and appends no more triples than vertices it adds to the tree |
| Prim.Run | Prim.cpp:19-47 | the loop run to the end extends the output it started with, by at most one triple per vertex still outside the tree |
| Prim.PrimSpec | Prim.cpp:6-50 | the whole run from the initial state emits at most `V` triples |
| Prim.RelaxEdge | Prim.cpp:39-45 | one inner-loop step keeps the state well formed and leaves tree membership and output untouched |
| Prim.RelaxEdgeKeys | Prim.cpp:39-45 | one inner-loop step only appends to the queue and only lowers keys of vertices outside the tree; tree vertices keep key and parent; each lowered key is queued with its vertex |
| Prim.RelaxFromSkip | Prim.cpp:35-46 | edges that lead into the tree or are no lighter than the current key change nothing |
| Prim.StepDecreases | Prim.cpp:19-28 | each iteration either adds a vertex to the tree or shrinks the queue, so the loop ends |
| Prim.StepKeys | Prim.cpp:35-46 | over one iteration keys only drop, never for a tree vertex, and each drop leaves the new pair queued |
| Prim.RunOk | Prim.cpp:19-47 | from a state satisfying the loop invariant, the emitted triples satisfy `OutOk` |
| Prim.PrimProperties | Prim.cpp:6-51 | each triple `(w, p, x)` has `x` a vertex other than 0 and some list edge of weight `w` leading from `p` to `x` by the neighbour rule; `p` is 0 or emitted earlier; no vertex is emitted twice; at most `V - 1` triples |
| Prim.ComputeMST | Prim.cpp:6-51 | the array-and-queue loop returns `PrimSpec`, the state machine run from the initial state; the graph is only read |
| Prim.Iterate | Prim.cpp:20-46 | one loop iteration on the arrays carries out `Step` of the state machine |
| Prim.Admit | Prim.cpp:24-27 | the popped vertex joins the tree, and its triple is emitted exactly when it has a parent |
| Prim.RelaxEdges | Prim.cpp:35-46 | the inner `for` over the list carries out `RelaxFrom` |
| Prim.RelaxOne | Prim.cpp:39-45 | one relaxation on the arrays carries out `RelaxEdge` |
| Boruvka.FindSet | Boruvka.cpp:55-58 | returns the root of `i` (`parent[r] == r`); afterwards `i` is the root or points straight at it, and no vertex changes root |
| Boruvka.UnionSets | Boruvka.cpp:60-71 | the root of lower rank goes under the other; on a tie `v`'s root goes under `u`'s root, whose rank grows by one, even when the two are the same root |
| Boruvka.LinkRoots | Boruvka.cpp:63-70 | for two roots: the lower-ranked one goes under the other, a tie puts `v`'s root under `u`'s and raises that rank by one; the classes merge accordingly |
| Boruvka.RaiseRoot | Boruvka.cpp:67-69 | raising the rank of a root keeps the ranks ordered and every vertex's root, so the guardless tie with equal roots changes no class |
| Boruvka.CheapestUpTo | Boruvka.cpp:27-33 | after `j` edges a slot is -1 or the index of an earlier edge that leaves the slot's component |
| Boruvka.CheapestIsFirstMinimum | Boruvka.cpp:27-33 | `cheapest[c]` is -1 exactly when no edge leaves component `c`; otherwise it leaves `c`, weighs no more than any edge leaving `c`, and is strictly lighter than every earlier one |
| Boruvka.ScanCheapest | Boruvka.cpp:18-34 | after the reset and the scan, every slot holds `CheapestUpTo` over the whole list, and no vertex changes root |
| Boruvka.ScanEdge | Boruvka.cpp:21-33 | one scanned edge updates the slots of its two components as `CheapestUpTo` does for one more edge |
| Boruvka.Record | Boruvka.cpp:27-33 | given the two endpoint roots, each of the two slots takes the edge exactly when the slot is empty or holds a strictly heavier edge, which is `CheapestUpTo` for one more edge |
| Boruvka.StartInv | Boruvka.cpp:7-15 | every vertex is its own root, no edges are chosen and there are `V` components |
| Boruvka.MergeInv | Boruvka.cpp:44-48 | adding an edge between two classes and merging them keeps the round invariant with one component fewer |
| Boruvka.MergeOne | Boruvka.cpp:37-49 | a recorded edge is appended, and its classes merged, only when its endpoints' roots still differ; otherwise nothing changes |
| Boruvka.MergeCheapest | Boruvka.cpp:36-50 | the merge loop keeps the round invariant, returns exactly `MergePass` over all slots from the incoming edges, and, with at least one recorded edge, lowers the component count |
| Boruvka.MergeSlot | Boruvka.cpp:37-49 | an empty slot changes nothing; otherwise the recorded edge is appended, and its classes merged, exactly when its endpoints' roots differ |
| Boruvka.MergePassGrows | Boruvka.cpp:36-50 | `MergePass`, the merge loop as a fold over the slots in order, keeps the incoming edges as a prefix and appends at most one edge per slot |
| Boruvka.MergePassProgress | Boruvka.cpp:36-50 | when some read slot's recorded edge crosses two components of the incoming edges, the pass appends at least one edge |
| Boruvka.MergePassStep | Boruvka.cpp:41-48 | with a labelling whose classes are the components of the edges chosen so far, one more slot appends its edge exactly when the labelling separates the edge's endpoints |
| Boruvka.MergePassFrom | Boruvka.cpp:36-45 | every appended edge is the recorded edge of a slot already read |
| Boruvka.SomeCheapest | Boruvka.cpp:17-34 | with two or more components and a list that connects every vertex, the scan records at least one edge |
| Boruvka.Round | Boruvka.cpp:18-50 | a round keeps the invariant, ends with fewer components, and appends exactly `MergePass` over the slots the scan records for the components it started from |
| Boruvka.RoundLightest | Boruvka.cpp:18-50 | every edge a round appends is, for some component at the start of the round, the first lightest edge of the list leaving that component |
| Boruvka.FinishInv | Boruvka.cpp:17-52 | once at most one component is left, the chosen edges connect every vertex and number `V - 1` |
| Boruvka.ComputeMST | Boruvka.cpp:5-53 | for a list that connects every vertex, the result is a forest of list edges that connects every vertex, with exactly `V - 1` edges |
| MstFactory.ComputeMST | mst_factory.cpp:3-15 | `"prim"` returns Prim's result, `"kruskal"` returns Kruskal's result, any other name returns the empty list; the graph is only read |
| MstFactory.Dispatch | mst_factory.cpp:3-15 | whatever the name, the result uses only the graph's vertices and has at most `V - 1` edges |
| Driver.RunAll | main.cpp:28-45 | after running the algorithms in order, every edge uses only the graph's vertices |
| Driver.RunMSTAlgorithms | main.cpp:27-50 | the list becomes the last algorithm's output, each algorithm reading the previous output, and the matrix has every output edge of every run written over it in order |
| Driver.Replace | main.cpp:38-45 | clear and re-add: the list becomes exactly the result, in order, and its edges are written into the matrix in order |
| Driver.SetAll | main.cpp:41-45 | re-adding a list of edges keeps the matrix square and, if it was symmetric, symmetric |
| Driver.MatrixAfter | main.cpp:27-45 | after every run the matrix is still square, and symmetric if it was |
| Driver.SetAllKeeps | main.cpp:38-45 | a matrix cell that no re-added edge joins keeps its old value |
| Driver.SetAllLast | main.cpp:41-45 | a cell joined by a re-added edge holds the weight of the last such edge |
| MainExamples.KruskalExample1 | main.cpp:54-59 | Kruskal on the first example selects `(4,2,3), (5,0,3), (10,0,1)` |
| MainExamples.GreedyExample1 | main.cpp:54-59 | Kruskal's selection on the first example weighs 19 and leaves vertex 4 untouched |
| MainExamples.PrimExample1 | main.cpp:54-59 | Prim on the first example emits `(4,0,2), (4,2,3), (10,0,1)`, total 18, and `(4,0,2)` is not an edge of the graph |
| MainExamples.KruskalOnPrim1 | main.cpp:61-63 | Kruskal run on Prim's output returns that output unchanged |
| MainExamples.DriverExample1 | main.cpp:61-63 | running `{"prim", "kruskal"}` on the first example leaves Prim's three edges as the list |
| MainExamples.MatrixExample1 | main.cpp:61-63 | the matrix afterwards is the original with Prim's output written twice |
| MainExamples.CellsSetExample1 | main.cpp:41-45 | after the two runs the cells of the listed edges hold 4, 4 and 10 |
| MainExamples.CellsKeptExample1 | main.cpp:38-45 | the cells of the dropped edges `{0,3}` and `{1,3}` keep their old weights |
| MainExamples.Example1Run | main.cpp:54-63 | building the first example and running `{"prim", "kruskal"}` leaves Prim's edges in the list and the weights 4, 4, 10, 5 and 15 in the matrix |
| MainExamples.Example1Disconnected | main.cpp:54-59 | the first example does not connect vertex 0 to vertex 4, so it does not connect every vertex |

## Left out

- The two socket servers (pipeline and leader-follower) are out of scope: threads, mutexes, condition variables, blocking reads and the parsing of raw buffers.
- `getAverageDistance` divides in double precision. Floating point is not modelled.
- `printMST`, `printMSTEdges`, `printMSTResults` and every `std::cout` trace in the algorithms produce console output only. They and the `totalWeight` counters that feed only them are not modelled.
- Only the first example graph of `main.cpp` is evaluated. The later examples exercise the same members.
- C++ `int` overflow is not modelled. Weight sums, `dist[u] + weight` and path lengths are unbounded integers, so the model assumes no arithmetic overflows.
- `std::sort` and `std::priority_queue` are specified rather than implemented:
  - The sorted copy is the unique sorted permutation (`SortEdges`).
  - The queue is a sequence of pairs with "remove a smallest pair" (`MinIndex`, `Pop`).
  - Neither the heap nor the sort algorithm is verified.
- GraphModel.Graph.GetShortestPath: requires non-negative matrix weights. Without that requirement the source's loop does not terminate on a negative cycle, and the minimum-walk claim is not stated for negative weights. Apart from `-1`, which means "absent", such weights can come from `addEdge`.
- GraphModel.Graph.GetShortestPath: the model does not claim termination in `V` rounds. It bounds the work by the sum of distances plus the queue length.
- Boruvka.ComputeMST: requires the edge list to connect every vertex. On a disconnected list the source's `while` loop never ends, because a round finds no edge and `numComponents` never drops.
- Boruvka.ComputeMST: models the recorded edge index as the position of the edge in the list. The source computes it as a pointer difference between an element of one temporary copy of the list and the start of another copy. That is undefined behaviour in C++ and has no value to model.
- Boruvka.ComputeMST: states only that the result is a spanning tree of the list. Each round is pinned by `Round` and `RoundLightest`, but the result is not tied to the sequence of rounds: the slot order of a round depends on which vertex union by rank makes each class's root. Minimality (the cut property) is not proved.
- Boruvka.ComputeMST: is not reachable from the factory. Its branch is commented out, so `"boruvka"` yields an empty list, as modelled.
- Prim.ComputeMST: requires `V >= 1`, because the source writes `key[0]` unconditionally.
- Prim.PrimProperties: does not claim a spanning tree or minimality. With the source's neighbour rule the emitted triples need not be edges of the graph: `(4,0,2)` in the first example is not.
- Kruskal.KruskalProperties: proves forest, connectivity and size, not minimum total weight. Optimality is not claimed for any of the algorithms.
- GraphModel.Graph.constructor, Kruskal.DSU.constructor: take the size as a `nat`. In the source, `Graph(int V)` and `DSU(int n)` pass a negative size to a `std::vector` constructor, which throws `std::length_error`; that error path is not modelled.
- All graph methods require `0 <= u, v < V` where the source indexes the matrix with `u` and `v`. The source does not check these bounds, so an out-of-range index is undefined behaviour there.
