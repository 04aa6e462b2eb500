# Greedy + 2-opt route solver, modelled in Dafny

`GreedySolver` in solver/greedy_2opt.py finds a short route through N nodes
given a distance matrix. A route may have an optional fixed start and an
optional fixed end; when the two are equal it is a closed loop. The solver works in three stages.

1. **Construction.** `__init__` and `check_validity` check the endpoints and the
   shape of the matrix.
2. **Greedy stage (`run`).** `pairs_by_dist` lists every pair of nodes in order
   of increasing distance. `run` takes each pair whose two nodes still have a
   free slot ("valency") and lie in different segments, so the accepted edges
   form a forest of paths. With both ends fixed, a pair that would join the
   start segment to the end segment is held back until it is the last edge
   needed. In loop mode the two remaining open ends are then joined.
   `restore_path` walks the adjacency sets (`connections`) to rebuild the path.
3. **2-opt refinement (`opt2_optimize`).** Each pass runs a = 0 .. N-5. At each
   position it finds the candidate c of largest gain
   `d(a,a+1) + d(c,c+1) - d(a,c) - d(a+1,c+1)`. If that gain is positive, it
   rewrites the four adjacency sets and rebuilds the path from the stored start.
   When only the end is fixed, the stored start is that end, so the rebuilt
   path begins there instead of ending there (see Findings). The model's
   passes rebuild the path the way the first reconstruction did, which keeps
   every fixed endpoint in place.

The model has one module per concern:

| Module | What it models |
|---|---|
| `Basics` | `Option`, `Result` and the solver's failure kinds |
| `Distances` | integer matrices, route length as in utils.py `cost_distance`, reversal |
| `Tours` | tours, and adjacency sets that describe a tour |
| `Validation` | the constructor's checks |
| `Pairs` | `pairs_by_dist` |
| `Segments` | edge sets, segment labels, reachability |
| `Greedy` | the edge loop and loop closing of `run` |
| `Restore` | `restore_path` |
| `Solver` | the `run` pipeline |
| `TwoOpt` | one 2-opt move |
| `Optimize` | the passes of `opt2_optimize` |

The distance matrix is a sequence of rows standing for a two-dimensional
numpy array. Rows of unequal length form no such array, and line 50 cannot
index them; `run` then fails with `RaggedMatrix`. Each member's `requires`
says what it assumes of its inputs. Within those inputs, every Python
exception the code raises is an `Err` value of `Basics.Error`.

## Model

| member | source | states |
|---|---|---|
| Validation.Validate | solver/greedy_2opt.py:11-41 | An out-of-range start is reported before an out-of-range end. Validation succeeds exactly when both endpoints are in range and the size is 0, 1 or a 2-node loop, or every row i has at least i entries. A success keeps the matrix, size and endpoints, and sets loop mode exactly when start equals end. A short-row error names the first short row. |
| Validation.FirstShortRow | solver/greedy_2opt.py:37-41 | The row it returns is the first one with fewer entries than its index. It returns none exactly when every row is long enough. |
| Validation.ValidateIgnoresValues | solver/greedy_2opt.py:20-41 | Two matrices with the same row lengths validate alike: the check never reads a distance. |
| Greedy.ValidateConfigures | solver/greedy_2opt.py:11-18 | A validated configuration has its size equal to the matrix length and its endpoints inside it, and it is a loop exactly when start equals end. |
| Pairs.Enumerate | solver/greedy_2opt.py:45-47 | The list holds exactly the pairs (j, i) with i < j < N, strictly increasing by smaller then larger index, as the numpy upper-triangle enumeration gives them. |
| Pairs.Insert | solver/greedy_2opt.py:49-51 | Inserting into a key-sorted list keeps it key-sorted, adds one element and keeps the others. |
| Pairs.Sort | solver/greedy_2opt.py:49-51 | The result is sorted by (distance, enumeration order), has the same length and holds the same pairs. |
| Pairs.PairsByDist | solver/greedy_2opt.py:43-52 | The list holds every pair of distinct nodes exactly once, larger index first. It is non-decreasing in the distance `m[hi][lo]`, and pairs at equal distance keep enumeration order, as the stable sort promises. |
| Pairs.SortedUnique | solver/greedy_2opt.py:49-51 | Two key-sorted lists of the same pairs are equal, so the stable sort's order is fully determined by the key. |
| Segments.Merge | solver/greedy_2opt.py:129-131 | After the merge, exactly the members of the two segments carry the first label. Every other node keeps its label. |
| Segments.MergeLabels | solver/greedy_2opt.py:129-131 | Merging two different segments retires exactly one label. |
| Segments.AddEdge | solver/greedy_2opt.py:125-126 | Recording a new edge in both adjacency sets adds exactly that edge to the edge set. |
| Greedy.ConnectsEnds | solver/greedy_2opt.py:54-59 | A pair joins the end segments exactly when its two segment labels, taken as a set, are the labels of the start and the end. |
| Greedy.Accept | solver/greedy_2opt.py:123-133 | Accepting a pair spends one free slot at each of its nodes and records the edge in both adjacency sets. Its two segments then carry one common label, and every other node keeps its own. One edge fewer is left, and no other node changes. |
| Greedy.StartValency | solver/greedy_2opt.py:94-102 | Each node starts with two free slots, or one at a fixed start or end of an open path. |
| Greedy.InitialInv | solver/greedy_2opt.py:94-110 | The initial state (no edges, singleton segments, N-1 edges left) satisfies the loop invariant `Inv`. `Inv` covers: slots, a symmetric loop-free adjacency inside segments, segments plus edges equal to N, connectivity of each segment, and end segments kept apart while edges remain. |
| Greedy.AcceptKeepsInv | solver/greedy_2opt.py:114-133 | Accepting an open pair that is not held back keeps every part of `Inv`. |
| Greedy.OpenHasBudget | solver/greedy_2opt.py:110-135 | While a pair is still open, at least one edge is left, so the `edges_left == 0` exit never skips an acceptable pair. |
| Greedy.TakePair | solver/greedy_2opt.py:113-135 | A pair is taken exactly when both nodes have a free slot, they lie in different segments, and the pair is not held back. A taken pair is applied with `Accept`; otherwise the state is unchanged. Every pair seen so far stays settled. |
| Greedy.GreedyEdges | solver/greedy_2opt.py:108-135 | The loop keeps `Inv`. If it ends with edges still missing, every pair of the list is blocked at that point: a node has no free slot, both nodes share a segment, or the pair would join the start and end segments. |
| Greedy.EdgeBudget | solver/greedy_2opt.py:110-135 | At most N-1 edges are accepted, and `edges_left` never drops below zero. |
| Greedy.DegreeBound | solver/greedy_2opt.py:94-126 | Every node ends with at most two neighbours, and at most one at a fixed end of an open path. |
| Greedy.OpenEnds | solver/greedy_2opt.py:140 | The list holds exactly the nodes with one neighbour, in increasing order. |
| Greedy.CloseLoop | solver/greedy_2opt.py:137-142 | Closing succeeds exactly when two nodes have one neighbour. It then joins those two nodes and changes no other adjacency set. Otherwise the error carries how many nodes have one neighbour. |
| Restore.FirstOther | solver/greedy_2opt.py:81-83 | The result is the smallest neighbour other than the previous node, or none when no such neighbour exists. |
| Restore.FirstOpenEnd | solver/greedy_2opt.py:67-69 | The result is the first node with exactly one neighbour, or none when there is none. |
| Restore.Walk | solver/greedy_2opt.py:76-85 | A successful walk of k steps has k+1 nodes and starts at the current node. Consecutive nodes are neighbours, and it never steps straight back. Its only failure is a dead end. |
| Restore.RestorePath | solver/greedy_2opt.py:61-89 | Start selection: the fixed start if given. Otherwise the fixed end, and the path is reversed. Otherwise the first node with one neighbour, and the walk fails without one. The path has N nodes (N+1 in loop mode) and follows the adjacency. |
| Restore.WalkOpenTour | solver/greedy_2opt.py:76-85 | On the adjacency of an open tour, the walk from its first node retraces the tour. |
| Restore.WalkClosedTour | solver/greedy_2opt.py:76-85 | On the adjacency of a closed tour, the walk from its first node retraces it when the second node is the smaller neighbour. |
| Restore.RestoreGivesTour | solver/greedy_2opt.py:61-89 | When the adjacency describes a tour and the endpoints sit on it, rebuilding succeeds and returns that tour in one of its two directions. |
| Restore.RestoreWalks | solver/greedy_2opt.py:61-89 | A successful rebuild is the walk from the stored start, read backwards when only the end was fixed. |
| Tours.LinkedDistinct | solver/greedy_2opt.py:76-85 | Take a graph without self-loops, with each edge recorded at both ends and at most two neighbours per node. A walk in it that starts at a node with at most one neighbour and never steps straight back never revisits a node. |
| Tours.LinkedTour | solver/greedy_2opt.py:76-85 | In such a graph, a linked walk over all N nodes that starts at a node with at most one neighbour is an open tour. The adjacency sets hold exactly its edges. |
| Tours.ReverseTour | solver/greedy_2opt.py:86-87 | A tour read backwards is a tour described by the same adjacency sets. |
| Distances.Length | utils.py:10-11 | A route of at most one node has length zero. On a matrix without negative entries no route has negative length. |
| Distances.LengthAppend | utils.py:10-11 | The length of two joined routes is the sum of their lengths plus the joining hop. |
| Distances.LengthReverse | utils.py:10-11 | On a symmetric matrix a route and its reverse have the same length. |
| Solver.CloseLoopDegrees | solver/greedy_2opt.py:137-142 | Closing the loop keeps every degree at most two. |
| Solver.GreedyDegrees | solver/greedy_2opt.py:94-126 | After the greedy stage every node has at most two neighbours, and at most one at a fixed end of an open path. |
| Solver.Finish | solver/greedy_2opt.py:137-147 | A success yields a sound solver: same configuration, degree at most two, and a path of the right length that follows the adjacency sets. That path starts at the fixed start. When only the end is fixed, it ends there and follows the adjacency backwards. With no endpoints, it starts at the stored start, a node with one neighbour. A loop whose ends cannot be closed fails with that error. With no endpoints and no node of degree one it fails with `NoOpenEnd`. |
| Solver.FinishOpenValid | solver/greedy_2opt.py:61-89 | For an open path, take an adjacency of degree at most two, with no self-loops, each edge recorded at both ends, and at most one neighbour at a fixed end. A successful rebuild from it visits every node exactly once, starts at a fixed start and ends at a fixed end. On a square matrix the solver is then valid: its adjacency describes the path as a tour. |
| Solver.RestoredTour | solver/greedy_2opt.py:61-89 | For an open path over two or more nodes, the walk through such an adjacency is a tour that the adjacency describes exactly. When both ends are fixed, the end, having at most one neighbour and not being the start, is the last node. |
| Solver.TinyFails | solver/greedy_2opt.py:28-33 | The sizes `check_validity` settles early still go through `run`. N=0 fails with no open end. A single node in loop mode fails at the loop unpack, and a single free node finds no open end. |
| Solver.TwoNodeLoopFails | solver/greedy_2opt.py:137-145 | Two nodes joined into a loop fail on the second step of the walk, where the only neighbour is the node just left, so the run fails. |
| Solver.Run | solver/greedy_2opt.py:91-147 | A ragged matrix fails with `RaggedMatrix`, as the indexing of line 50 does. Otherwise the run is sound in the sense of `Finish`, and leaves fixed ends of an open path with at most one neighbour. A success starts at the fixed start, and an open path ends at the fixed end, also when both are fixed. An open path that succeeds visits every node exactly once; on a square matrix the solver is then valid, which is what `opt2_optimize` needs. It fails for N=0, for N=1 in loop mode or without endpoints, and for the 2-node loop. |
| Solver.EarlyPath | solver/greedy_2opt.py:28-33 | The early route has N nodes (N+1 in loop mode) and visits every node. It starts at the fixed start, ends at the fixed end, and closes in loop mode. |
| Solver.Solve | solver/greedy_2opt.py:28-35 | The intended solver never fails on the early sizes. Any success is a route of the right length over the node ids, from the fixed start, and to the fixed end for every open path and for the early sizes; on the early sizes it visits every node. |
| TwoOpt.BestCandidate | solver/greedy_2opt.py:166-182 | The returned candidate has the largest gain in the range, and every earlier candidate has a strictly smaller gain, matching `np.argmax`'s first maximum. |
| TwoOpt.FirstMaxUnique | solver/greedy_2opt.py:181-182 | The first maximum is unique, so the choice is deterministic. |
| TwoOpt.Remove | solver/greedy_2opt.py:193 | `set.remove` succeeds exactly when the element is present and then leaves the set without it. |
| TwoOpt.Swap | solver/greedy_2opt.py:193-201 | The four updates keep the number of adjacency sets and touch no other node. Their only failure is a missing neighbour. |
| TwoOpt.SwapDistinct | solver/greedy_2opt.py:193-201 | On four distinct nodes the updates succeed exactly when a-b and c-d are edges. Each of the four nodes then trades one neighbour for one other. |
| TwoOpt.Move | solver/greedy_2opt.py:189-203 | Entry k of the moved path is entry `Source(a,c,k)` of the old one: the stretch a+1..c is reversed and the rest kept. |
| TwoOpt.MoveTour | solver/greedy_2opt.py:189-203 | The moved path is again a tour. |
| TwoOpt.SwapMatches | solver/greedy_2opt.py:190-201 | On a tour the adjacency rewrite succeeds and describes exactly the moved path. |
| TwoOpt.MoveEnds | solver/greedy_2opt.py:166-171 | The move keeps the first and last entries of the path, since c+1 stays below N. |
| TwoOpt.SwapDegrees | solver/greedy_2opt.py:193-201 | The rewrite keeps every node's number of neighbours. |
| TwoOpt.GainHops | solver/greedy_2opt.py:173-179 | The gain is the distance of the two hops the move removes (a-b and c-d) less the two hops of the moved path that replace them (a-c and b-d). |
| TwoOpt.GainLength | solver/greedy_2opt.py:173-179 | On a symmetric matrix the move shortens the route by exactly the gain. |
| Optimize.StoredStartApply | solver/greedy_2opt.py:190-203 | The move as written: a success keeps the configuration and rebuilds a path of the right length that begins at the stored start. |
| Optimize.StoredStartMovesEnd | solver/greedy_2opt.py:64-73 | On a valid solver whose end alone is fixed, the move as written succeeds but puts the fixed end first and another node last, so the fixed end is lost and the result is not valid. |
| Optimize.Apply | solver/greedy_2opt.py:190-203 | A successful move keeps the configuration. It rebuilds a path of the right length that begins at the stored start, or, when only the end is fixed, ends at that end. Outside that case it is exactly the move as written. |
| Optimize.ApplyTour | solver/greedy_2opt.py:190-203 | On a valid solver the move succeeds; the rebuilt path is a tour of the rewritten adjacency, and is the moved path or its reverse. |
| Optimize.ApplyEnds | solver/greedy_2opt.py:190-203 | The move keeps the stored start, its place in the path and every fixed endpoint, and an open path keeps its two end nodes. |
| Optimize.ApplyValid | solver/greedy_2opt.py:190-203 | On a valid solver the move succeeds and stays valid, with the same ends and every fixed endpoint in place. The new adjacency is the rewrite, and the new path is the moved path or its reverse. |
| Optimize.ApplyLength | solver/greedy_2opt.py:173-203 | On a symmetric matrix the rebuilt path is shorter by exactly the gain, whichever direction it is read. |
| Optimize.ImproveAt | solver/greedy_2opt.py:181-203 | A positive first-maximum gain leads to a valid solver whose path is shorter by that gain. |
| Optimize.NoImprovement | solver/greedy_2opt.py:181 | Without a positive gain the solver is left unchanged. |
| Optimize.Improve | solver/greedy_2opt.py:165-203 | One position keeps validity, configuration, start and ends. It applies the first best candidate exactly when its gain is positive. On a symmetric matrix the length drops by exactly that gain, so any change is strictly shorter. |
| Optimize.Pass | solver/greedy_2opt.py:159-203 | A pass keeps validity, configuration, start and ends. It is the identity for N < 5, the single-node path included. It leaves a 2-optimal path (no position has a candidate of positive gain) unchanged, and on a symmetric matrix it leaves a path unchanged only when that path is 2-optimal. On a symmetric matrix it never lengthens the route, and shortens it strictly when it changes anything. |
| Optimize.SameEndsDegrees | solver/greedy_2opt.py:193-201 | Two valid solvers with the same ends give every node the same number of neighbours. |
| Optimize.Passes | solver/greedy_2opt.py:159-203 | Any number of passes, zero included, keeps validity, configuration, start, ends and every degree. A 2-optimal path is left unchanged. On a symmetric matrix the result is 2-optimal or at least `steps` shorter, since a pass that changes the route shortens it by at least one. On a symmetric matrix they never lengthen the route. |
| Optimize.Opt2 | solver/greedy_2opt.py:149-206 | Zero steps fail, and any other number succeeds. A success keeps validity, configuration, start, ends and degrees, with every fixed endpoint in place, and is the identity for N < 5, the single-node path included, and for a 2-optimal path. On a symmetric matrix the result is 2-optimal or at least `steps` shorter. On a symmetric matrix it never lengthens the route, and any change is strictly shorter. |
| Optimize.GreedyThenTwoOpt | main.py:19-25 | For an open path on a square matrix, `run` then `opt2_optimize(steps)`. A failed run is passed on. A successful run yields a valid solver whose path visits every node once. The passes then succeed exactly when `steps` is positive. Both the greedy path and the final path start at any fixed start and end at any fixed end. A 2-optimal greedy path is returned unchanged. On a symmetric matrix the final path is 2-optimal or at least `steps` shorter than the greedy one. The final path visits every node once. On a symmetric matrix it is no longer than the greedy path. |

## Left out

- Printing, plotting, reading coordinates (main.py, utils.py `calculate_distance_matrix`, `plot_route`) and the tqdm progress display are I/O and are not modelled.
- Distances are integers. The source uses floating-point numpy arrays; rounding and NaN are not modelled.
- `restore_path` iterates a Python set, whose order the language leaves open. The model fixes one order, the smallest candidate id first. Another order can make the walk leave in the other direction in loop mode, and the stored path is then that tour read backwards.
- The model does not prove that the greedy stage always accepts N-1 edges and yields a tour. It proves the forest invariant, the degree bounds, the exit condition, and what `restore_path` returns; whether the result is a full tour is left open.
- Solver.Run: requires every row i to hold i entries. The source's 2-node loop with a shorter second row fails in `pairs_by_dist` with an indexing error, which the model does not follow.
- Optimize.Opt2: requires `Valid`: the matrix is square, and the adjacency sets describe the path as a tour, or the path is a single node without neighbours. `Solver.Run` proves this for every open path it returns on a square matrix. Loop-mode results are not proved valid, because that rests on the greedy completion left open above. On a solver that is not valid, the source may raise KeyError or StopIteration part way through a pass, or index outside the matrix; those runs are not followed.
- Optimize.GreedyThenTwoOpt: requires an open path on a square matrix, for the reason given for Optimize.Opt2.
- Optimize.GreedyThenTwoOpt: returns the greedy and the refined solver as two independent values. In the source they share one list: `run` returns `self.path` (lines 145-147), and `opt2_optimize` overwrites it in place (line 203) and returns the same object (line 206). After main.py:20-25 the greedy path therefore holds the refined path too. main.py reads the greedy distance before the passes, so its printed figures are unaffected; the aliasing itself is not modelled.
- Solver.Solve: the fixed end is proved last for every open path and for the early sizes. In loop mode beyond those sizes, the model does not prove that the walk comes back to the start, because that rests on the greedy completion left open above.
- Optimize.Improve: follows the corrected end-only rebuild of `Optimize.Apply` (Findings row 3). As written, once only the end is fixed, the first accepted move puts that end at the front (`Optimize.StoredStartMovesEnd`); the model keeps it at the back.
- Optimize.Pass: follows the corrected end-only rebuild of `Optimize.Apply` (Findings row 3); as written, the fixed end moves to the front after the first accepted move.
- Optimize.Passes: follows the corrected end-only rebuild of `Optimize.Apply` (Findings row 3); as written, the fixed end moves to the front after the first accepted move.
- Optimize.Opt2: follows the corrected end-only rebuild of `Optimize.Apply` (Findings row 3); as written, the fixed end moves to the front after the first accepted move (`Optimize.StoredStartMovesEnd`).
- Optimize.GreedyThenTwoOpt: its final path keeps a fixed end last because the passes follow the corrected rebuild of Findings row 3; as written, an end-only run ends with that end first once any move is accepted.
- Optimize.Pass: the length results need a symmetric matrix. On an asymmetric matrix the gain formula does not measure the change in route length, and the model makes no length claim there.
- The early returns of `check_validity` are discarded by the constructor, and the model follows that (see Findings).

## Findings

| source | as written | input that shows it | evidently intended | confidence | as-written member | corrected member |
|---|---|---|---|---|---|---|
| solver/greedy_2opt.py:28-33 | `check_validity` returns routes for N=0, N=1 and the 2-node loop, but `__init__` drops them, so `run` still handles those sizes and raises | N=1 with no endpoints: `run` finds no node with one neighbour (StopIteration). A 2-node loop fails on the second step of its walk. | those routes are the solver's answer for the small sizes | medium, not executed | Solver.TinyFails | Solver.Solve |
| solver/greedy_2opt.py:159-205 | `progress_bar.close()` after the pass loop refers to a name bound only inside the loop | `opt2_optimize(0)` raises UnboundLocalError | zero passes return the path unchanged | high, not executed | Optimize.Opt2 | Optimize.Passes |
| solver/greedy_2opt.py:70-73 | with only the end fixed, the first `restore_path` stores the end as `self.start` and reverses its walk; every later call from line 203 sees a start, walks from the fixed end and does not reverse, so after any accepted move the fixed end is first and no longer last | N=5, end 4, no start, symmetric matrix with d(0,1)=d(1,2)=d(2,3)=1, d(0,3)=d(1,4)=2, d(3,4)=10 and 100 elsewhere: the greedy path is [0,1,2,3,4]; the move at a=0, c=3 gains 7 and the rebuilt path is [4,1,2,3,0] | the fixed end stays last, as the first reconstruction leaves it | high, not executed | Optimize.StoredStartMovesEnd | Optimize.ApplyValid |
