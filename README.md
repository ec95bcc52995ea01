# A* grid search and TSP solvers in Dafny

This project models two programs:

- **`A-star-vis.py`**: an A* path finder on a square grid of nodes.
  - Each node carries a colour, which the program reads as the node's role: empty, start, end, wall, open, closed or path.
  - Each node also carries a list of neighbours, rebuilt on demand.
  - `algorithm` searches from the start node to the end node. It uses:
    - a priority queue of `(priority, counter, node)` entries;
    - a set mirroring the queued nodes;
    - g- and f-score dictionaries;
    - a predecessor map.
  - On success, `reconstruct_path` walks the predecessor map back from the end and paints the nodes it passes.
- **`tsp.py`**: two travelling-salesman solvers over a distance matrix.
  - The exhaustive one measures every ordering of the cities.
  - The greedy one always moves to the nearest unvisited city.

## Layout

- **`cells.dfy`** (module `Cells`):
  - node colours (`Category`) and positions (`Pos`);
  - the Manhattan `Heuristic`, with its symmetry, zero, triangle, consistency and admissibility lemmas.
- **`grid.dfy`** (module `Grids`): class `Grid`.
  - It holds one colour array and one neighbour-list array. Together they stand for the `Node` objects.
  - `generate_grid` is modelled as the constructor.
  - The `make_*`/`reset` mutators are modelled as `SetColor`.
  - `update_adjacent_nodes` is modelled as `UpdateAdjacentNodes`, specified by the function `AdjacentNodes`.
  - The driver's refresh of every node's neighbours is modelled as `RecomputeAdjacency`.
  - The category predicates (`closed_node`, `wall_node`, …) are the datatype's discriminators (`Closed?`, `Wall?`, …).
  - `get_position` is the identity, because a node is identified by its position.
- **`frontier.dfy`** (module `Frontier`):
  - queue entries;
  - Python's tuple order, including `Node.__lt__`, which always answers false;
  - removal of the least entry (`PopMin`).
- **`search.dfy`** (module `Search`):
  - the local state of `algorithm` as a datatype, with the invariants of its loop;
  - one relaxation, as the function `Relaxed` and the method `Relax`;
  - the neighbour loop, as the function `RelaxAll` and the method `Expand`;
  - one iteration of the `while` body (`Step`, `Finish`, `Visit`) and the whole search (`Algorithm`);
  - `reconstruct_path` (`ReconstructPath`), specified by the ghost function `Route`;
  - the colour each node has while the search runs (`Shade`), and which nodes a walk from the start reaches (`Reachable`).
- **`seqs.dfy`** (module `Seqs`): removing one element from a sequence (`Without`), used by the queue and by the permutations.
- **`tsp.dfy`** (module `Tsp`):
  - `itertools.permutations` as `Permutations`, proved complete and lexicographically sorted;
  - tour lengths;
  - `tsp_brute_force` (`TspBruteForce`) and `tsp_greedy` (`TspGreedy`, with `Nearest` for the `min` call).

In `algorithm` the code differs from a classic A* description in three places. The model follows the code:

- The start is queued with priority 0, not with its f-score (lines 135 and 140).
- A node whose g-score improves while it is queued keeps its old queue entry. So a queued priority is only known to be at least the current f-score (lines 165-169).
- `reconstruct_path` paints every predecessor of the end as path, including the start. It also stops only at a node without a predecessor, which is the start. The end is painted open when it is queued (line 170), and painted as the end again after tracing (line 155). So neither the start nor the end keeps its colour untouched during a run.

## Model

| member | source | states |
|---|---|---|
| Cells.HeuristicSymmetric | A-star-vis.py:100-105 | the Manhattan distance is symmetric |
| Cells.HeuristicZeroIff | A-star-vis.py:100-105 | the distance is zero exactly when the two positions are equal |
| Cells.HeuristicTriangle | A-star-vis.py:105 | the distance obeys the triangle inequality |
| Cells.HeuristicConsistent | A-star-vis.py:105 | one grid step changes the estimate to a goal by at most one (consistency) |
| Cells.HeuristicAdmissible | A-star-vis.py:105 | the estimate never exceeds the number of unit steps of any walk between the two positions |
| Grids.Grid.constructor | A-star-vis.py:184-192 | `generate_grid` gives `rows` × `rows` nodes, all white, with empty neighbour lists |
| Grids.Grid.SetColor | A-star-vis.py:54-73 | a mutator repaints one node and leaves every other node's colour alone |
| Grids.Grid.UpdateAdjacentNodes | A-star-vis.py:84-95 | the node's neighbour list becomes `AdjacentNodes(p)`: the in-grid, non-wall candidates down, up, right and left; no other list changes |
| Grids.Grid.RecomputeAdjacency | A-star-vis.py:277-279 | after the double loop every node's list is its `AdjacentNodes`, so every neighbour is in the grid and one step away |
| Grids.Grid.UpdateRow | A-star-vis.py:278-279 | the inner loop refreshes one row's lists and leaves other rows alone |
| Grids.PassableSubset | A-star-vis.py:84-95 | the filter keeps exactly the candidates that are in the grid and not walls, and never more than it was given |
| Grids.PassableKeepsOrder | A-star-vis.py:84-95 | the filter keeps the candidates' direction order |
| Grids.AdjacentShape | A-star-vis.py:84-95 | at most four neighbours, each in bounds, not a wall, at Manhattan distance exactly 1 |
| Grids.AdjacentComplete | A-star-vis.py:84-95 | conversely, every in-bounds non-wall position one step away is a neighbour |
| Grids.AdjacentOrder | A-star-vis.py:84-95 | neighbours appear in the fixed order down, up, right, left |
| Frontier.PopMin | A-star-vis.py:149 | `get()` returns a queued entry that no queued entry is less than, and removes exactly that entry |
| Frontier.FirstInFirstOut | A-star-vis.py:167-168 | with distinct counters, the popped entry has the smallest counter among the entries of its priority |
| Frontier.EntryLessStrict | A-star-vis.py:97-98 | tuple order with `__lt__` always false is irreflexive and transitive |
| Frontier.CountersDecide | A-star-vis.py:97-98 | entries with different counters are always ordered by (priority, counter); `__lt__` never decides |
| Search.BeginInv | A-star-vis.py:133-142 | the initial state (start queued at priority 0, g 0, f its estimate, no predecessors) satisfies the loop invariant |
| Search.ProgressFrom | A-star-vis.py:144 | an iteration that scores a node, lowers a score, or changes no score and shortens the queue decreases the loop's measure |
| Search.Route | A-star-vis.py:113-114 | following predecessors from a scored node ends, at a node without predecessor; each link is a recorded predecessor and scores fall strictly along it |
| Search.RouteWalk | A-star-vis.py:162-163 | under the loop invariant the route starts at the start node and is a walk along neighbour lists inside the grid |
| Search.ReconstructPath | A-star-vis.py:108-116 | exactly the nodes of the route before `current` (its `Trail`) are painted path; all others keep their colour |
| Search.PathPainted | A-star-vis.py:113-115 | each route node before the last, being in the grid, reads as path |
| Search.Relaxed | A-star-vis.py:159-169 | one relaxation scores the neighbour at most `g[current] + 1`, never raises a score, adds at most the neighbour to the keys and to the hash, queues the neighbour if it was unscored, and changes nothing when no score changes |
| Search.Relax | A-star-vis.py:160-170 | the imperative relaxation yields `Relaxed` and paints exactly the newly queued node open |
| Search.RelaxedRooted | A-star-vis.py:160-164 | relaxing keeps g[start] = 0 and the start without predecessor (an improvement needs a score below 0) |
| Search.RelaxedInside | A-star-vis.py:159-164 | relaxing scores only grid nodes |
| Search.RelaxedDecrease | A-star-vis.py:162-164 | relaxing keeps every predecessor's g strictly below its successor's |
| Search.RelaxedEstimates | A-star-vis.py:165 | relaxing keeps f = g + h for every scored node |
| Search.RelaxedLinks | A-star-vis.py:163 | a recorded predecessor always has its successor among its neighbours |
| Search.RelaxedMirrored | A-star-vis.py:166-169 | relaxing keeps the hash equal to the queued nodes, each queued once |
| Search.RelaxedCounted | A-star-vis.py:167-168 | relaxing keeps counters strictly increasing along the queue |
| Search.RelaxedPriorities | A-star-vis.py:165-168 | relaxing keeps the start's priority 0 and every other priority at least the node's f |
| Search.RelaxAll | A-star-vis.py:159-170 | the neighbour loop never loses a scored node or a queued node |
| Search.RelaxAllEffect | A-star-vis.py:159-170 | after the loop every neighbour is scored, no score rose, only neighbours were newly queued, every newly scored node was queued, and nothing changed if no score did |
| Search.RelaxAllKeeps | A-star-vis.py:159-170 | the neighbour loop keeps the score, queue and link invariants |
| Search.Expand | A-star-vis.py:159-170 | the `for` loop yields `RelaxAll` over the node's neighbour list and paints exactly the newly queued nodes open |
| Search.ExploredAfter | A-star-vis.py:159-170 | after expansion every scored node is queued or has all neighbours scored |
| Seqs.Without | A-star-vis.py:149 | removing an entry keeps the earlier entries, shifts the later ones down by one, and removes exactly that element from the multiset |
| Search.PopMirrored | A-star-vis.py:149-150 | popping an entry and removing its node from the hash keeps the two equal |
| Search.PopCounted | A-star-vis.py:149 | popping keeps counters ordered |
| Search.PopPriorities | A-star-vis.py:149 | popping keeps the priority bounds |
| Search.PoppedNode | A-star-vis.py:149-150 | the popped node is a scored grid node whose neighbours are in the grid and differ from it |
| Search.PopKeeps | A-star-vis.py:149-150 | popping keeps the score, queue and link invariants, and queued nodes stay scored |
| Search.QueuedScored | A-star-vis.py:166-169 | every queued node has a finite g-score |
| Search.Finish | A-star-vis.py:152-155 | on popping the end, the route start→end is a walk; every route node before the end is painted path and the end is painted as the end; every node off the route keeps the colour the search had given it |
| Search.EndOnce | A-star-vis.py:113-115 | the end does not occur on its route before its last place, so painting the path never repaints it |
| Search.TracedRoute | A-star-vis.py:152-155 | once the end reads as the end and the nodes before it on its route as path, the route is a traced walk from the start |
| Search.Visit | A-star-vis.py:159-175 | expanding a popped non-end node yields exactly the next state `Next` (pop, then relax every neighbour in list order); it keeps the loop invariant, lowers no score, does not requeue the node, decreases the measure, paints new queue members open and the node closed unless it is the start, so every node keeps the colour the search gives it by that state (`Shade`) |
| Search.ExpandKeeps | A-star-vis.py:149-170 | pop then expansion keeps the whole loop invariant |
| Search.NextLowers | A-star-vis.py:159-170 | pop then expansion never raises a g-score and leaves the popped node out of the hash |
| Search.NextProgress | A-star-vis.py:144-170 | pop then expansion decreases the loop's measure |
| Search.Step | A-star-vis.py:144-175 | one iteration: fails iff the queue is empty, changing nothing; pops a least entry `k`, first-in-first-out among equal priorities; succeeds iff it is the end (then traces the route and leaves every node off it as the search had coloured it); otherwise the new state is exactly `Next` for entry `k`, keeps the invariant and the `Shade` colouring, never raises a g-score, makes progress and paints the node closed unless it is the start |
| Search.Algorithm | A-star-vis.py:120-177 | returns true with a walk start→end painted path and the end painted as the end, every node off it either unchanged or a node other than the start reachable from it and now open or closed; returns false only when no walk from the start reaches the end, and then exactly the reachable nodes other than the start are closed and all others keep their colour; start == end returns true changing only the end's colour |
| Search.SearchLoop | A-star-vis.py:144-177 | the `while` loop keeps the invariant and every node coloured as `Shade` says; it stops with the traced route when the end is popped, and with an empty queue otherwise |
| Search.NextShade | A-star-vis.py:159-175 | one iteration's repainting (popped node closed unless it is the start, newly queued nodes open) turns the colouring of the old state into that of the next state |
| Search.NextQueues | A-star-vis.py:149-170 | in one iteration only the popped node leaves the queue, no node loses its score, a newly scored node is newly queued, and the start is never queued again |
| Search.ScoredReachable | A-star-vis.py:159-164 | every scored node is reachable from the start along neighbour lists |
| Search.ShadeTouched | A-star-vis.py:170-175 | a node the search recolours is reachable from the start, is not the start, and is open or closed |
| Search.ScoredClosed | A-star-vis.py:144-177 | when the queue runs empty every neighbour of a scored node is scored |
| Search.ReachedExactly | A-star-vis.py:144-177 | when the queue runs empty the scored nodes are exactly the nodes reachable from the start |
| Search.NoRoute | A-star-vis.py:177 | when the queue empties without the end, no walk along neighbour lists from the start contains the end |
| Search.WalkStaysInside | A-star-vis.py:159-170 | a walk from a region closed under neighbour lists never leaves it |
| Tsp.Range | tsp.py:17 | `range(n)` lists 0 … n-1 in order |
| Tsp.TourShape | tsp.py:21 | a permutation of `range(n)` has n entries, all below n, none repeated |
| Tsp.ClosedTourLength | tsp.py:22-25 | the legs between consecutive cities plus the leg back from the last city sum to `TourLength` |
| Tsp.LegsAppend | tsp.py:22-24 | legs of a concatenation split at the joining leg |
| Tsp.TourRotation | tsp.py:22-25 | the closed-tour length does not depend on which city the tour starts from |
| Tsp.Permutations | tsp.py:21 | every enumerated arrangement is a permutation of the input |
| Tsp.PermutationsComplete | tsp.py:21 | every permutation of the input is enumerated |
| Tsp.PermutationsSorted | tsp.py:21 | for ascending input the enumeration is strictly increasing in lexicographic order (so each arrangement appears once, in itertools order) |
| Tsp.LexLessAsymmetric | tsp.py:21 | the lexicographic order in which `itertools.permutations` yields the orderings is irreflexive and asymmetric |
| Tsp.SortedOrder | tsp.py:21 | in a sorted enumeration a lexicographically smaller arrangement comes earlier |
| Tsp.ToursEnumerated | tsp.py:21 | `permutations(range(n))` lists exactly the tours of n cities, sorted, including `range(n)` itself |
| Tsp.TspBruteForce | tsp.py:5-31 | IndexError iff the matrix is empty; otherwise the path is a tour whose length is the returned distance, no tour is shorter, and every lexicographically smaller tour is strictly longer |
| Tsp.BruteForceOptimal | tsp.py:27-29 | the first strictly improving minimum of the enumeration is optimal over all tours and first among the optimal ones in lexicographic order |
| Tsp.Nearest | tsp.py:51 | `min` with a key returns a candidate at least distance, strictly nearer than every earlier candidate |
| Tsp.NearestChosen | tsp.py:51 | over ascending candidates, the first minimum is the nearest city with the lowest number among ties |
| Tsp.TspGreedy | tsp.py:33-59 | IndexError iff the matrix is empty; otherwise the path starts at 0, is a tour, each city is the nearest unvisited one (lowest number on ties), the distance is its closed-tour length and the loop ran n-1 times |
| Tsp.GreedyStep | tsp.py:49-53 | one loop turn keeps visited/unvisited a split of the cities, unvisited ascending, and the nearest-city rule for every choice so far |
| Tsp.GreedyDone | tsp.py:55 | when no city is left the visited list is a greedy tour |
| Tsp.GreedyUnique | tsp.py:49-53 | two tours from the same first city that both follow the nearest-city rule are equal, so the rule determines the greedy tour |

## Left out

- Drawing and pygame: `draw`, `draw_grid`, `draw_window`, the window setup and the pixel fields `x`, `y`, `width`. The `draw` callbacks are no-ops.
- The interactive driver `main` and `get_mouse_click_position`. Of `main`, only the double loop that refreshes every node's neighbours before a search is modelled (`RecomputeAdjacency`). The search requires its result, `NeighboursWellFormed`.
- Event polling inside the search loop, `time.time()` and the `print` of the elapsed time.
- `PriorityQueue`'s binary heap. The queue is a sequence in insertion order, and `PopMin` takes the least entry under the same tuple order. Counters are distinct, so that entry is unique and the heap layout cannot change which entry comes out.
- `float("inf")` scores. A node absent from `gScore`/`fScore` has the infinite score, and finite scores are natural numbers.
- Node objects as separate identities. A node is its `(row, col)` position, which `generate_grid` makes unique, and `total_rows` is the grid's `rows`.
- Grids.Grid.constructor: `generate_grid` with `rows == 0` raises ZeroDivisionError in `width // rows`. The constructor requires `rows > 0` instead of modelling that exception, and the `width` argument only feeds the drawing geometry.
- Search.Algorithm: it promises a walk, not a shortest one. Optimality of the returned path is not stated, because a queued entry keeps the priority it was queued with after its node's g-score improves, so the textbook argument does not apply as written. The start's priority of 0 does no harm: the start is alone in the queue when it is popped.
- `tsp.py`'s `visualize_tsp`, the interactive `input` loop and the numpy construction of the distance matrix. Distances are an integer matrix given as a parameter, not floats.
- The `cities` argument of both solvers, which neither uses.
- Tsp.TspBruteForce, Tsp.TspGreedy: they require a square matrix, as the docstrings state. A ragged matrix is not modelled: it raises IndexError in Python or silently uses only part of a row.
