# Drone delivery planner: a Dafny model of its route-planning core

This project models the route-planning logic of the drone delivery planner
(DroneFiloOptimization). It covers five components and proves properties
about each of them.

- **Graph** (`src/utils/graph.py`), in module `Graphs` of `graph.dfy`.
  - A complete directed distance graph over drone nodes and delivery nodes, held in a `Graph` class.
  - Node-name resolution to positions.
  - The no-fly-zone test: the segment's bounding box overlaps the bounding box of some edge of a closed polygon ring.
- **A\*** (`src/algorithms/a_star.py`), in module `AStarSearch` of `a_star.dfy`.
  - The capacity and priority driven edge cost, and the heuristic with its active-zone penalty.
  - `find_path` as imperative Dafny, with an open list, `came_from`/`g_score`/`f_score` maps and path reconstruction.
  - Ghost "stamps" record when each g-score was last lowered. That order proves the reconstruction walk terminates and yields a path along graph edges with no repeated node.
- **CSP** (`src/algorithms/csp.py`), in module `ConstraintSearch` of `csp.dfy`.
  - The recursive search over drones, which updates a shared `assignments` map in place.
  - The search is first-fit. It is proved equal to a functional first-fit assignment, `Greedy`, and the weight, battery, time-window and single-assignment properties are proved about `Greedy`.
- **Genetic algorithm** (`src/algorithms/genetic_algorithm.py`), in module `Genetic` of `genetic.dfy`, single-parcel mode.
  - Validation, repair, the best-empty-drone search and fitness.
  - Crossover, mutation and the initial population.
  - Tournament selection, the elitist generation step and `run`.
  - Randomness is an explicit `Rng` stream: `unit(k)` is draw `k` of `random.random()`, and `pick(k)` indexes `random.choice`. A counter is threaded through every method, so each property holds for every stream.
- **Zone activity** (`src/models/no_fly_zone.py`), in `models.dfy`, which also holds the records `Drone`, `DeliveryPoint` and `NoFlyZone`.

Supporting files:
- `wrappers.dfy` holds `Option`.
- `ext_reals.dfy` holds `ExtReal`, the reals extended with the `-inf`/`inf` sentinels the source returns, with the comparison and addition the source uses on them.

Modelling choices:
- Distances are an abstract `Metric` on points: non-negative, symmetric and zero on equal points. It stands for `((x1-x2)**2 + (y1-y2)**2)**0.5`.
- Times are integer minutes.
- Node names are a tagged datatype. `NodeName` spells out the `"drone_k"`/`"dp_k"` strings, which the open list's tie-break compares.
- Python exceptions on unknown keys become `None` or an `UnknownNode` result.

Where the design description and the code disagree, the model follows the code:
- The graph keeps edges that cross no-fly zones.
- A\* has no closed set, so a node can be pushed again after it has been expanded.
- The CSP never backtracks in effect: `_backtrack` always falls through to the next drone, so it never yields `None`. The rollback at `src/algorithms/csp.py:52` therefore never runs.
- `repair_chromosome` keeps a route's first id even when that id is unknown. It is also not idempotent. An id skipped because it did not fit the first empty route at that moment can fit the first empty route on a second repair.

## Model

| member | source | states |
|---|---|---|
| Models.ActiveAtBothEnds | src/models/no_fly_zone.py:7-10 | a zone is active at its start time and at its end time (the interval is inclusive) |
| Models.InactiveOutsideInterval | src/models/no_fly_zone.py:7-10 | a zone is inactive strictly before its start and strictly after its end |
| Models.InvertedIntervalNeverActive | src/models/no_fly_zone.py:7-10 | a zone whose start is after its end is never active |
| Models.FindDrone | src/utils/graph.py:30-33 | finds a drone iff one has the id, and returns the first one in list order with that id |
| Models.FindDelivery | src/algorithms/a_star.py:34 | finds a delivery point iff one has the id, and returns the first one in list order with that id (the `next(...)` generator scans) |
| Models.DeliveryIds | src/algorithms/genetic_algorithm.py:14 | `valid_dp_ids` lists the ids of the delivery points, in order |
| Graphs.NodeList | src/utils/graph.py:17 | the node list is one drone node per drone, in order, followed by one delivery node per delivery point |
| Graphs.NodeSetMembers | src/utils/graph.py:17 | a node is a graph node iff a drone (for a drone node) or a delivery point (for a delivery node) has its id |
| Graphs.NodePosition | src/utils/graph.py:28-38 | a position exists iff the node is a graph node: a drone node maps to the first matching drone's `start_pos`, a delivery node to the first matching point's `pos`; any other node is the error case |
| Graphs.HitsRingFrom | src/utils/graph.py:48-54 | the scan from edge `i` is true iff some ring edge `j >= i`, from vertex `j` to vertex `(j+1) mod n`, passes the box-overlap test |
| Graphs.SegmentHitsRing | src/utils/graph.py:44-54 | the segment/ring test is true iff some ring edge passes the box-overlap test; an empty ring never intersects |
| Graphs.SegmentHitsRingIsSymmetric | src/utils/graph.py:44-54 | swapping the segment's endpoints does not change the test |
| Graphs.AnyZoneHit | src/utils/graph.py:56-61 | true iff some zone's ring passes the segment test |
| Graphs.CompleteGraphRows | src/utils/graph.py:15-26 | the edge map has one row per node; no row holds its own node; the row of `a` holds every other node |
| Graphs.CompleteGraphWeight | src/utils/graph.py:23-26 | the edge `a -> b` between distinct nodes weighs the distance between their positions |
| Graphs.CompleteGraphShape | src/utils/graph.py:15-26 | no self-edges; every ordered pair of distinct nodes has an edge; weights are non-negative and symmetric (`edges[a][b] == edges[b][a]`) |
| Graphs.Graph.constructor | src/utils/graph.py:7-13 | stores the drones, points and zones and builds the graph, leaving it valid (edges are the complete graph) |
| Graphs.Graph.BuildGraph | src/utils/graph.py:15-26 | the nested loops add exactly the complete distance graph to `edges` |
| Graphs.Graph.FillRow | src/utils/graph.py:21-26 | the inner loop yields the distance to every node other than `node1` |
| Graphs.Graph.GetNeighbors | src/utils/graph.py:40-42 | the neighbours of a node are exactly all other nodes; an unknown node is the error case |
| Graphs.Graph.IsInNoFlyZone | src/utils/graph.py:56-61 | true iff some zone passes the box test, whatever its active time |
| AStarSearch.EdgeCost | src/algorithms/a_star.py:25-46 | infinite iff the target is a delivery heavier than the drone's `max_weight`; else `distance*weight + (6-priority)*100` into a delivery, and plain distance into a drone node; every delivery node of the graph has its point, so the source's `except StopIteration` fallback is dead code |
| AStarSearch.DeliveryCostNonNegative | src/algorithms/a_star.py:41-42 | the delivery cost is non-negative when the distance and weight are and the priority is at most 6 |
| AStarSearch.EdgeCostNonNegative | src/algorithms/a_star.py:25-46 | a finite edge cost is non-negative for a metric with non-negative weights and priorities up to 6 |
| AStarSearch.AnyActiveZoneHitMeaning | src/algorithms/a_star.py:17-21 | the penalty loop fires iff some zone is active now and passes the segment test |
| AStarSearch.HeuristicPenalty | src/algorithms/a_star.py:10-23 | the heuristic is distance + 1000 if some active zone passes the box test, plain distance otherwise, and never below the distance |
| AStarSearch.StringLessTransitive | src/algorithms/a_star.py:51 | Python's lexicographic string order, which breaks ties between equal priorities in the heap, is transitive |
| AStarSearch.StringLessIrreflexive | src/algorithms/a_star.py:51 | that order is irreflexive |
| AStarSearch.EntryLessTransitive | src/algorithms/a_star.py:57 | the (priority, node name) order on heap entries is transitive |
| AStarSearch.NewMinimum | src/algorithms/a_star.py:57 | an entry below the least of a prefix of the open list is the least of that prefix extended by it |
| AStarSearch.PopMinIndex | src/algorithms/a_star.py:57 | `heappop` takes an entry of the open list that no other entry precedes in (priority, name) order |
| AStarSearch.CostOfNonNegative | src/algorithms/a_star.py:25-46 | the cost function over all node pairs is non-negative under the non-negativity conditions |
| AStarSearch.CostOfAgrees | src/algorithms/a_star.py:25-46 | the whole-graph cost function agrees with `_cost` on graph nodes |
| AStarSearch.PathCostAgrees | src/algorithms/a_star.py:67 | a path's cost is the same under any cost function that agrees with `_cost` on graph nodes |
| AStarSearch.ReverseAppend | src/algorithms/a_star.py:64 | reversing `path + [x]` puts `x` first (the `path[::-1]` of the reconstruction) |
| AStarSearch.RelaxKeepsForest | src/algorithms/a_star.py:67-70 | lowering a neighbour's g-score through `current` keeps every `came_from` link pointing to a node with a smaller g-score (or the same score and an earlier stamp), and never touches the start |
| AStarSearch.RelaxKeepsLinks | src/algorithms/a_star.py:67-70 | after the update every link still satisfies `g[pred] + cost(pred, n) <= g[n]` |
| AStarSearch.ChainIsPath | src/algorithms/a_star.py:59-63 | a `came_from` chain is a path along graph edges with no repeated node |
| AStarSearch.WalkStep | src/algorithms/a_star.py:60-62 | one step of the reconstruction walk follows `came_from`, and the unvisited part of the g-score keys shrinks |
| AStarSearch.WalkEnd | src/algorithms/a_star.py:63-64 | the walk stops exactly at the start, and the reversed walk is the chain from the start |
| AStarSearch.ReconstructPath | src/algorithms/a_star.py:59-64 | the reconstructed path runs from start to goal along graph edges with no repeated node, and its cost is finite and at most `g_score[goal]`; it is `[start]` when start is the goal |
| AStarSearch.UnreachableIffTooHeavy | src/algorithms/a_star.py:36-38 | every edge into the goal is infinite iff the goal is a delivery too heavy for the drone |
| AStarSearch.PopKeepsSearch | src/algorithms/a_star.py:57 | removing a non-goal entry from the open list keeps the search invariant |
| AStarSearch.RelaxKeepsSearch | src/algorithms/a_star.py:67-73 | a successful relaxation keeps the search invariant |
| AStarSearch.OpenGrows | src/algorithms/a_star.py:72-73 | after the push the neighbour is open; nodes that were open stay open; every other entry was already there |
| AStarSearch.Relax | src/algorithms/a_star.py:67-73 | if the tentative score beats the recorded one (missing counts as infinite), the g-score becomes predecessor g + edge cost, `came_from` is `current`, and the f-score is set; the neighbour is pushed unless already open; otherwise nothing changes; recorded g-scores only decrease |
| AStarSearch.Expand | src/algorithms/a_star.py:66-73 | relaxing all neighbours keeps the search invariant; scores are only added or lowered; afterwards the goal has a score unless it is unreachable |
| AStarSearch.Finish | src/algorithms/a_star.py:58-64 | popping the goal returns the reconstructed path with `g_score[goal]`, which meets the outcome contract |
| AStarSearch.ExhaustedOutcome | src/algorithms/a_star.py:56-75 | an emptied open list without the goal yields `([], inf)`, lawful only when the goal is unreachable |
| AStarSearch.Initialize | src/algorithms/a_star.py:50-54 | the open list holds the start at priority 0, `came_from` is empty, `g_score` is `{start: 0}`, and the start's f-score is at least the distance to the goal |
| AStarSearch.Step | src/algorithms/a_star.py:57-73 | one pass of the outer loop: popping the goal yields the final outcome; otherwise the search invariant holds again, and the goal has a score unless it is unreachable |
| AStarSearch.SearchLoop | src/algorithms/a_star.py:56-75 | a returned path starts at `start` and ends at `goal` along graph edges without repeats, and has a finite non-negative cost that bounds its edge-cost sum; `([], inf)` exactly when the goal is unreachable; `([s], 0)` when start is goal |
| AStarSearch.FindPath | src/algorithms/a_star.py:48-75 | as `SearchLoop`, stated in terms of `_cost`; unknown start or goal is the error case; no path exactly when the goal is a delivery too heavy for the drone; `find_path(s, s)` returns `([s], 0)` |
| ConstraintSearch.FirstAdmissible | src/algorithms/csp.py:46-47 | finds a point iff some point is admissible for the drone, and returns the first admissible one in list order |
| ConstraintSearch.FirstAdmissibleAt | src/algorithms/csp.py:46-47 | the first admissible point is the one at the index where the scan stops |
| ConstraintSearch.AddKeepsInjective | src/algorithms/csp.py:33-35 | adding an unused point id keeps the assignment injective |
| ConstraintSearch.GreedySound | src/algorithms/csp.py:39-55 | every assigned pair fits weight, battery (`distance * 10 <= battery`) and the inclusive time window, and no point is assigned twice |
| ConstraintSearch.GreedyFrame | src/algorithms/csp.py:39-55 | the search never touches the entries of drones it has not reached |
| ConstraintSearch.GreedyMaximal | src/algorithms/csp.py:44-55 | an unassigned drone has no fitting point left: every point that fits it is assigned to another drone |
| ConstraintSearch.NoFitMeansUnassigned | src/algorithms/csp.py:46-55 | a drone that no point fits is absent from the map |
| ConstraintSearch.GreedyDecide | src/algorithms/csp.py:46-55 | the same, for the search started at any later drone |
| ConstraintSearch.CSP.constructor | src/algorithms/csp.py:7-11 | stores the drones and points and starts with no assignments |
| ConstraintSearch.CSP.IsValidAssignment | src/algorithms/csp.py:13-37 | true iff the weight, battery and inclusive time-window checks pass and the point is not already assigned |
| ConstraintSearch.CSP.Backtrack | src/algorithms/csp.py:39-55 | leaves `assignments` equal to the first-fit assignment of the remaining drones, extending the old map, and always returns that map |
| ConstraintSearch.CSP.Solve | src/algorithms/csp.py:57-60 | clears prior assignments and always returns the first-fit map, never `None` |
| ConstraintSearch.SolveCorrect | src/algorithms/csp.py:13-60 | the map `solve` returns is sound (weight, battery, window) and injective; with distinct drone ids, a drone left out has no fitting point left |
| ExtReals.LessIsStrictTotalOrder | src/algorithms/genetic_algorithm.py:236 | the comparison on fitness values, `-inf` and `inf` included, is a strict total order |
| Genetic.Choice | src/algorithms/genetic_algorithm.py:183 | `random.choice` returns an element of its list |
| Genetic.FlattenMembers | src/algorithms/genetic_algorithm.py:21-26 | the concatenated deliveries are exactly the ids some single-parcel route carries |
| Genetic.FlattenDistinct | src/algorithms/genetic_algorithm.py:29-30 | for single-parcel routes, the concatenation has no repeat iff no two routes carry the same id |
| Genetic.HeadsDistinctSnoc | src/algorithms/genetic_algorithm.py:29-30 | appending a route keeps ids distinct iff its id is carried by no earlier route |
| Genetic.ElementsCard | src/algorithms/genetic_algorithm.py:29-30 | a list's set has at most its length, with equality iff the list has no repeats (the `len(all) != len(set(all))` test) |
| Genetic.RepeatedEmpty | src/algorithms/genetic_algorithm.py:31 | the set of ids that occur more than once is empty iff the list has no repeats |
| Genetic.DistinctCount | src/algorithms/genetic_algorithm.py:31 | in a list without repeats every id occurs at most once |
| Genetic.CarriedMembers | src/algorithms/genetic_algorithm.py:46-52 | the used-delivery set is exactly the ids some route carries at its head |
| Genetic.KeepFirst | src/algorithms/genetic_algorithm.py:45-55 | the first pass of repair keeps route count, leaves at most one id per route and no repeats, keeps route `i`'s head iff no earlier route carries it, and uses exactly the ids that the heads of the input carry |
| Genetic.FirstEmpty | src/algorithms/genetic_algorithm.py:63-67 | finds the first empty route, or reports that none is empty |
| Genetic.KeepFirstLoop | src/algorithms/genetic_algorithm.py:45-55 | the loop computes `KeepFirst` and its used-delivery set |
| Genetic.DeliveredIsBusy | src/algorithms/genetic_algorithm.py:117 | for single-parcel routes, the delivery count is the number of non-empty routes |
| Genetic.EnergyNonNegative | src/algorithms/genetic_algorithm.py:138-142 | the total energy is non-negative for positive speeds |
| Genetic.FitnessMeaning | src/algorithms/genetic_algorithm.py:108-158 | fitness is `-inf` exactly when validation fails; otherwise it is 50 × non-empty routes − 0.1 × energy − 1000 × violations, and at most 50 × non-empty routes |
| Genetic.Crossover | src/algorithms/genetic_algorithm.py:160-174 | the child has at most one id, taken from the head of a parent (the first one below roll 0.5, else the second), and is empty only if both parents are |
| Genetic.Others | src/algorithms/genetic_algorithm.py:181 | the ids of the list other than the current one |
| Genetic.Unused | src/algorithms/genetic_algorithm.py:205 | the ids of the list not yet used |
| Genetic.KnownIdFound | src/algorithms/genetic_algorithm.py:211 | an id from `valid_dp_ids` always has its delivery point, so the lookup cannot fail |
| Genetic.Individuals | src/algorithms/genetic_algorithm.py:240 | the chromosomes of a scored list, in order |
| Genetic.InsertByFitnessPerm | src/algorithms/genetic_algorithm.py:236 | inserting keeps every element: the result is the list plus the new one, as multisets |
| Genetic.InsertByFitnessOrder | src/algorithms/genetic_algorithm.py:236 | insertion keeps the list sorted by fitness, highest first |
| Genetic.SortByFitnessCorrect | src/algorithms/genetic_algorithm.py:236 | `sorted(..., key=_fitness, reverse=True)` is a permutation of its input and is non-increasing in fitness |
| Genetic.HeadIsFittest | src/algorithms/genetic_algorithm.py:271 | the head of a sorted list is at least as fit as every member |
| Genetic.Tournament | src/algorithms/genetic_algorithm.py:279 | `max(tournament, key=_fitness)`: the winner is at least as fit as every entry, and strictly fitter than every earlier one (the first maximum) |
| Genetic.SampleIndices | src/algorithms/genetic_algorithm.py:278 | `random.sample` yields `m` distinct indices in range |
| Genetic.GeneticAlgorithm.constructor | src/algorithms/genetic_algorithm.py:8-14 | stores drones, points and graph (population size 200, 100 generations, `valid_dp_ids` from the points) |
| Genetic.GeneticAlgorithm.ValidateChromosome | src/algorithms/genetic_algorithm.py:16-40 | valid iff every route has length ≤ 1, no id repeats and every id is known; otherwise reports the first overloaded drone, else the repeated ids, else the unknown ids |
| Genetic.GeneticAlgorithm.RepairChromosome | src/algorithms/genetic_algorithm.py:42-77 | keeps the route count; every route has length ≤ 1; no id repeats; each route is either its first-pass value or an empty route filled with a known, unused id that fits that drone's `max_weight`; the first empty route of the first pass is filled whenever some known id it left unassigned fits that route's drone; with known ids, the result is valid |
| Genetic.GeneticAlgorithm.FindBestDroneForDelivery | src/algorithms/genetic_algorithm.py:79-106 | None for an unknown id or when no empty drone fits the weight; otherwise an empty, capacity-fitting drone of minimal distance, the lowest such index on ties |
| Genetic.GeneticAlgorithm.RouteTerms | src/algorithms/genetic_algorithm.py:121-154 | one pass of the fitness loop yields the route's energy and violation terms |
| Genetic.GeneticAlgorithm.Fitness | src/algorithms/genetic_algorithm.py:108-158 | the loop computes the fitness whose meaning `FitnessMeaning` states |
| Genetic.GeneticAlgorithm.Mutate | src/algorithms/genetic_algorithm.py:176-193 | the result has length ≤ 1; a non-empty route keeps its id or gets a known one; an id inserted into an empty route is known; the only failure is `random.choice` on an empty id list |
| Genetic.GeneticAlgorithm.SuitableDps | src/algorithms/genetic_algorithm.py:209-213 | exactly the available ids whose point fits the drone's capacity |
| Genetic.GeneticAlgorithm.InitialIndividual | src/algorithms/genetic_algorithm.py:200-224 | one route per drone, each of length ≤ 1, no repeated id, every id known and within its drone's capacity |
| Genetic.GeneticAlgorithm.HealthyDefined | src/algorithms/genetic_algorithm.py:130-142 | a valid chromosome with one route per drone never hits a missing drone, a missing point or a zero speed |
| Genetic.GeneticAlgorithm.ScoreAll | src/algorithms/genetic_algorithm.py:236 | each individual paired with its fitness, in order |
| Genetic.GeneticAlgorithm.Score | src/algorithms/genetic_algorithm.py:236 | the loop scores every individual |
| Genetic.GeneticAlgorithm.TournamentSelection | src/algorithms/genetic_algorithm.py:276-279 | samples `min(size, len)` distinct entries and returns the first fittest of them, a member of the population |
| Genetic.GeneticAlgorithm.Breed | src/algorithms/genetic_algorithm.py:249-253 | the child has one route per zipped pair (the shorter parent's length), each of length ≤ 1, and carries only known ids when both parents do |
| Genetic.GeneticAlgorithm.Offspring | src/algorithms/genetic_algorithm.py:244-258 | the validated or repaired child has one route per drone and is valid |
| Genetic.GeneticAlgorithm.SortedScores | src/algorithms/genetic_algorithm.py:236 | the population sorted by fitness has at its head an individual at least as fit as every member |
| Genetic.GeneticAlgorithm.PrefixWellScored | src/algorithms/genetic_algorithm.py:240 | a prefix of a correctly scored list is correctly scored |
| Genetic.GeneticAlgorithm.IndividualsHealthy | src/algorithms/genetic_algorithm.py:240 | the individuals of a correctly scored list are valid |
| Genetic.GeneticAlgorithm.Generation | src/algorithms/genetic_algorithm.py:236-262 | yields exactly `population_size` valid individuals, led by the `population_size // 4` fittest of the previous generation in sorted order; the first is as fit as any previous individual |
| Genetic.GeneticAlgorithm.Run | src/algorithms/genetic_algorithm.py:230-274 | returns a valid individual with one route per drone, together with its own finite fitness; it is the head of the final population (of `population_size` valid individuals) sorted by fitness, and at least as fit as every member of that population |
| Genetic.GeneticAlgorithm.AppendKeepsLoadable | src/algorithms/genetic_algorithm.py:215-224 | appending an empty route or an unused, known, fitting id keeps the individual valid and within capacity |
| Genetic.GeneticAlgorithm.InitialPopulation | src/algorithms/genetic_algorithm.py:195-228 | `population_size` individuals, each with one route per drone, valid and within every drone's capacity |

## Left out

- Floating point: `**0.5` is the abstract `Metric`, reals are exact, and `inf`/`-inf` are the `ExtReal` sentinels.
- Node names are a datatype. The `"drone_"`/`"dp_"` parse is not modelled, and a node name that is neither is not representable.
- Iteration order is not modelled:
  - `get_neighbors` yields a set, and the neighbour loop is proved for every visiting order;
  - the repair loop over a Python `set` is likewise proved for every order.
- The heap is a list. `heappop` takes an entry that no other entry precedes in (priority, name) order, which is what the heap yields; its tree layout is not modelled.
- Entries with stale priorities stay in the list, as in the source, so no optimality claim is made about `find_path`.
- AStarSearch.SearchLoop, AStarSearch.FindPath: the search loop is bounded by a `fuel` count, returning `OutOfFuel` when the count runs out. The source loops until the open list empties, and its termination is not proved.
- AStarSearch.FindPath: requires non-negative delivery weights and priorities of at most 6. With a negative edge cost, `came_from` can form a cycle and the source's reconstruction loop can fail to terminate.
- The `drone` parameter of `_heuristic` is unused in the source, and is modelled but unused.
- Drone `current_load` and `current_battery` are never read by the core and are not modelled.
- CSP times are integer minutes. The source compares zero-padded `"HH:MM"` strings, whose order matches minute order.
- The CSP's `graph` field is never read and is not modelled.
- `run`'s `current_time` parameter is never read and is not modelled.
- The message strings of `validate_chromosome` are replaced by the `Verdict` datatype, which carries the drone index, count or id set that the message prints.
- Random distributions are not modelled; every property holds for every `Rng` stream:
  - `random.random` and `random.choice` are draws from the `Rng`;
  - `random.sample` is modelled as drawing from a shrinking pool of indices.
- Genetic.GeneticAlgorithm.Mutate: modelled on values. The source mutates `route` in place, and the caller's list is not aliased anywhere else afterwards.
- Fitness is computed once per individual in `Score` and reused by the sort and the tournaments. The source recomputes it on every sort and every tournament, always with the same value.
- Genetic.SortByFitness: is stated as a permutation sorted by non-increasing fitness. The stability of Python's `sorted` is not stated.
- Genetic.GeneticAlgorithm.RepairChromosome: requires at most one route per drone, which is stronger than the source needs. The source's `self.drones[empty_drone_idx]` raises `IndexError` only when the first empty route lies at or beyond the last drone while an unassigned id is being placed. Its only caller, `run`, passes a child built by `zip` of two parents, so it has exactly one route per drone.
- Genetic.GeneticAlgorithm.FindBestDroneForDelivery: requires at least as many routes as drones when the id is known. With fewer routes, `current_chromosome[i]` at line 91 raises `IndexError`, and the model does not reproduce that error. Nothing in the source calls this method.
- Genetic.GeneticAlgorithm.Generation: requires every drone's speed to be non-zero. This is stronger than the source needs: `_fitness` raises `ZeroDivisionError` only when a zero-speed drone actually carries a known delivery.
- Genetic.GeneticAlgorithm.Run: requires non-zero speeds, for the same reason and with the same over-approximation.
- Genetic.GeneticAlgorithm.Fitness: requires, for a valid chromosome, a drone for every single-parcel route and a non-zero speed wherever its delivery is found. Otherwise the source raises `IndexError` or `ZeroDivisionError`.
- The progress `print` in `run` is not modelled.
- `src/utils/visualization.py`, `src/utils/data_generator.py` and `main.py` are not part of this model.
