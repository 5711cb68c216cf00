# Exact TSP solvers: tour length, brute force and Held-Karp

`solve_tsp.py` has three exact routines for the Traveling Salesman Problem over an
n-by-n distance matrix:

- `compute_permutation_distance` gives the length of a closed tour.
- `solve_tsp_brute_force` fixes node 0 first and tries every ordering of nodes
  1..n-1 in `itertools.permutations` order. It keeps the first strictly cheaper tour.
- `solve_tsp_dynamic_programming` is the Held-Karp algorithm:
  - The memoised recurrence `dist(ni, N)` gives the cheapest way to leave `ni`,
    visit every node of `N` once and return to 0. Each call records its minimising
    next hop in the `memo` dictionary.
  - A `while N:` loop then replays `memo` from `(0, {1..n-1})` to build the tour.

This project models all three in Dafny and proves their promises. The modules follow
the program's structure:

- `Tours`: the matrix, tours and their lengths (`TourCost` is
  `compute_permutation_distance`), and the open-path cost `PathCost` that Held-Karp
  minimises.
- `Perms`: the orderings of a sequence, in the order `itertools.permutations` yields
  them.
- `FirstMin`: Python's `min(xs, key=...)`, which returns the first minimal element.
  The brute force's strict `<` scan computes the same thing.
- `BruteForce`: `Candidates`, the list of (tour, length) pairs the solver evaluates,
  and the method `SolveBruteForce`, with its loop.
- `HeldKarp`: the recurrence as functions (`Dist`, `Costs`, `Step`, `NextHop`,
  `OptimalPath`) and their optimality proofs.
  - The class `Solver` holds the `memo` table and the cost cache that `lru_cache`
    keeps for `dist`.
  - The memoised `dist` is the method `Solver.DistMemo`. It calls `Solver.EvalCosts`
    (the `costs` loop) and `Solver.Record` (the `min` and the `memo` write).
  - `ReplayMemo` is the reconstruction loop, and `SolveDynamicProgramming` is the
    whole routine.
- `Scenarios`: worked instances with one, two and four cities.

Modelling choices:

- Weights are unbounded integers. The matrix is `seq<seq<int>>`.
- A remaining set `N` is a `set<nat>`.
- Python iterates a `frozenset` in an order that depends on hashing. The model fixes
  ascending node id (`HeldKarp.Ascending`). The tie-break therefore picks the smallest
  node id among the minimal terms. The order matters only for which optimal tour is
  returned, never for its cost.

## Model

| member | source | states |
|---|---|---|
| Tours.Range | solve_tsp.py:21 | `range(lo, hi)`: hi - lo nodes (none when hi <= lo), the k-th of them lo + k |
| Tours.RangeSet | solve_tsp.py:43 | `frozenset(range(lo, hi))`: the set of the nodes of Range(lo, hi); RangeMultiset states that each occurs once in Range(lo, hi) |
| Tours.RangeMultiset | solve_tsp.py:21-43 | range(lo, hi) lists every node of frozenset(range(lo, hi)) exactly once, so the brute force's orderings and the DP's set cover the same nodes |
| Tours.Rotated | solve_tsp.py:12 | `permutation[1:] + permutation[:1]`: the same length n as p, with position k holding p[(k + 1) mod n], the empty list for an empty p |
| Tours.EdgeSum | solve_tsp.py:13 | `distance_matrix[ind1, ind2].sum()`: the sum of d[a[k]][b[k]] over the paired positions, 0 for empty lists; EdgeSumSuffix and EdgeSumIsPathCost state its closed forms |
| Tours.EdgeSumSuffix | solve_tsp.py:11-13 | summing the paired entries of p and its rotation from position i on gives the cyclic edge sum from position i, including the closing edge |
| Tours.EdgeSumIsPathCost | solve_tsp.py:11-13 | the paired sum of [from] + q and q + [0] is the cost of leaving from, visiting q in order and returning to 0 |
| Tours.TourCost | solve_tsp.py:8-13 | compute_permutation_distance: the sum of d[p[k]][r[k]] over the positions of p, where r is p rotated left by one (`permutation[1:] + permutation[:1]`); its closed form is stated by TourCostIsCycleSum |
| Tours.TourCostIsCycleSum | solve_tsp.py:8-13 | the length of p is the sum of d[p[i]][p[(i+1) mod n]] over all i, including the closing edge back to the first node; for p = [0] it is d[0][0] |
| Tours.TourCostFromOrigin | solve_tsp.py:11-13 | the length of the tour [0] + q is the cost of leaving 0, visiting q in order and returning to 0 |
| Tours.TourIsOriginPlusAnagram | solve_tsp.py:21-27 | [0] + q is a permutation of range(0, n) starting at 0 exactly when q is a permutation of range(1, n) (both directions) |
| Perms.Permutations | solve_tsp.py:25 | itertools.permutations: for each position of the leading element in turn, that element followed by every ordering of the rest; at least one ordering, the empty one when s is empty |
| Perms.PermutationsAreAnagrams | solve_tsp.py:25 | every ordering the enumeration yields is a rearrangement of its input |
| Perms.PermutationsComplete | solve_tsp.py:25 | every rearrangement of the input is yielded |
| Perms.PermutationsCount | solve_tsp.py:25 | the enumeration yields exactly |s|! orderings |
| FirstMin.FirstMinIndex | solve_tsp.py:31-33 | the chosen position holds a minimal key, and every earlier key is strictly larger, so the first minimum wins ties |
| FirstMin.MinByCost | solve_tsp.py:66 | `min(costs, key=lambda x: x[1])`: a pair of xs whose key is no larger than any key of xs (the first such, by FirstMinIndex) |
| FirstMin.FirstMinIndexExtend | solve_tsp.py:31-33 | scanning one more pair switches to it exactly when its key is strictly below the current best (the `distance < best_distance` step) |
| BruteForce.Orderings | solve_tsp.py:21-25 | `permutations(range(1, n))`: the itertools orderings of 1..n-1, at least one (the empty ordering when n <= 1) |
| BruteForce.Candidates | solve_tsp.py:25-28 | one pair per ordering of 1..n-1, in enumeration order: the tour [0] + ordering and its length; there is at least one, also for n = 1 |
| BruteForce.CandidatesAreTours | solve_tsp.py:21-27 | every evaluated candidate is a permutation of range(0, n) beginning with 0 |
| BruteForce.EveryTourIsCandidate | solve_tsp.py:21-27 | every permutation of range(0, n) beginning with 0 is one of the candidates |
| BruteForce.BestCandidateIsOptimal | solve_tsp.py:25-35 | the first cheapest candidate is a tour, its cost is its length, and no tour is shorter |
| BruteForce.SolveBruteForce | solve_tsp.py:16-35 | the loop returns the first cheapest candidate; it is a tour whose length is the returned cost, and no tour is shorter |
| HeldKarp.AllButOrigin | solve_tsp.py:43 | `frozenset(range(1, shape[0]))`: the nodes 1..n-1 still to visit at the start; FourCitiesStart evaluates it for n = 4 |
| HeldKarp.Step | solve_tsp.py:62 | `distance_matrix[ni, nj] + dist(nj, N.difference({nj}))`: the cost term of going to nj first; DistRecurrence, DistByWitness and NextHopByWitness state which term dist takes |
| HeldKarp.Ascending | solve_tsp.py:61 | the nodes of N below k, each exactly once, in strictly ascending order |
| HeldKarp.Dist | solve_tsp.py:52-73 | dist(ni, N): d[ni][0] when N is empty, otherwise the first minimal cost of the costs list; its contract is DistRecurrence, DistIsLowerBound and OptimalPathAttainsDist |
| HeldKarp.Costs | solve_tsp.py:59-63 | the costs list: one (nj, d[ni][nj] + dist(nj, N - {nj})) pair per node of N in ascending order, non-empty when N is |
| HeldKarp.NextHop | solve_tsp.py:66-70 | the recorded next hop is a node of N |
| HeldKarp.DistRecurrence | solve_tsp.py:55-73 | dist(ni, {}) = d[ni][0]; otherwise dist equals the term of the recorded next hop, no term is smaller, and every smaller node id has a strictly larger term |
| HeldKarp.DistByWitness | solve_tsp.py:59-66 | a term attained by some node of N and undercut by none is dist(ni, N) |
| HeldKarp.NextHopByWitness | solve_tsp.py:66-70 | the recorded next hop is the smallest node whose term attains the minimum |
| HeldKarp.OptimalPath | solve_tsp.py:79-87 | the replay of the recurrence's next hops from (ni, N): one node per element of N |
| HeldKarp.OptimalPathIsOrdering | solve_tsp.py:79-87 | replaying the next hops from (ni, N) visits exactly the nodes of N, once each |
| HeldKarp.OptimalPathAttainsDist | solve_tsp.py:76-87 | the replayed path from (ni, N) costs exactly dist(ni, N) |
| HeldKarp.DistIsLowerBound | solve_tsp.py:51-73 | no ordering of N is cheaper from ni than dist(ni, N) |
| HeldKarp.HeldKarpIsOptimal | solve_tsp.py:76-90 | [0] + the replayed path is a tour, its length is dist(0, {1..n-1}), and no tour is shorter |
| HeldKarp.HeldKarpMatchesBruteForce | solve_tsp.py:35 | dist(0, {1..n-1}) equals the cost the brute force returns on the same matrix |
| HeldKarp.OptimumMonotone | solve_tsp.py:51-76 | raising matrix entries never lowers dist(0, {1..n-1}) |
| HeldKarp.MemoRecord | solve_tsp.py:70 | writing the argmin of a state whose successor state is recorded keeps every memo entry the recurrence's argmin, with its successor state recorded |
| HeldKarp.SuccessorsRecordedExtend | solve_tsp.py:61-63 | each recursive dist call of the costs loop adds its successor state and keeps the earlier entries |
| HeldKarp.Replay | solve_tsp.py:79-87 | the nodes the reconstruction loop appends when it looks up memo from (ni, N): at most one per element of N, each a node of N, stopping at a missing key or at a hop outside N (neither occurs under MemoClosed) |
| HeldKarp.ReplayIsOptimalPath | solve_tsp.py:79-87 | replaying a valid memo from (ni, N) yields exactly the optimal path of the recurrence |
| HeldKarp.Solver.constructor | solve_tsp.py:48 | a fresh solver starts with `memo = {}` and an empty cache, which is a valid state |
| HeldKarp.Solver.DistMemo | solve_tsp.py:51-73 | the memoised dist returns dist(ni, N), records (ni, N) in memo when N is non-empty and in the cache, keeps every memo entry the recurrence's argmin, never drops an entry, and adds only states (nj, S) with S a subset of N |
| HeldKarp.Solver.EvalCosts | solve_tsp.py:59-63 | the costs list is one (nj, d[ni][nj] + dist(nj, N - {nj})) pair per node of N in iteration order; every successor state is recorded afterwards, and every state added has a proper subset of N, so (ni, N) itself is not yet written |
| HeldKarp.Solver.Record | solve_tsp.py:66-73 | for a state not yet in memo or the cache, memo becomes the old memo plus (ni, N) mapped to the recurrence's argmin, the cache gains (ni, N), and the returned value is dist(ni, N): each key is written once |
| HeldKarp.ReplayMemo | solve_tsp.py:79-87 | every lookup finds its key, the result is [0] followed by the replay of memo, and the loop appends exactly one node per element of the initial N |
| HeldKarp.SolveDynamicProgramming | solve_tsp.py:38-90 | the returned cost is dist(0, {1..n-1}), the tour is [0] + the replayed path, it is a tour whose length is the cost, and no tour is shorter |
| Scenarios.DistSingle | solve_tsp.py:55-73 | from {k} the only move is to k and then home: dist = d[i][k] + d[k][0], next hop k |
| Scenarios.PathSingle | solve_tsp.py:79-87 | from {k} the replay visits k |
| Scenarios.DistPair | solve_tsp.py:59-70 | from {j, k}, j < k, dist is the cheaper of the two orders, and the next hop is k only when going via k is strictly cheaper |
| Scenarios.PathPair | solve_tsp.py:79-87 | from {j, k}, j < k, the replay visits the cheaper order, j first on a tie |
| Scenarios.FirstOfThree | solve_tsp.py:59-70 | from {a, b, c}, a < b < c, if going to a first is no worse than b or c, dist is that cost and the next hop is a |
| Scenarios.PathOfThree | solve_tsp.py:79-87 | from {a, b, c}, with next hop a and the order c, b strictly cheaper from a, the replay visits a, c, b |
| Scenarios.OneCity | solve_tsp.py:21-27 | with n = 1 both solvers give the tour [0] of length d[0][0]; brute force has the single candidate ([0], d[0][0]) |
| Scenarios.TwoCitiesTour | solve_tsp.py:76-90 | for two cities 5 apart, Held-Karp gives the tour [0, 1] of length 10 |
| Scenarios.FourCitiesOptimum | solve_tsp.py:76 | on the four-city matrix dist(0, {1, 2, 3}) = 80, with next hop 1; going to node 2 first also costs 80, so the tie goes to the smaller id |
| Scenarios.FourCitiesPath | solve_tsp.py:79-90 | on the four-city matrix the replay gives the tour [0, 1, 3, 2] |
| Scenarios.FourCitiesStart | solve_tsp.py:43 | frozenset(range(1, 4)) is {1, 2, 3} |
| Scenarios.FourCitiesBruteForce | solve_tsp.py:35 | on the four-city matrix the brute force's cost is 80 as well |

## Left out

- NumPy fancy indexing and `.sum()` in `compute_permutation_distance`. The model uses an explicit recursive sum over `seq<seq<int>>`.
- Floating-point weights and the `np.inf` sentinel. Weights are unbounded integers. The sentinel is an `Option` that is `None` before the first candidate. With integer costs every candidate beats the sentinel, so a tour is always found.
- HeldKarp.HeldKarpMatchesBruteForce: the exact equality holds for integer weights only. NumPy's `.sum()` (solve_tsp.py:13) and the nested `d[ni, nj] + dist(...)` of the recurrence (solve_tsp.py:62) add the same edges in different orders, so with float weights the two costs can differ by rounding.
- For n = 1 both routines return `([0], d[0][0])`: `permutations(range(1, 1))` yields one empty ordering, and `dist(0, {})` is `d[0][0]` (`Scenarios.OneCity`).
- Matrices that are not square with at least one row. Both routines take n from `shape[0]` (solve_tsp.py:21, 43). An empty matrix or one with fewer columns than rows makes Python fail with an indexing error. A matrix with more columns than rows is accepted, and its extra columns are silently never read. The model requires a square matrix with at least one row, so none of these inputs is modelled.
- `functools.lru_cache` itself and the unused `maxsize` parameter. The cache is an explicit map in `Solver`, written once per key.
- Python's hash-dependent `frozenset` iteration order. The model iterates in ascending node id. On ties a different order can return a different optimal tour with the same cost.
- `itertools.permutations` internals. The enumeration is a recursive generator that yields the same orderings in the same order.
- Tours.TourCost: node ids must be below n (`NodesIn(p, |d|)`) and non-negative (`seq<nat>`). Python raises IndexError for an id of n or more, and NumPy reads a negative id from the end of the row. Neither input is modelled; both solvers only pass ids in range(0, n).
- Running time and memory (the (n-1)! and 2^n bounds), and Python's recursion depth. These are not stated.
- The bitmask redesign of the remaining set is not modelled; sets are `set<nat>`.
