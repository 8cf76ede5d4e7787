# Verified model of the Cacahuetes symmetric-TSP solvers

The repository is a set of solvers for the symmetric Travelling Salesman
Problem. This project models their core in Dafny and proves what each part
promises:

- **Exact solver.** This is best-first branch and bound with an admissible
  lower bound. The model proves that the bound never overestimates, that the
  search terminates, and that the returned tour is optimal.
- **Tour constructors.** These are nearest neighbour, farthest insertion
  (over a matrix and over cities), GRASP's restricted candidate list with its
  linear-rank biased draw, and the ant of the ant colony system. Each one is
  stated as its greedy rule, and each is proved to build a permutation.
- **Permutation operators.** These are segment reversal, cut-and-fill
  crossover, inversion mutation, k-swap perturbation, double bridge and
  tournament selection. The model proves they keep length and multiset, what
  each one keeps in place, and their tie rules.
- **Local-search and metaheuristic loops.**
  - 2-opt: the move delta equals the true change in cost, and the search ends
    at a 2-opt local optimum.
  - Simulated annealing and tabu search: the move, delta and best-so-far
    bookkeeping. For tabu search, also the tabu and aspiration test and the
    symmetric tabu-matrix update.
  - Iterated local search: the acceptance rule.
  - The genetic algorithm: its initial population, (mu+lambda) survivor
    selection, best tracking and stopping reason.

**Distances.** The exact solver and the Corte_1 heuristics read a square
`nat` matrix, because TSPLIB EUC_2D distances are rounded to integers. The
Corte_2 solvers use an abstract city distance `d: (City, City) -> nat`. An
operation whose cost bookkeeping needs symmetric distances requires
`Symmetric(d)`.

**Randomness.** Every `rand` draw is read from an explicit stream
`Random.Source`, addressed by a counter that the caller threads through.

**Sentinels.** The "nothing yet" sentinels `+Inf`, `math.MaxFloat64` and
`1e18` become `Option` values.

Imperative code stays imperative:

- loops become `while` or `for` loops with invariants, proved against
  specification functions;
- the in-place reversals and swaps work on `array`s;
- the ant and the priority queue are classes.

Within the exact solver, the priority queue's `Len` and `Less` are modelled
as `Frontier.PriorityQueue.Len` and `Frontier.PriorityQueue.Less`. They are
plain accessors with no contract of their own, and `HeapPop` is stated in
terms of what they compare.

## Model

| member | source | states |
|---|---|---|
| Tours.EdgeSymmetric | Corte_1/Heuristica/tsp/tsplib.go:158-165 | a matrix written with both halves equal gives a symmetric edge function |
| Tours.CycleCostRotate | Corte_1/Heuristica/tsp/instance.go:14-18 | rotating a tour does not change its closed length |
| Tours.PathCostAppend | Corte_1/Heuristica/tsp/instance.go:14-18 | the path cost of a concatenation is the two path costs plus the joining edge |
| Tours.PathCostReverse | Corte_2/Algoritmo_Genetico/utils/utils.go:9-11 | with a symmetric distance, a reversed path costs the same |
| Tours.ReverseSegmentAt | Corte_2/Recocido_Simulado/simulatedannealing/sa.go:101-107 | reversing i..j puts s[i+j-k] at each k in [i, j] and leaves every other position unchanged |
| Tours.InvertSegment | Corte_2/Tabu/utils.go:7-13 | the in-place two-pointer loop leaves the array equal to the segment reversal of its old contents; it does nothing when i >= j |
| Tours.ReverseSegmentMultiset | Corte_2/Recocido_Simulado/localsearch/two_opt.go:39-45 | a reversal keeps the length and the multiset of cities |
| Tours.ReverseSegmentTwice | Corte_2/Tabu/utils.go:7-13 | reversing the same segment twice restores the tour |
| Tours.TwoOptDeltaCorrect | Corte_2/Recocido_Simulado/simulatedannealing/sa.go:56-65 | with a symmetric distance, the four-edge delta equals the change in closed cost of the reversal, including the wrap-around cases i = 0 and j = n-1; the whole-tour reversal is excluded |
| Instances.TourLength | Corte_1/Heuristica/tsp/instance.go:11-20 | the loop's total is the closed cycle cost, including the edge back to the first city |
| Instances.ShortTours | Corte_1/Heuristica/tsp/instance.go:12-18 | the empty tour has length 0 and a one-city tour [c] has length Distance[c][c] |
| Cities.CalcularCostoTotal | Corte_2/Algoritmo_Genetico/utils/utils.go:14-21 | for a non-empty tour, the consecutive edges plus the closing edge are the cycle cost |
| Cities.CopiarTour | Corte_2/Algoritmo_Genetico/utils/utils.go:24-28 | the copy is a fresh array with the same elements |
| Cities.CitiesOf | Corte_2/Algoritmo_Genetico/geneticalgorithm/ga.go:217-220 | position k of the city tour is the city at index tour[k] |
| Cities.CycleCostCities | Corte_2/Algoritmo_Genetico/geneticalgorithm/ga.go:26-34 | the index tour's cost over the cities equals the cost of the city tour it names |
| Cities.CitiesOfPermutation | Corte_2/Algoritmo_Genetico/geneticalgorithm/ga.go:216-220 | a permutation of the indices names every city and nothing else |
| Perms.Pigeonhole | Corte_1/Heuristica/tsp/insertion.go:39-92 | n distinct values below n form a permutation of 0..n-1 |
| Perms.PermutationFacts | Corte_1/Heuristica/tsp/neighbor.go:9-30 | a permutation of 0..n-1 has length n, is distinct and holds exactly the values below n |
| Perms.MissingCity | Corte_1/Heuristica/tsp/neighbor.go:16-25 | fewer than n distinct values below n leave some city below n out |
| Random.Intn | Corte_2/Recocido_Simulado/simulatedannealing/sa.go:39-40 | a draw `rand.Intn(k)` lies below k |
| Random.Exchange | Corte_2/Algoritmo_Genetico/geneticalgorithm/ga.go:62 | the in-place swap leaves the array equal to the swapped sequence |
| Random.SwapAtMultiset | Corte_2/Algoritmo_Genetico/geneticalgorithm/ga.go:62 | a swap keeps the multiset |
| Random.FisherYatesMultiset | Corte_2/Tabu/tabu.go:15-17 | every step of the Fisher-Yates shuffle keeps the multiset |
| Random.Shuffle | Corte_2/Tabu/tabu.go:15-17 | `rand.Shuffle` with the exchange callback leaves the array equal to the shuffle of its old contents and reads n-1 draws |
| Random.ShuffledMultiset | Corte_1/Busqueda_Local_Iterada/solver/ils.go:15-18 | a shuffled tour is a rearrangement of the input |
| Sorting.SortBy | Corte_1/Solucion_Exacta/main.go:62 | the sorted sequence is ordered by the key and is a rearrangement of the input |
| Sorting.SumOfPermutation | Corte_2/Algoritmo_Genetico/geneticalgorithm/ga.go:190-198 | rearranging a sequence keeps the sum of a function over it |
| LowerBound.EdgesFrom | Corte_1/Solucion_Exacta/main.go:54-60 | the edge list holds the distances from the city to every other city, in order of the other city |
| LowerBound.EdgeScan | Corte_1/Solucion_Exacta/main.go:54-60 | the loop builds exactly that edge list |
| LowerBound.UnvisitedScan | Corte_1/Solucion_Exacta/main.go:42-48 | the loop builds the ascending list of cities below n that are not visited |
| LowerBound.UnvisitedFacts | Corte_1/Solucion_Exacta/main.go:44-48 | that list holds exactly the unvisited cities below n, in ascending order |
| LowerBound.TwoCheapestSorted | Corte_1/Solucion_Exacta/main.go:62-66 | a city contributes the first two entries of its sorted edge list, or 0 when it has fewer than two |
| LowerBound.TwoCheapestAtMost | Corte_1/Solucion_Exacta/main.go:51-67 | a city's two-cheapest sum is at most its distances to any two other distinct cities |
| LowerBound.TwoCheapestFewCities | Corte_1/Solucion_Exacta/main.go:64-66 | with at most two cities, every city contributes nothing |
| LowerBound.TwoCheapestScan | Corte_1/Solucion_Exacta/main.go:51-67 | the accumulated sum is the two-cheapest sum over the unvisited cities |
| LowerBound.MinScan | Corte_1/Solucion_Exacta/main.go:78-83 | the scan from the sentinel returns the least value over a non-empty list |
| LowerBound.MinOfAttained | Corte_1/Solucion_Exacta/main.go:78-93 | that least value is attained by some element |
| LowerBound.ConnectScan | Corte_1/Solucion_Exacta/main.go:73-95 | the connecting terms are the cheapest edge from the last path city into the unvisited cities plus the cheapest edge from them back to 0, and both vanish when the path or the unvisited list is empty |
| LowerBound.BoundSumParts | Corte_1/Solucion_Exacta/main.go:44-95 | the bound's sum is the two-cheapest sum over unvisited cities plus the connecting terms |
| LowerBound.Bound | Corte_1/Solucion_Exacta/main.go:36-98 | the bound is never below the current cost |
| LowerBound.CalculateLowerBound | Corte_1/Solucion_Exacta/main.go:31-100 | the result is currentCost plus half of that sum, and never below currentCost |
| LowerBound.NeighbourSumDouble | Corte_1/Solucion_Exacta/main.go:97-98 | with a symmetric distance, summing both path neighbours of every inner city counts each inner edge twice |
| LowerBound.InnerTwoCheapest | Corte_1/Solucion_Exacta/main.go:51-67 | the two-cheapest sum over the inner cities of a path of distinct cities is at most the sum of their two path neighbours |
| LowerBound.UnvisitedIsTail | Corte_1/Solucion_Exacta/main.go:44-48 | for a tour from 0 and a prefix of it, the unvisited cities are exactly the tour's remaining cities |
| LowerBound.BoundSumAtMost | Corte_1/Solucion_Exacta/main.go:36-98 | the bound's sum is at most twice the cost of the tour's completion, from the last path city through the rest and back to 0 |
| LowerBound.BoundAdmissible | Corte_1/Solucion_Exacta/main.go:20-36 | with symmetric non-negative distances, the bound of every prefix of a tour from 0 is at most that tour's closed cost |
| Frontier.PriorityQueue.constructor | Corte_1/Solucion_Exacta/main.go:164-165 | a new queue is empty |
| Frontier.PriorityQueue.Swap | Corte_1/Solucion_Exacta/main.go:123 | the items at i and j are exchanged |
| Frontier.PriorityQueue.Push | Corte_1/Solucion_Exacta/main.go:125-128 | one item is appended |
| Frontier.PriorityQueue.Pop | Corte_1/Solucion_Exacta/main.go:130-136 | the last item is removed and returned |
| Frontier.SwapMultiset | Corte_1/Solucion_Exacta/main.go:123 | a swap keeps the multiset of queued items |
| Frontier.HeapPush | Corte_1/Solucion_Exacta/main.go:246-252 | `heap.Push` adds exactly the new item |
| Frontier.HeapPop | Corte_1/Solucion_Exacta/main.go:122 | `heap.Pop` returns a queued item of least lowerBound and removes exactly that one |
| BranchBound.RootValid | Corte_1/Solucion_Exacta/main.go:156-172 | the root node (path [0], visited {0}, cost 0) satisfies the node invariant |
| BranchBound.RootCovers | Corte_1/Solucion_Exacta/main.go:156-172 | with no incumbent, every tour from 0 extends the root's path |
| BranchBound.InitialQueue | Corte_1/Solucion_Exacta/main.go:155-175 | the first queue holds valid nodes that cover every tour from 0 |
| BranchBound.ValidAfterPop | Corte_1/Solucion_Exacta/main.go:188 | removing a node keeps the other nodes valid, and the removed node is valid too |
| BranchBound.CoveredAfterPop | Corte_1/Solucion_Exacta/main.go:188 | after popping, every tour is covered by the rest, by the incumbent, or through the popped node |
| BranchBound.CoveredAfterPrune | Corte_1/Solucion_Exacta/main.go:194-197 | discarding a node whose bound is at least the best cost loses no tour cheaper than the best |
| BranchBound.GoalIsTour | Corte_1/Solucion_Exacta/main.go:200-202 | a node with all n cities holds a tour from 0, and its cost plus the edge back to 0 is that tour's closed cost |
| BranchBound.CoveredAfterGoal | Corte_1/Solucion_Exacta/main.go:200-210 | replacing the incumbent only by a strictly smaller cost keeps every tour covered |
| BranchBound.SkipVisited | Corte_1/Solucion_Exacta/main.go:217-219 | skipping an already-visited city loses no tour |
| BranchBound.SkipCostly | Corte_1/Solucion_Exacta/main.go:222-228 | the early prune, when the accumulated cost already reaches the best, loses no cheaper tour |
| BranchBound.MakeChild | Corte_1/Solucion_Exacta/main.go:231-242 | the child's path is the parent's plus the city, its visited set gains that city, its cost is newActualCost, its lowerBound is the bound computed from that path, visited set and cost, and it is a valid node |
| BranchBound.ChildValid | Corte_1/Solucion_Exacta/main.go:231-242 | such a child satisfies the node invariant |
| BranchBound.BoundIsAdmissible | Corte_1/Solucion_Exacta/main.go:242 | a node whose bound is computed from its own path bounds every tour extending it |
| BranchBound.SkipBounded | Corte_1/Solucion_Exacta/main.go:245-255 | not pushing a child whose bound reaches the best cost loses no cheaper tour |
| BranchBound.CoveredAfterPush | Corte_1/Solucion_Exacta/main.go:245-252 | pushing the child covers the tours through it |
| BranchBound.PushStep | Corte_1/Solucion_Exacta/main.go:245-252 | a push keeps the queue valid and covered, and adds the child's weight to the termination measure |
| BranchBound.GenerateChild | Corte_1/Solucion_Exacta/main.go:217-256 | the queue gains exactly the child for nextCity when that city is unvisited, its accumulated cost is below the best and its bound is below the best, and is unchanged otherwise; the queue stays valid and covered, with the measure growing by at most one child's weight |
| BranchBound.ExpandNode | Corte_1/Solucion_Exacta/main.go:216-257 | the queue becomes the old queue followed by the queued children in city order (QueuedChildren); it stays valid, every tour stays covered, and the children weigh less than the parent, so the measure drops |
| BranchBound.ChildTurn | Corte_1/Solucion_Exacta/main.go:217-256 | one turn of the child loop keeps Expanding: the queue is the old one followed by the children queued for the cities handled so far |
| BranchBound.ExpandDone | Corte_1/Solucion_Exacta/main.go:216-257 | once every city is handled, the pushed children are exactly QueuedChildren, all tours are covered and the measure has dropped |
| BranchBound.QueuedChildrenIff | Corte_1/Solucion_Exacta/main.go:216-256 | a node is among the queued children exactly when it is the child of some city that passes the three tests (unvisited, cost below best, bound below best) |
| BranchBound.KeptIff | Corte_1/Solucion_Exacta/main.go:216-256 | the kept sequence of a filter over 0..k-1 holds exactly the made values of the indices that pass the filter |
| BranchBound.QueuedChildrenStep | Corte_1/Solucion_Exacta/main.go:216-256 | handling one more city appends that city's child exactly when it passes the three tests |
| BranchBound.QueuedChildrenKept | Corte_1/Solucion_Exacta/main.go:216-256 | the queued children are the kept sequence of the child loop's filter and child builder |
| BranchBound.CoveredAfterChildren | Corte_1/Solucion_Exacta/main.go:216-257 | once every next city is handled, all tours through the node are covered |
| BranchBound.SearchStep | Corte_1/Solucion_Exacta/main.go:180-261 | one iteration keeps the node invariant, the incumbent invariant and coverage; the best cost never rises, it changes only to a strictly smaller total (with its path), and the measure strictly decreases, so the loop ends |
| BranchBound.EmptyQueue | Corte_1/Solucion_Exacta/main.go:180-267 | when the queue is empty the incumbent exists and, with a symmetric matrix, costs at most every tour from 0 |
| BranchBound.TSPBranchBoundWithLB | Corte_1/Solucion_Exacta/main.go:147-269 | the result is a tour from 0 priced at its closed cost exactly when n >= 1 (the n = 0 case gives an empty path and no cost); with a symmetric matrix it is optimal over every permutation starting at 0 |
| Neighbor.NearestUpTo | Corte_1/Heuristica/tsp/neighbor.go:17-25 | the inner scan's candidate is -1 or an unvisited city below k |
| Neighbor.NearestUpToSpec | Corte_1/Heuristica/tsp/neighbor.go:17-25 | the scan gives -1 exactly when every city is visited; otherwise it gives an unvisited city at least distance, the lowest-numbered on ties |
| Neighbor.ScanNearest | Corte_1/Heuristica/tsp/neighbor.go:17-25 | the loop over j computes that candidate from the visited flags |
| Neighbor.NNExtend | Corte_1/Heuristica/tsp/neighbor.go:16-30 | from a partial tour, the next city exists, is new, and continues the same nearest-neighbour tour |
| Neighbor.NNBuildFacts | Corte_1/Heuristica/tsp/neighbor.go:16-30 | the completed tour keeps the prefix, is distinct, and each later city obeys the greedy rule |
| Neighbor.NNTourIsGreedy | Corte_1/Heuristica/tsp/neighbor.go:9-30 | the tour from a start is a permutation of 0..n-1 that starts there and obeys the greedy rule at every step |
| Neighbor.GreedyUnique | Corte_1/Heuristica/tsp/neighbor.go:16-29 | the greedy rule with lowest-index ties determines the tour uniquely |
| Neighbor.GreedyAgree | Corte_1/Heuristica/tsp/neighbor.go:16-29 | two tours that obey the greedy rule from the same start agree on each prefix |
| Neighbor.NearestNeighbor | Corte_1/Heuristica/tsp/neighbor.go:7-33 | the method computes that tour and returns its closed length |
| Neighbor.NNLengths | Corte_1/Heuristica/tsp/neighbor.go:40-41 | entry s is the closed length of the tour from start s |
| Neighbor.BestStartUpTo | Corte_1/Heuristica/tsp/neighbor.go:40-46 | the chosen start is -1 exactly when no start has been tried |
| Neighbor.BestStartSpec | Corte_1/Heuristica/tsp/neighbor.go:40-46 | the chosen start has the least length among those tried, and it is the first such start because the comparison is strict |
| Neighbor.ConsiderStart | Corte_1/Heuristica/tsp/neighbor.go:41-45 | a start replaces the best exactly when there is none yet or its length is strictly smaller |
| Neighbor.BestNearestNeighbor | Corte_1/Heuristica/tsp/neighbor.go:36-49 | with no cities, the result is an empty tour and no length (the MaxFloat64 sentinel); otherwise it is the tour and length of the first start of least length |
| Insertion.PairUpTo | Corte_1/Heuristica/tsp/insertion.go:13-22 | the seed pair found so far is None or a pair i < j already scanned |
| Insertion.PairUpToSpec | Corte_1/Heuristica/tsp/insertion.go:13-22 | the seed pair is the first pair in scan order of largest distance |
| Insertion.SeedPair | Corte_1/Heuristica/tsp/insertion.go:13-22 | the nested loops compute that pair |
| Insertion.ThirdUpTo | Corte_1/Heuristica/tsp/insertion.go:25-36 | the third seed is -1 or a city other than the pair |
| Insertion.ThirdUpToSpec | Corte_1/Heuristica/tsp/insertion.go:25-36 | the third seed is the first city other than the pair whose smaller distance to the pair is largest |
| Insertion.SeedThird | Corte_1/Heuristica/tsp/insertion.go:25-36 | the loop computes that city |
| Insertion.SeedTour | Corte_1/Heuristica/tsp/insertion.go:39-43 | the seed triangle has three distinct cities below n |
| Insertion.MinToSpec | Corte_1/Heuristica/tsp/insertion.go:57-62 | the minimum distance to the tour is attained and is at most the distance to each tour city |
| Insertion.MinDistScan | Corte_1/Heuristica/tsp/insertion.go:57-62 | the loop over the tour computes that minimum |
| Insertion.FarthestUpTo | Corte_1/Heuristica/tsp/insertion.go:48-68 | the candidate is -1 or a city not in the tour |
| Insertion.FarthestUpToSpec | Corte_1/Heuristica/tsp/insertion.go:48-68 | the candidate is -1 exactly when every city is in the tour; otherwise it is the first city outside it whose distance to the tour is largest |
| Insertion.FarthestScan | Corte_1/Heuristica/tsp/insertion.go:48-68 | the loop computes that city from the inTour flags |
| Insertion.FarthestExists | Corte_1/Heuristica/tsp/insertion.go:46-68 | while the tour is short, a farthest city exists outside it |
| Insertion.BestPosUpTo | Corte_1/Heuristica/tsp/insertion.go:71-83 | the chosen position is -1 exactly when no position has been tried |
| Insertion.BestPosUpToSpec | Corte_1/Heuristica/tsp/insertion.go:71-83 | the chosen position has the least insertion cost over the cyclic tour edges, the first one on ties |
| Insertion.BestPosScan | Corte_1/Heuristica/tsp/insertion.go:71-83 | the loop computes that position |
| Insertion.InsertAfter | Corte_1/Heuristica/tsp/insertion.go:86-90 | the new tour is one longer and holds the old cities plus the inserted one |
| Insertion.InsertAfterOrder | Corte_1/Heuristica/tsp/insertion.go:86-90 | the city goes right after the position, and removing it gives back the old tour, so the other cities keep their order |
| Insertion.InsertKeeps | Corte_1/Heuristica/tsp/insertion.go:86-91 | inserting a new city keeps the tour distinct and in range |
| Insertion.BuildRound | Corte_1/Heuristica/tsp/insertion.go:46-91 | one round keeps the tour distinct and in range and continues the same construction |
| Insertion.BuildFacts | Corte_1/Heuristica/tsp/insertion.go:46-92 | the rounds end with a permutation of 0..n-1 |
| Insertion.FarthestInsertionIsPermutation | Corte_1/Heuristica/tsp/insertion.go:12-92 | for n >= 3 the construction is a permutation of 0..n-1 |
| Insertion.InsertionRound | Corte_1/Heuristica/tsp/insertion.go:47-91 | one round's scans and splice grow the tour by one new city, update inTour, and continue the construction |
| Insertion.MarkCity | Corte_1/Heuristica/tsp/insertion.go:91 | setting the inserted city's flag keeps inTour[c] true exactly for the tour's cities |
| Insertion.InsertMembers | Corte_1/Heuristica/tsp/insertion.go:86-90 | the splice built with copy is the insertion after the position, holding the old cities and the new one |
| Insertion.InsertionRounds | Corte_1/Heuristica/tsp/insertion.go:13-92 | the seed and the rounds compute the farthest-insertion tour |
| Insertion.FarthestInsertion | Corte_1/Heuristica/tsp/insertion.go:6-95 | for n < 3 the result is (nil, 0); otherwise it is the farthest-insertion tour and its closed length |
| GASeed.DistanceMatrix | Corte_2/Algoritmo_Genetico/geneticalgorithm/heuristic.go:23-33 | the precomputed table is square, of side n |
| GASeed.DistanceMatrixFacts | Corte_2/Algoritmo_Genetico/geneticalgorithm/heuristic.go:23-33 | the table is symmetric, zero on the diagonal, and holds d(cities[i], cities[j]) above it |
| GASeed.BuildDistanceMatrix | Corte_2/Algoritmo_Genetico/geneticalgorithm/heuristic.go:23-33 | the nested loops fill exactly that table |
| GASeed.HeuristicTourIsPermutation | Corte_2/Algoritmo_Genetico/geneticalgorithm/heuristic.go:13-114 | the seed is a permutation for every input: the identity below three cities, farthest insertion otherwise |
| GASeed.FarthestInsertionCities | Corte_2/Algoritmo_Genetico/geneticalgorithm/heuristic.go:12-115 | the function computes that seed tour, a permutation of the city indices |
| Crossover.FillGrows | Corte_2/Algoritmo_Genetico/geneticalgorithm/crossover.go:33-39 | filling keeps the donor prefix and adds only filler cities |
| Crossover.CutAndFillPrefix | Corte_2/Algoritmo_Genetico/geneticalgorithm/crossover.go:27-31 | child[0..p) equals donor[0..p) |
| Crossover.FillDistinct | Corte_2/Algoritmo_Genetico/geneticalgorithm/crossover.go:35-38 | the inChild guard never appends a city twice |
| Crossover.FillOrder | Corte_2/Algoritmo_Genetico/geneticalgorithm/crossover.go:33-39 | filling appends the filler cities that are missing from the prefix, in filler order |
| Crossover.WithoutMembers | Corte_2/Algoritmo_Genetico/geneticalgorithm/crossover.go:35-38 | the appended cities are exactly the filler cities not in the prefix |
| Crossover.CutAndFillOrder | Corte_2/Algoritmo_Genetico/geneticalgorithm/crossover.go:23-42 | the child is donor[0..p) followed by the remaining filler cities in filler order |
| Crossover.CutAndFillPermutation | Corte_2/Algoritmo_Genetico/geneticalgorithm/crossover.go:23-42 | for permutation parents of 0..n-1 and 0 <= p <= n, the child is a permutation of 0..n-1 |
| Crossover.CutAndFillBuild | Corte_2/Algoritmo_Genetico/geneticalgorithm/crossover.go:23-42 | the loops with the inChild flags compute that child |
| Crossover.CutAndFillCrossover | Corte_2/Algoritmo_Genetico/geneticalgorithm/crossover.go:9-19 | for n >= 2 and p = r+1 in 1..n-1, the two children are the cut-and-fill of each parent with the other, both permutations |
| Mutation.InversionMutation | Corte_2/Algoritmo_Genetico/geneticalgorithm/mutation.go:7-19 | the tour becomes its segment reversal between the ordered draws |
| Mutation.MutatedFacts | Corte_2/Algoritmo_Genetico/geneticalgorithm/mutation.go:11-18 | positions in [i, j] are mirrored and the others unchanged; length and multiset are kept, a permutation stays one, and i == j leaves the tour unchanged |
| Selection.TournamentSelection | Corte_2/Algoritmo_Genetico/geneticalgorithm/selection.go:7-16 | the loop returns the tournament's winner over the sampled indices |
| Selection.TournamentSpec | Corte_2/Algoritmo_Genetico/geneticalgorithm/selection.go:9-14 | the winner is a sampled individual of least cost among the samples, and the earliest such sample because the comparison is strict |
| Selection.TournamentOfOne | Corte_2/Algoritmo_Genetico/geneticalgorithm/selection.go:8-9 | when tournSize <= 1 the first sample wins |
| GA.EvaluateCost | Corte_2/Algoritmo_Genetico/geneticalgorithm/ga.go:26-34 | for a non-empty tour, the total is the closed cycle cost over the cities |
| GA.CopyTour | Corte_2/Algoritmo_Genetico/geneticalgorithm/ga.go:49-53 | the copy is a fresh array equal to the tour |
| GA.Perturbed | Corte_2/Algoritmo_Genetico/geneticalgorithm/ga.go:56-65 | the perturbed tour has the input's length |
| GA.PerturbedMultiset | Corte_2/Algoritmo_Genetico/geneticalgorithm/ga.go:56-65 | k swaps keep the multiset |
| GA.PerturbTour | Corte_2/Algoritmo_Genetico/geneticalgorithm/ga.go:56-65 | the loop over a copy returns the k-swap perturbation and reads 2k draws; the input is a value and stays as it was |
| GA.IsDuplicate | Corte_2/Algoritmo_Genetico/geneticalgorithm/ga.go:68-75 | the result holds exactly when some individual has that cost |
| GA.RandomPermutation | Corte_2/Algoritmo_Genetico/geneticalgorithm/ga.go:37-46 | the result is the shuffle of 0..n-1, reading n-1 draws |
| GA.ShuffledRangeIsPermutation | Corte_2/Algoritmo_Genetico/geneticalgorithm/ga.go:37-46 | that shuffle is a permutation of 0..n-1 |
| GA.GoDiv | Corte_2/Algoritmo_Genetico/geneticalgorithm/ga.go:92 | the division truncates toward zero: it agrees with Dafny's for a non-negative dividend and is at most 0 for a negative one |
| GA.Evaluated | Corte_2/Algoritmo_Genetico/geneticalgorithm/ga.go:98-101 | an individual built from a permutation is valid: its cost is its tour's cost |
| GA.AppendValid | Corte_2/Algoritmo_Genetico/geneticalgorithm/ga.go:89-120 | appending a valid individual keeps the population valid |
| GA.AddPerturbed | Corte_2/Algoritmo_Genetico/geneticalgorithm/ga.go:91-103 | the perturbed phase adds at most numPerturbed valid individuals, each one with a cost not already present |
| GA.AddRandom | Corte_2/Algoritmo_Genetico/geneticalgorithm/ga.go:105-115 | the phase with diversity control adds valid individuals with new costs, never beyond popSize |
| GA.FillRandom | Corte_2/Algoritmo_Genetico/geneticalgorithm/ga.go:117-121 | the last phase fills the population to exactly popSize valid individuals |
| GA.InitPopulation | Corte_2/Algoritmo_Genetico/geneticalgorithm/ga.go:82-124 | for popSize >= 1 there are exactly popSize valid individuals (only the seed when popSize = 0; a negative popSize makes `make` panic and is excluded), and the first is the farthest-insertion seed |
| GA.CheapestUpToSpec | Corte_2/Algoritmo_Genetico/geneticalgorithm/ga.go:143-148 | the initial best is an individual of least cost, the first such one |
| GA.InitialBest | Corte_2/Algoritmo_Genetico/geneticalgorithm/ga.go:143-148 | the loop computes that individual, which belongs to the population |
| GA.WinnerValid | Corte_2/Algoritmo_Genetico/geneticalgorithm/ga.go:165-166 | a tournament winner from a valid population is valid |
| GA.MaybeMutate | Corte_2/Algoritmo_Genetico/geneticalgorithm/ga.go:172-177 | a draw below the mutation rate applies an inversion at the next two draws, and otherwise the tour is unchanged; either way a permutation stays one |
| GA.Breed | Corte_2/Algoritmo_Genetico/geneticalgorithm/ga.go:165-181 | two selections, a crossover and the mutations give two valid children |
| GA.Offspring | Corte_2/Algoritmo_Genetico/geneticalgorithm/ga.go:161-187 | a generation creates exactly PopSize valid offspring (PopSize >= 0, the capacity `make` needs) |
| GA.SurvivorsFacts | Corte_2/Algoritmo_Genetico/geneticalgorithm/ga.go:189-198 | the survivors are popSize individuals of old plus offspring, sorted by cost, none dearer than any individual left out, and the first is the cheapest of all |
| GA.SurvivorsValid | Corte_2/Algoritmo_Genetico/geneticalgorithm/ga.go:189-198 | survivors of valid individuals are valid |
| GA.NextPopulation | Corte_2/Algoritmo_Genetico/geneticalgorithm/ga.go:160-198 | one generation gives PopSize valid offspring and the survivor population |
| GA.BestAfterGeneration | Corte_2/Algoritmo_Genetico/geneticalgorithm/ga.go:200-207 | the new population[0] costs at most the best so far and at most every survivor, so the best never increases and equals population[0]'s cost after an improvement |
| GA.ToCities | Corte_2/Algoritmo_Genetico/geneticalgorithm/ga.go:216-220 | the conversion lists the cities the best index tour names |
| GA.RunGA | Corte_2/Algoritmo_Genetico/geneticalgorithm/ga.go:136-229 | LastImproveGen <= TotalGens <= Generations; the stop reason is stagnation exactly when the limit is positive and was reached, and max_generaciones means every generation ran; the best tour is a permutation of the cities priced at its cost and no dearer than the seed |
| LocalSearch.ScanDelta | Corte_2/Recocido_Simulado/localsearch/two_opt.go:19-25 | the scan's d3+d4-(d1+d2) is the move's delta |
| LocalSearch.ApplyMove | Corte_2/Recocido_Simulado/localsearch/two_opt.go:27-31 | the reversal changes the cost by exactly the delta, keeps the multiset and keeps tour[0] |
| LocalSearch.ScanStep | Corte_2/Recocido_Simulado/localsearch/two_opt.go:19-31 | a move is applied exactly when it shortens the tour, and the cost stays the tour's cost |
| LocalSearch.NoGainNext | Corte_2/Recocido_Simulado/localsearch/two_opt.go:15-34 | a rejected move extends the no-gain region of the pass |
| LocalSearch.NoGainRow | Corte_2/Recocido_Simulado/localsearch/two_opt.go:15-34 | a row finished without gain carries over to the next row |
| LocalSearch.ScanRow | Corte_2/Recocido_Simulado/localsearch/two_opt.go:16-33 | a row of the pass keeps the cost bookkeeping and, without an improvement, the no-gain region |
| LocalSearch.TwoOpt | Corte_2/Recocido_Simulado/localsearch/two_opt.go:9-36 | the input is left alone; the result is a rearrangement with the same first city, priced at its cost, no dearer than the input, and a 2-opt local optimum |
| SimulatedAnnealing.Candidate | Corte_2/Recocido_Simulado/simulatedannealing/sa.go:39-49 | a candidate move has i < j and is never the whole-tour reversal |
| SimulatedAnnealing.CandidateSpec | Corte_2/Recocido_Simulado/simulatedannealing/sa.go:39-49 | the draws are skipped exactly when i == j or they span the whole tour; otherwise the move is the ordered pair |
| SimulatedAnnealing.MoveDelta | Corte_2/Recocido_Simulado/simulatedannealing/sa.go:56-65 | the computed delta is the move's four-edge delta, with cyclic neighbours |
| SimulatedAnnealing.ApplyMove | Corte_2/Recocido_Simulado/simulatedannealing/sa.go:81-83 | the reversal changes the cost by exactly the delta and keeps the multiset |
| SimulatedAnnealing.TryMove | Corte_2/Recocido_Simulado/simulatedannealing/sa.go:67-90 | a move is taken exactly when its delta is negative or the worse move is accepted; costoActual then gains delta and stays the tour's cost |
| SimulatedAnnealing.Propose | Corte_2/Recocido_Simulado/simulatedannealing/sa.go:39-90 | a skipped draw changes nothing; otherwise the move is taken on the acceptance rule |
| SimulatedAnnealing.Iteration | Corte_2/Recocido_Simulado/simulatedannealing/sa.go:37-90 | each iteration keeps costoActual and mejorCosto equal to their tours' costs, with mejorCosto never above costoActual and never increasing |
| SimulatedAnnealing.EjecutarSA | Corte_2/Recocido_Simulado/simulatedannealing/sa.go:19-98 | the caller's tour is left alone; the result is a rearrangement of it, priced at its cost and no dearer than the initial tour |
| Tabu.IdsOfRearrangement | Corte_2/Tabu/tabu.go:14-17 | a rearranged tour keeps its city IDs in range of the tabu matrix |
| Tabu.MaxID | Corte_2/Tabu/tabu.go:26-31 | the result is non-negative, bounds every ID, and is 0 or some city's ID |
| Tabu.ScanNext | Corte_2/Tabu/tabu.go:50-85 | each scanned move updates the best neighbour exactly when it is admissible and strictly cheaper |
| Tabu.ScanRow | Corte_2/Tabu/tabu.go:47-48 | the scan state carries from the end of a row to the start of the next |
| Tabu.ScanDone | Corte_2/Tabu/tabu.go:47-87 | the state after the last row covers the whole neighbourhood |
| Tabu.ScanStep | Corte_2/Tabu/tabu.go:50-85 | one move of the scan, computing its cost, the tabu test and aspiration, keeps the scan state |
| Tabu.BestInRow | Corte_2/Tabu/tabu.go:48-86 | the inner loop scans one row |
| Tabu.BestNeighbour | Corte_2/Tabu/tabu.go:41-87 | the chosen move has the least resulting cost among admissible moves (tabu entry at most iter, or cost beating the best), the first in scan order on ties; foundMove holds exactly when one exists |
| Tabu.MarkTabu | Corte_2/Tabu/tabu.go:98-99 | both entries [a][b] and [b][a] are set, and nothing else in the matrix changes |
| Tabu.MakeMove | Corte_2/Tabu/tabu.go:90-99 | the move is applied even when it lengthens the tour; the cost changes by its delta, tour[0] stays, and the moved pair is tabu until iter + tenure |
| Tabu.Iteration | Corte_2/Tabu/tabu.go:38-106 | the returned move is the scan's first cheapest admissible move and its cost becomes the current cost; with a move the tour is that segment reversed and exactly the two cities' tabu entries are set to iter + tenure; with none the tour, cost and tabu matrix are unchanged; the best tour is replaced, by a copy, exactly when the new cost is strictly below the best, so costoBest never rises |
| Tabu.TabuSearch | Corte_2/Tabu/tabu.go:10-110 | the result is a rearrangement of the cities with the shuffled start's first city, priced at its cost and no dearer than the shuffled start |
| Grasp.Candidates | Corte_2/GRASP/grasp/construction.go:28-33 | candidate i is unvisited[i] with its distance from last and its index |
| Grasp.MinDist | Corte_2/GRASP/grasp/construction.go:29-36 | the running minimum is at most every distance scanned |
| Grasp.MaxDist | Corte_2/GRASP/grasp/construction.go:29-39 | the running maximum is at least every distance scanned |
| Grasp.DistAttained | Corte_2/GRASP/grasp/construction.go:31-39 | both extremes are attained by a candidate |
| Grasp.FillCandidates | Corte_2/GRASP/grasp/construction.go:28-40 | the loop fills the candidate array and computes the nearest and farthest distance |
| Grasp.SortedCandidates | Corte_2/GRASP/grasp/construction.go:43-45 | after sorting, every candidate is an unvisited city with its distance from last |
| Grasp.RCLOf | Corte_2/GRASP/grasp/construction.go:48-55 | the RCL of a sorted list is its longest prefix within the threshold, the next entry (if any) being beyond it |
| Grasp.TakeWithin | Corte_2/GRASP/grasp/construction.go:48-55 | the loop keeps exactly that longest prefix within the threshold |
| Grasp.BuildRCL | Corte_2/GRASP/grasp/construction.go:23-57 | the RCL is nil for no unvisited city, and otherwise the longest prefix of the distance-sorted candidates within min + alpha(max - min); it holds exactly the candidates within that threshold, each an unvisited city with its distance from last |
| Grasp.RCLMembers | Corte_2/GRASP/grasp/construction.go:43-56 | whatever order the sort gives equal distances, the RCL holds exactly the candidates within the threshold |
| Grasp.SortedBounds | Corte_2/GRASP/grasp/construction.go:43-47 | sorted distances lie between the extremes, and the first one is the minimum |
| Grasp.BeyondRCL | Corte_2/GRASP/grasp/construction.go:49-54 | every candidate after the RCL is beyond the threshold |
| Grasp.RCLNearest | Corte_2/GRASP/grasp/construction.go:29-56 | with alpha >= 0 the RCL is non-empty and starts with a nearest candidate |
| Grasp.RCLGreedy | Corte_2/GRASP/grasp/construction.go:47-56 | with alpha = 0 the RCL holds exactly the nearest candidates |
| Grasp.RCLRandom | Corte_2/GRASP/grasp/construction.go:47-56 | with alpha = 1 the RCL holds every candidate |
| Grasp.CumClosed | Corte_2/GRASP/grasp/construction.go:102-104 | the running weight after rank i is (i+1)(2n-i)/2 |
| Grasp.CumTotal | Corte_2/GRASP/grasp/construction.go:99 | the total weight is n(n+1)/2 |
| Grasp.CumIncreasing | Corte_2/GRASP/grasp/construction.go:102-105 | the running weight increases strictly with the rank |
| Grasp.LandsOnExactlyOne | Corte_2/GRASP/grasp/construction.go:99-109 | every r in 1..n(n+1)/2 selects exactly one rank, the least whose running weight reaches r, so the fallback at line 109 is unreachable; rank i takes exactly n - i values |
| Grasp.ChooseWithBias | Corte_2/GRASP/grasp/construction.go:92-110 | one candidate is returned without a draw; otherwise the rank the draw lands on, reading one draw |
| Grasp.RemoveAtFacts | Corte_2/GRASP/grasp/construction.go:84 | removing one entry shortens the list by one, takes exactly that city out of the multiset, and keeps IDs distinct |
| Grasp.RemoveAtAt | Corte_2/GRASP/grasp/construction.go:84 | entries before the removed one stay and those after it shift down by one |
| Grasp.RemoveAtDistinct | Corte_2/GRASP/grasp/construction.go:84 | removal keeps IDs distinct |
| Grasp.RemoveById | Corte_2/GRASP/grasp/construction.go:82-87 | the first entry with the ID is removed, and nothing is removed when none has it |
| Grasp.FirstById | Corte_2/GRASP/grasp/construction.go:82-87 | the first entry with an ID comes no later than any entry with it, and with distinct IDs it is that entry |
| Grasp.Step | Corte_2/GRASP/grasp/construction.go:72-88 | one step appends the city of the RCL entry whose rank the biased draw lands on (no draw for a one-entry RCL), that city is within the threshold from the last city, and with distinct IDs exactly that city leaves unvisited |
| Grasp.ExtremesSameCities | Corte_2/GRASP/grasp/construction.go:29-40 | the nearest and farthest distance depend only on which cities are pending, not on their order |
| Grasp.WithinSameCities | Corte_2/GRASP/grasp/construction.go:47 | so does whether a city is within the threshold |
| Grasp.WithinStep | Corte_2/GRASP/grasp/construction.go:72-88 | appending a pending city keeps every earlier choice within its threshold over the cities then pending, and adds the new choice |
| Grasp.ChosenDone | Corte_2/GRASP/grasp/construction.go:72-89 | with nothing pending, every choice was within its threshold over the rest of the tour |
| Grasp.ConstructionTurn | Corte_2/GRASP/grasp/construction.go:72-88 | one turn of the loop keeps the counts, the membership and multiset balance, and the threshold property of every choice |
| Grasp.ExceptStart | Corte_2/GRASP/grasp/construction.go:65-70 | the unvisited list is the cities without the start |
| Grasp.ConstructionStep | Corte_2/GRASP/grasp/construction.go:72-88 | moving a city from unvisited to the tour keeps lengths, membership and, with distinct IDs, the multiset balance |
| Grasp.BuildSolution | Corte_2/GRASP/grasp/construction.go:59-90 | the tour starts at cities[startIdx], has n cities drawn from cities and, with distinct IDs, is a permutation of them in which every city after the first is within the RCL threshold from its predecessor over the cities not yet placed, i.e. it was an RCL member at its step |
| DoubleBridgeMove.Cuts | Corte_1/Busqueda_Local_Iterada/perturbation/double_bridge.go:16-22 | the cut points satisfy 1 <= pos1 < pos2 < pos3 <= n-1 |
| DoubleBridgeMove.CutsNeverCapped | Corte_1/Busqueda_Local_Iterada/perturbation/double_bridge.go:16-22 | draws below n/4 never reach n, so the cap at n-1 never applies |
| DoubleBridgeMove.DoubleBridge | Corte_1/Busqueda_Local_Iterada/perturbation/double_bridge.go:10-38 | the result has the tour's length |
| DoubleBridgeMove.BridgeAt | Corte_1/Busqueda_Local_Iterada/perturbation/double_bridge.go:26-37 | the result is A, D, C, B position by position |
| DoubleBridgeMove.BridgeMultiset | Corte_1/Busqueda_Local_Iterada/perturbation/double_bridge.go:31-37 | the reconnection keeps the multiset |
| DoubleBridgeMove.DoubleBridgeFacts | Corte_1/Busqueda_Local_Iterada/perturbation/double_bridge.go:16-37 | for n >= 8 the result is A ++ D ++ C ++ B at the drawn cuts, with A and tour[0] in place and the multiset kept |
| DoubleBridgeMove.DoubleBridgeShort | Corte_1/Busqueda_Local_Iterada/perturbation/double_bridge.go:12-14 | below 8 cities the tour comes back equal |
| IteratedLocalSearch.Start | Corte_1/Busqueda_Local_Iterada/solver/ils.go:21-25 | after the first local search the best is the current tour |
| IteratedLocalSearch.RoundFacts | Corte_1/Busqueda_Local_Iterada/solver/ils.go:37-47 | a candidate is taken exactly when strictly cheaper, the best stays equal to the current tour, and the current cost never grows |
| IteratedLocalSearch.RoundsFacts | Corte_1/Busqueda_Local_Iterada/solver/ils.go:28-48 | after every round the best equals the current tour, and the current cost never grows from one round to a later one |
| IteratedLocalSearch.RoundRearranges | Corte_1/Busqueda_Local_Iterada/solver/ils.go:29-47 | with a rearranging perturbation and search, a round keeps both tours rearrangements of the start, priced at their costs |
| IteratedLocalSearch.RoundsRearrange | Corte_1/Busqueda_Local_Iterada/solver/ils.go:28-48 | the same holds after any number of rounds |
| IteratedLocalSearch.ILS | Corte_1/Busqueda_Local_Iterada/solver/ils.go:12-51 | exactly max(maxIteraciones, 0) rounds run from the searched, shuffled start; the returned cost equals the last current cost and is at most the cost after the first search |
| Colony.StartConsistent | Corte_1/Heuristica/acs/ant.go:21-28 | after a reset, only the start city is placed and flagged |
| Colony.VisitConsistent | Corte_1/Heuristica/acs/ant.go:44-48 | visiting an unflagged city keeps the placed cities distinct and equal to the flagged ones |
| Colony.CompleteTour | Corte_1/Heuristica/acs/ant.go:51-58 | with tour and flags in agreement, the tour is complete exactly when every city is flagged, and a complete tour is a permutation |
| Colony.UnvisitedFacts | Corte_1/Heuristica/acs/ant.go:61-69 | the unvisited list holds exactly the unflagged cities, in ascending order |
| Colony.Ant.constructor | Corte_1/Heuristica/acs/ant.go:12-18 | NewAnt gives n zeroes, n clear flags and tourIndex 0 |
| Colony.Ant.Reset | Corte_1/Heuristica/acs/ant.go:21-28 | exactly the start city is flagged, tour[0] is the start, the rest of the tour is kept, and tourIndex is 1 |
| Colony.Ant.CurrentCity | Corte_1/Heuristica/acs/ant.go:31-36 | the result is tour[tourIndex-1] once something is placed, and then it is a flagged city |
| Colony.Ant.CanVisit | Corte_1/Heuristica/acs/ant.go:39-41 | a city may be visited exactly when it is not among the placed cities |
| Colony.Ant.Visit | Corte_1/Heuristica/acs/ant.go:44-48 | the city is written at tourIndex, flagged, and tourIndex grows by one; nothing else changes, and visiting an unflagged city keeps tour and flags in agreement |
| Colony.Ant.Tour | Corte_1/Heuristica/acs/ant.go:51-53 | the tour has n entries, and a complete, consistent ant holds a permutation |
| Colony.Ant.TourComplete | Corte_1/Heuristica/acs/ant.go:56-58 | with tour and flags in agreement, the ant is complete exactly when every city is flagged |
| Colony.Ant.UnvisitedCities | Corte_1/Heuristica/acs/ant.go:61-69 | the loop returns the ascending list of unflagged cities |

## Left out

- Floating point. Distances are `nat`, which is exact for the integer
  TSPLIB matrices. `DistanciaEuclidiana` (`math.Sqrt`) is an abstract
  function `d`, so rounding and float comparison ties are not modelled.
  The exact solver's bound is a `real`.
- Random number generation. Every draw comes from a given stream, and
  nothing is proved about distributions.
- Simulated annealing's Metropolis test (`math.Exp`) and its cooling
  schedule. A worse move is accepted according to a boolean stream
  `acceptWorse`, and the number of temperature levels is the parameter
  `levels`, so a schedule that never ends when Alpha >= 1 is not modelled.
- SimulatedAnnealing.EjecutarSA: runs `levels` temperature levels, taken as
  a parameter, instead of cooling a float temperature down to MinTemp.
- The ant colony system driver, the pheromone arithmetic and the parameters
  (acs.go, pheromone.go, params.go). These are float-based and stochastic;
  only the ant's bookkeeping is modelled.
- The GRASP driver (Corte_2/GRASP/grasp/grasp.go). It is a random restart
  loop, and it refers to names that construction.go does not define.
- Command-line front ends, printing, timing and the B&B node counters. These
  are I/O only.
- TSPLIB and coordinate file readers, and the known-optimum tables. These
  are file I/O and float parsing.
- The 2-opt local search and the utilities of the ILS package.
  `IteratedLocalSearch.ILS` takes the perturbation and the local search as
  parameters, together with the properties it needs of them.
- `sort.Float64s` and `sort.Slice`. They are modelled by one stable
  insertion sort, Sorting.SortBy. Its own contract is "sorted by the key and
  a rearrangement". For the two-cheapest-edges bound the order among equal
  keys cannot matter. Grasp.BuildRCL and GA.Survivors, however, are defined
  on the stable order, and Go's sort is not stable. The lemmas about them
  (Grasp.RCLMembers, Grasp.RCLNearest, Grasp.RCLGreedy, Grasp.RCLRandom,
  GA.SurvivorsFacts) hold for any sorted rearrangement.
- Grasp.BuildRCL: orders equal-distance candidates by their position in
  the unvisited list. `sort.Slice` leaves that order unspecified, and it
  decides the rank, and so the draw weight, of each tied candidate. Which
  candidates are in the RCL does not depend on it (Grasp.RCLMembers).
  Grasp.Step and Grasp.BuildSolution inherit the rank from this order.
- GA.Survivors: which of several equal-cost individuals survive at the
  popSize boundary, and their order, follow the stable sort. Go's unstable
  sort may choose differently. GA.SurvivorsFacts states only what every
  sorted order gives.
- Grasp.BuildSolution: states for every position after the first that the
  city was within the RCL threshold over the cities then pending, i.e. an
  RCL member. The rank each draw landed on and the stream position it read
  are stated per step by Grasp.Step, not collected over the whole tour.
- `container/heap` sifting. Frontier.HeapPop is a linear scan for a least
  lowerBound followed by the swap-and-Pop that heap.Pop performs. Its
  contract states only what heap.Pop promises, not which of several equal
  items is returned.
- Aliasing of Go slices. Tours that the source copies (`copyTour`,
  `CopiarTour`, `append([]int(nil), ...)`, the ant's `Tour`) are Dafny
  sequences or fresh arrays. A caller writing into a slice the ant returned
  is therefore not modelled.
- Neighbor.BestNearestNeighbor: starts from an empty tour instead of
  `make([]int, n)` and copies each better tour. The two agree whenever a
  start is tried, and both are empty when n = 0.
- Colony.Ant.UnvisitedCities: the capacity hint n - tourIndex of the Go
  slice has no counterpart.
- Grasp.BuildSolution: requires alpha >= 0. With a negative alpha the RCL
  can be empty, and `chooseWithBias` would then call `rand.Intn(0)`, which
  panics.
- Grasp.BuildSolution: the permutation property is stated under distinct
  city IDs, because removal in the source matches by ID.
- GA.Breed: states only that the two children are valid individuals, not
  which tournament winners, cut point and mutations produced them.
- GA.Offspring: states the number of offspring and their validity, not the
  stream positions each child reads.
- GA.RunGA: states convergence bookkeeping, validity and the best tour's
  bounds; which individual is the best is stated per generation by
  GA.BestAfterGeneration.
- Tabu.TabuSearch: tenure and iteration counters are unbounded integers, so
  Go's `int` overflow after about 2^63 iterations is not modelled.
- The three other copies of the in-place reversal (two_opt.go:39-45,
  sa.go:101-107, Tabu/utils.go:7-13) are one method, Tours.InvertSegment.
  Mutation.InversionMutation keeps its own ordering of the draws.
- The stop reason is the datatype `StopReason` (`MaxGeneraciones` or
  `Estancamiento`) rather than the strings "max_generaciones" and
  "estancamiento".
