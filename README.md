# Genetic travelling-salesman search, modelled in Dafny

This project models the core of a genetic algorithm for the travelling
salesman problem. A *generation* is a flat `int` buffer of `population`
rows. Each row is a tour, a permutation of the nodes `0..numNodes-1`. The
modelled operations are:

- **Ranking** (`rank_generation`, `sort_vector`): every row's closed-tour
  cost is added to its cost slot. The slots are insertion-sorted, and a
  rank array is carried along with them.
- **Selection** (`move_top`): the `bestNum` best rows, best first, are
  copied to the front of a scratch buffer, and the two buffers trade
  places.
- **Breeding** (`generate`, `crossover_firstHalf_withMutation`): each
  non-elite row is replaced by a child of two elite rows. The child takes
  the first half of parent 1, then parent 2's remaining nodes in parent 2's
  order, and may then have two positions swapped.
- **Driver** (`genetic_tsp`): initialises every row as a shuffled identity
  tour, ranks and selects, then runs at most `maxIt` rounds. Each round
  writes the average of the five best costs into a circular window, and the
  run stops once that window is full and its deviation is within the
  threshold.

Modules, one file each:

- `tours.dfy` (`Tours`): rows, offsets, permutations, buffer overwrites and
  tour costs.
- `random.dfy` (`Random`): `myRand`.
- `rank_sort.dfy` (`RankSort`): `sort_vector`, specified by the functional
  `InsertionSort`.
- `ranking.dfy` (`Ranking`): `rank_generation`.
- `elite.dfy` (`Elite`): `move_top`.
- `crossover.dfy` (`Crossover`): the crossover with mutation.
- `generate.dfy` (`Generation`): `generate`, specified by `Filled`, the
  table with the children written in order.
- `driver.dfy` (`Driver`): `genetic_tsp` and the argument check of `main`.

The arrays the source mutates stay arrays: the generation buffers, the cost
and rank vectors, the early-stop window and the solution. Each loop is a
method proved against a functional specification. Buffers the source only
reads, such as the cost matrix, are `seq` parameters.

Randomness is a nondeterministic draw. `rand()` is an arbitrary `nat`
(`var d: nat := *`). A `do … while` rejection loop becomes a choice `:|` of
a value the loop would accept. Contracts therefore hold for every possible
draw, and ghost out-parameters name the draws that were taken: the parents
and the mutation of each child.

The cost slots are accumulated with `+=` and are never reset in either
file (genetic_utils.h:90,95, and the `new int[population]` at
code/source_seqPar/gen_tsp_detailed.cpp:51). The driver keeps this
behaviour as written. After every ranking and selection, elite row `k` is
the old row `rank[k]`, and its cost slot holds `before[rank[k]]` plus the
row's tour cost. Here `before` is the cost vector as it stood just before
that ranking. The reported cost is the same relation for row 0: row 0's
tour cost, plus the uninitialised content of a slot, plus the tour costs
that earlier rounds added to it. The contracts deliberately leave `before`
unconstrained, so they do not bound the reported cost. "Findings" below
states the consequence and proves it, next to the ranking with the slots
reset (`RankAndMoveTopFresh`), for which the intended properties are proved.

The generation loop records its run in two ghost sequences, `tables` and
`costHist`: the generation buffer and the cost slots after the first
ranking and after every round. `RunHistory` says that each round takes
entry `j` to entry `j + 1` by one generation (`RoundStep`). The drawn
parents, mutations and children are left existential. The bred table is
ranked over the accumulated costs, and its elite is moved to the front
(`Evolved`). The recorded average of round `j` is that of the best slots
of entry `j + 1`. `Evolve`, `Search` and `GeneticTsp` return this history,
ending at the final buffer and cost slots.

`gen_tsp_detailed.cpp` includes `genetic_utils_detailed.h`, which is not
part of this model. Its `rank_generation(cost, generation, copy, …)` and
`generate(…, probCentile, …)` are modelled as follows:

- `rank_generation` is the ranking of genetic_utils.h followed by its
  `move_top`. The driver uses the selected elite as the next generation, and
  this composition produces it.
- `generate` with an integer percentile `probCentile` is genetic_utils.h's
  `generate` with `mutatProb = probCentile / 100`. With that `mutatProb`,
  the test `rand() % 100 + 1 <= mutatProb * 100` accepts exactly the draws
  that `rand() % 100 + 1 <= probCentile` accepts.

## Model

| member | source | states |
|---|---|---|
| Random.MyRand | genetic_utils.h:20-22 | the draw reduced by `% i` lies in `[0, i)`, and a draw already below `i` is returned unchanged |
| Tours.StartIsProduct | genetic_utils.h:88 | the offset of row `r` built row by row equals the source's `r * numNodes` |
| Tours.RowsApart | genetic_utils.h:197 | row `r1` ends at or before the start of any later row, so distinct rows never overlap |
| Tours.PermutationInRange | genetic_utils.h:88-95 | a permutation of `0..n-1` has `n` entries, each a valid node index (so every cost-matrix read is in bounds) |
| Tours.PathCostFront | genetic_utils.h:92-96 | the cost of a path is its first edge plus the cost of the rest |
| Tours.TourCost | genetic_utils.h:87-96 | the closed-tour cost of a row: the wrap-around edge from its last node to its first plus the edges between neighbours, read as `cost_matrix[a*numNodes+b]` |
| Tours.PathCostAtLeast | genetic_utils.h:92-96 | with every edge cost positive, a path costs at least one per edge |
| Tours.TourCostPositive | genetic_utils.h:87-96 | with every edge cost positive, a closed tour costs at least one per node |
| Tours.TwoNodeTour | code/source_seqPar/gen_tsp_detailed.cpp:140 | on the smallest allowed graph (two nodes, symmetric matrix) every tour costs twice the single edge |
| Tours.OverwriteSameRow | genetic_utils.h:197-199 | writing a whole row makes that row exactly the written tour |
| Tours.OverwriteOtherRow | genetic_utils.h:197-199 | writing a whole row leaves every other row unchanged |
| RankSort.InsertAt | genetic_utils.h:58-65 | inserting a pair places it after every pair of cost `<=` its own and before the strictly greater pairs that were shifted right |
| RankSort.InsertionSortSorted | genetic_utils.h:53-67 | the sorted pairs are in non-decreasing cost order |
| RankSort.InsertionSortPermutes | genetic_utils.h:53-67 | sorting loses and duplicates no (cost, rank) pair: the result is a permutation of the input |
| RankSort.InsertionSortStable | genetic_utils.h:59 | because only strictly greater costs are shifted (`>`), pairs of equal cost keep their relative order |
| RankSort.ShortIsSorted | genetic_utils.h:55 | with fewer than two entries the outer loop does nothing |
| RankSort.ShiftGreater | genetic_utils.h:58-63 | the inner `while` shifts exactly the trailing run of pairs with cost `> key` one place right and stops at the first pair not greater (or at -1); the prefix and the slots past `i` are untouched |
| RankSort.InsertEntry | genetic_utils.h:56-65 | one outer round writes the held pair into the gap, so positions `0..i` hold the sorted prefix with that pair inserted at `m`; nothing past `i` changes |
| RankSort.SortRound | genetic_utils.h:55-66 | after round `i` the first `i + 1` input pairs are in the arrays, sorted, and the rest is as before the sort |
| RankSort.SortVector | genetic_utils.h:53-67 | the arrays' first `population` (cost, rank) pairs become `InsertionSort` of the original pairs (sorted, a permutation and stable, by the lemmas above); slots past `population` are untouched |
| Ranking.AccumulatedAt | genetic_utils.h:86-96 | after accumulation, slot `k` is its old value plus the closed-tour cost of row `k` |
| Ranking.AddTourCost | genetic_utils.h:87-96 | the wrap-around edge and the `numNodes - 1` neighbour edges of row `i` are added to slot `i`, which is its tour cost; no other slot changes |
| Ranking.AccumulateCosts | genetic_utils.h:86-99 | every slot receives its row's tour cost, the ranks become `0..population-1`, and slots past `population` are untouched |
| Ranking.RankedEntries | genetic_utils.h:86-101 | after the sort, costs are in order, each pair still carries the cost of the row it names, and every row number appears exactly once |
| Ranking.RankedArrays | genetic_utils.h:86-101 | the same facts read off the two arrays: sorted costs, ranks a permutation of the row numbers, slot `k` holding row `rank[k]`'s accumulated cost |
| Ranking.RankGeneration | genetic_utils.h:80-104 | the arrays hold `InsertionSort` of (accumulated cost, row number) pairs and are therefore `Ranked`; slots past `population` are untouched |
| Elite.CopyRow | genetic_utils.h:119 | `std::copy` of one row: the destination stretch equals the source stretch and nothing else in the destination changes |
| Elite.CopyStep | genetic_utils.h:117-120 | copying row `ranks[i]` into row `i` extends the copied prefix by one row and leaves the rest as it was |
| Elite.CopyRank | genetic_utils.h:118-119 | one loop round copies row `generationRank[i]` of the current buffer to row `i` of the scratch buffer, keeping the earlier rows |
| Elite.MoveTop | genetic_utils.h:115-124 | row `i < bestNum` of the new current buffer is row `generationRank[i]` of the old one; later rows are the scratch buffer's old rows; the two buffers are swapped |
| Crossover.RemainingCount | genetic_utils.h:150-156 | parent 2's filter keeps each node as often as it occurs in parent 2, unless it was taken from parent 1 |
| Crossover.Cross | genetic_utils.h:141-156 | the unmutated child: parent 1's first `numNodes / 2` nodes, then parent 2's nodes not among them, in parent 2's order |
| Crossover.CrossIsPermutation | genetic_utils.h:141-156 | when both parents are permutations, the unmutated child is a permutation that starts with parent 1's first half |
| Crossover.MutateSwaps | genetic_utils.h:164-166 | the mutation exchanges exactly the two drawn positions and leaves all others alone |
| Crossover.Mutate | genetic_utils.h:158-167 | the mutation outcome: the child unchanged, or the child with two positions exchanged; the length is kept |
| Crossover.MutateKeepsNodes | genetic_utils.h:164-166 | the mutation keeps the multiset of nodes |
| Crossover.MutatePreserves | genetic_utils.h:158-167 | a mutated permutation is still a permutation |
| Crossover.ChildIsPermutation | genetic_utils.h:137-169 | the child of two permutations, mutated or not, is a permutation of the nodes |
| Crossover.TakeNode | genetic_utils.h:145-147 | one round of the first loop copies node `j` of parent 1 into the child and leaves every other cell alone |
| Crossover.TakeFirstHalf | genetic_utils.h:141-148 | the child's first `numNodes / 2` cells become parent 1's first half, `nodes` is exactly that half's node set, and nothing else changes |
| Crossover.AddNode | genetic_utils.h:151-155 | one round of the second loop appends node `k` of parent 2 when it is not in `nodes` and skips it otherwise |
| Crossover.AddRemaining | genetic_utils.h:150-156 | the cells from `son + half` on receive parent 2's nodes not in `nodes`, in parent 2's order, and nothing else changes |
| Crossover.MutateChild | genetic_utils.h:158-167 | a draw `rand() % 100 + 1 <= mutatProb * 100` swaps two distinct drawn positions of the child; otherwise nothing changes; below 1% the child is never mutated and at probability 1 it always is |
| Crossover.CrossChild | genetic_utils.h:141-156 | the two loops together write the unmutated child (`Cross`) at `son` and change nothing else |
| Crossover.WriteChild | genetic_utils.h:141-167 | the child `Mutate(Cross(p1, p2), m)` is written at `son`, for the drawn mutation `m`; nothing else changes |
| Crossover.CrossoverFirstHalfWithMutation | genetic_utils.h:137-169 | for two parent rows that do not overlap the child's stretch, the buffer becomes the old one with `Child(row parent1, row parent2, m)` written at `son` |
| Generation.EarlyParentsDistinct | genetic_utils.h:186-195 | for children `i < best_num` the two parents are distinct elites (`parent1 = i` and `parent2 != i`) |
| Generation.ChosenFor | genetic_utils.h:186-195 | the parents the loop may choose for child `i`: both are elites, parent 2 differs from `i`, and parent 1 is `i` while `i < best_num` |
| Generation.LaterParentsMayCoincide | genetic_utils.h:189-195 | for a child `i >= best_num` any two elites are a possible choice, including one elite twice, because parent 2 is compared with `i` and not with parent 1 |
| Generation.OffspringIsPermutation | genetic_utils.h:186-199 | every child bred from permutation elite rows is a permutation |
| Generation.Breed | genetic_utils.h:186-199 | parent 1 is `i` for the first `best_num` children and otherwise a drawn elite; parent 2 is a drawn elite other than `i`; the child is written into row `best_num + i` |
| Generation.FilledKeepsElite | genetic_utils.h:185-200 | filling the children never changes an elite row |
| Generation.FilledRow | genetic_utils.h:197-199 | row `best_num + j` of the filled table is child `j` |
| Generation.FilledKeepsRest | genetic_utils.h:185-200 | rows after the last child written keep their contents |
| Generation.FilledPermutations | genetic_utils.h:180-201 | with permutation elites and permutation children, every row of the new generation is a permutation |
| Generation.BreedNext | genetic_utils.h:185-200 | one pass of the loop extends the filled table by one child bred from the unchanged elite |
| Generation.Generate | genetic_utils.h:180-201 | rows `best_num..population-1` are replaced, in order, by children bred as `ChosenFor` describes from the elite of the old buffer; elite rows are unchanged |
| Driver.BestCostRises | genetic_utils.h:90-95 | as written: after a round that is ranked over the slots the previous ranking left, with positive edge costs, the reported best cost is at least `numNodes` above the previous one |
| Driver.TwoNodeReportedCost | genetic_utils.h:90-95 | as written, on two nodes the reported cost is the slot's earlier value plus twice the single edge, and it equals twice the edge exactly when that earlier value is 0 |
| Driver.ResetCosts | genetic_utils.h:90 | every cost slot is set to 0 before the tour costs are added |
| Driver.BestAtMost | genetic_utils.h:86-101 | after a ranking the best cost is at most every row's accumulated cost |
| Driver.SelectedFromZero | genetic_utils.h:86-101 | ranked from zeroed slots, each elite slot holds exactly its row's tour cost |
| Driver.FreshTwoNodeCost | genetic_utils.h:90-95 | with the slots reset before the ranking, on two nodes with a symmetric matrix the best cost slot is `2 * cost_matrix[1]`, the round trip over the single edge |
| Driver.RankAndMoveTopFresh | genetic_utils.h:86-101 | the ranking with every slot reset first: the costs are sorted, the ranks a permutation, elite row `k` is old row `rank[k]`, and each elite cost slot is exactly its row's tour cost |
| Driver.FreshBestCostNeverRises | code/source_seqPar/gen_tsp_detailed.cpp:76-85 | with the slots reset before each ranking, the elite rows survive breeding, so the best cost after a round is at most the best cost before it |
| Driver.BestNum | code/source_seqPar/gen_tsp_detailed.cpp:44 | `population * top` truncated is at most `population`, and equals it when `top` is 1 |
| Driver.ValidArguments | code/source_seqPar/gen_tsp_detailed.cpp:137-147 | the argument check of `main`: at least one thread, `top` and `mutatProb` in `[0, 1]`, `population >= AVGELEMS`, at least two nodes, `maxIt >= 0`, `0 < earlyStopRounds <= maxIt`, `earlyStopParam >= 0` |
| Driver.WindowLatest | code/source_seqPar/gen_tsp_detailed.cpp:94 | in the window after rounds `1..k` (round `i` written into slot `(i - 1) % earlyStopRounds`) the latest round's slot holds its average |
| Driver.WindowUnwritten | code/source_seqPar/gen_tsp_detailed.cpp:94 | slots no round has reached yet keep the buffer's initial (uninitialised) contents |
| Driver.WindowFilled | code/source_seqPar/gen_tsp_detailed.cpp:94-97 | once `earlyStopRounds` rounds have run, the window no longer depends on the buffer's initial (uninitialised) contents |
| Driver.WindowSlot | code/source_seqPar/gen_tsp_detailed.cpp:94 | slot `(i - 1) % earlyStopRounds` is inside the window, and in the first pass it is `i - 1` |
| Driver.AverageBest | code/source_seqPar/gen_tsp_detailed.cpp:90-94 | the average is the sum of the five best costs divided by `AVGELEMS` |
| Driver.AverageAtLeastBest | code/source_seqPar/gen_tsp_detailed.cpp:90-94 | with sorted costs the average of the five best is never below the best cost |
| Driver.RandomShuffle | code/source_seqPar/gen_tsp_detailed.cpp:57 | `random_shuffle` with `myRand` rearranges the row's cells (same multiset) and changes nothing outside them |
| Driver.InitialiseRow | code/source_seqPar/gen_tsp_detailed.cpp:55-57 | row `i` becomes a permutation of the nodes and no other cell changes |
| Driver.Initialise | code/source_seqPar/gen_tsp_detailed.cpp:54-58 | every row of the population is a permutation of the nodes |
| Driver.RankedPaired | genetic_utils.h:86-101 | after ranking, costs are sorted, ranks are a permutation of the row numbers, and slot `k` is the old slot `rank[k]` plus row `rank[k]`'s tour cost |
| Driver.RankCosts | code/source_seqPar/gen_tsp_detailed.cpp:61 | the arrays end up `Ranked` over the accumulated costs: sorted, the ranks a permutation of the row numbers, and slot `k` the old value of slot `rank[k]` plus that row's tour cost |
| Driver.RankAndMoveTop | code/source_seqPar/gen_tsp_detailed.cpp:61 | the arrays are ranked over the accumulated costs; elite row `k` of the new current buffer is old row `rank[k]`, and its cost slot is the old slot `rank[k]` plus its tour cost (`Selected`); the two buffers are swapped |
| Driver.ElitePaired | genetic_utils.h:115-124 | rows moved to the front by `move_top` are permutations and keep the cost slots the ranking paired them with |
| Driver.NextGeneration | code/source_seqPar/gen_tsp_detailed.cpp:76-85 | the non-elite rows are replaced by children bred from the old elite (`BredFrom`, `Filled`); that table is ranked, and its elite rows, best first, become the new current buffer, each paired with its cost slot |
| Driver.NeverConvergedSnoc | code/source_seqPar/gen_tsp_detailed.cpp:97-99 | a round whose early-stop test fails extends a run that had not converged |
| Driver.Converged | code/source_seqPar/gen_tsp_detailed.cpp:97 | the early-stop test of round `i`: the round count is checked before the deviation, so no round before `earlyStopRounds` converges |
| Driver.RecordAverage | code/source_seqPar/gen_tsp_detailed.cpp:94 | the round's average is written into slot `(i - 1) % earlyStopRounds`, which extends the window by that round |
| Driver.Round | code/source_seqPar/gen_tsp_detailed.cpp:76-99 | one round replaces the non-elite rows by children bred from the old elite (`Evolved`: the drawn parents and mutations, `BredFrom`, the bred table `Filled`), ranks that table over the accumulated costs and moves its elite, best first, to the front, each paired with its cost slot; it writes the average of the five best costs into slot `(i - 1) % earlyStopRounds` and reports the gated early-stop test |
| Driver.RoundInRun | code/source_seqPar/gen_tsp_detailed.cpp:76-99 | what the loop carries from round to round: the selected state, the round's average, the extended window, the early-stop test, and a failed test extending a run that had not converged. The run so far (`RunSoFar`) grows by this round: the new buffer and cost slots are bred from the old elite, ranked over the accumulated costs and selected (`RoundStep`), and the recorded average is that of the new best slots |
| Driver.RunHistorySnoc | code/source_seqPar/gen_tsp_detailed.cpp:72-101 | appending a generation bred from the last entry of a run's history, with that generation's average, gives a history again |
| Driver.RunSoFarSnoc | code/source_seqPar/gen_tsp_detailed.cpp:72-101 | one more round keeps the run's first entry, makes the new buffer and slots its last entry, and records the slots the round ranked on top of |
| Driver.PackSolution | code/source_seqPar/gen_tsp_detailed.cpp:103-104 | the solution is row 0 of the current buffer, a permutation of all nodes, then that row's cost slot (its pre-ranking value plus the tour's cost), then the flag |
| Driver.Setup | code/source_seqPar/gen_tsp_detailed.cpp:47-61 | fresh, distinct buffers of the right sizes; every shuffled row is a permutation; the ranking is over the accumulated costs, and the elite rows, best first, are paired with their cost slots |
| Driver.Evolve | code/source_seqPar/gen_tsp_detailed.cpp:72-101 | the loop runs rounds `1..rounds <= maxIt`; it stops at the first round whose early-stop test passes (`converged`), and otherwise only after `maxIt` rounds, none of which passed. Its history starts at the buffer and cost slots passed in and ends at the final ones. Every round `j` takes entry `j` to `j + 1` by one generation: breeding, ranking and selection (`RoundStep`). Average `j` is that of the best slots of entry `j + 1` (`RunSoFar`, `RunHistory`) |
| Driver.Search | code/source_seqPar/gen_tsp_detailed.cpp:44-101 | after setup, no round runs exactly when `best_num == population`; otherwise rounds run until the first converged one or `maxIt`; the final buffer is selected and paired with its costs. The history has `rounds + 1` entries, ends at the final buffer and slots, and each round is one generation bred from the entry before (`RunHistory`) |
| Driver.GeneticTsp | code/source_seqPar/gen_tsp_detailed.cpp:38-112 | for valid arguments with `best_num == population` or `best_num >= 2`, the solution is row 0 of the final buffer (a tour of all nodes), then its cost slot, then a flag. The cost slot is the best of the sorted costs and equals `before[rank[0]]` plus row 0's tour cost; `before` is deliberately unconstrained, because the slot holds uninitialised memory plus the tour costs of earlier rounds, so the reported cost is not bounded. The flag is 1 exactly when some round passed the early-stop test, and that round was the last one run. With `best_num == population` no round runs. The history `tables`/`costHist` ends at `table` and `costs`, and each of its `rounds` rounds is one generation bred, ranked and selected from the entry before (`RunHistory`) |

## Findings

| source | as written | input that shows it | evidently intended | confidence | as-written member | corrected member |
|---|---|---|---|---|---|---|
| genetic_utils.h:90-95 | `rank_generation` adds each tour cost to the slot with `+=`; no caller resets the slots, so every ranking adds to the previous round's costs | any run of two rounds with positive edge costs: round 2's reported best cost is at least round 1's plus `numNodes`, although the elite of round 1 survives unchanged | each slot is reset before the tour cost is added, so the slot is the tour's cost and the best cost never rises from round to round (elitism) | not executed | Driver.BestCostRises | Driver.FreshBestCostNeverRises |
| genetic_utils.h:90-95 | the reported cost of the best tour is its slot, which holds whatever the slot held before plus the tour cost | `numNodes = 2` with a symmetric matrix: the reported cost is `2 * cost_matrix[1]` only if the slot held 0, which `new int[population]` does not promise and no round after the first satisfies | the reported cost is the tour's cost, `2 * cost_matrix[1]` on two nodes | not executed | Driver.TwoNodeReportedCost | Driver.FreshTwoNodeCost |

The driver keeps the accumulation as written, so that its contracts
describe what the source computes. `RankAndMoveTopFresh` is the corrected
ranking step. `FreshBestCostNeverRises` proves elitism for rounds that use
it, and `FreshTwoNodeCost` proves the two-node cost from its result.

## Left out

- MPI (rank, initialisation), file output, timing with `chrono`, and the
  `DETAILEDCOSTS` log line are not modelled; they do not affect the
  computed solution.
- OpenMP: the `#pragma omp parallel for` in `generate` is modelled as the
  sequential loop; `numThreads` is accepted and not used.
- `stdDev` is a floating-point square root; the model takes the deviation
  of the window as a function parameter `deviation`, and the early-stop test
  compares its value with `earlyStopParam`.
- `rand()` and `srand`: draws are nondeterministic values; `myRand` is
  modelled on the draw passed in.
- Floating point: `double` values (`top`, `mutatProb`, averages) are
  modelled as exact reals; rounding of `population * top`, of
  `mutatProb * 100` and of the average is not modelled.
- GeneticTsp: requires `best_num == population` or `best_num >= 2`, which
  `main` does not check. With `best_num == 1` (say `population = 5`,
  `top = 0.2`) the rejection loop for parent 2 of child 0 never ends
  (genetic_utils.h:193-195). With `best_num == 0` (`top = 0.1`),
  `rand() % best_num` divides by zero (genetic_utils.h:190).
- Integer width: costs are C `int`, accumulated with `+=` and never reset,
  so they grow every round; `population * numNodes` is also an `int`
  product. Signed overflow is not modelled; the model's integers are
  unbounded.
- GeneticTsp: `main` reads `earlyStopParam` into an `int`
  (gen_tsp_detailed.cpp:120,134), truncating it; the model takes the value
  `genetic_tsp` receives.
- Driver.Setup: the model allocates a rank array for the ranking; the
  detailed driver has none, as its ranking routine is in
  `genetic_utils_detailed.h`, which is not part of this model.
- Memory management: `delete` of the buffers (including `delete` on arrays
  allocated with `new[]`) and the returned allocation are not modelled.
- Generation.Generate: requires `best_num >= 2` when there is a child to
  breed, because with one elite the rejection loop for parent 2 of child 0
  never ends; the source does not check this. Driver.NextGeneration,
  Driver.Round, Driver.Evolve and Driver.Search inherit this requirement.
- Crossover.MutateChild: requires `numNodes >= 2` whenever a mutation can
  be drawn, because with one node the rejection loop for `swap2` never
  ends; `main` rejects `numNodes <= 1` anyway.
- GeneticTsp: the contents of the uninitialised buffers (`generation_copy`,
  `lastRounds`, the cost array) are arbitrary: the model allocates them with
  `new` and never constrains what a fresh array holds. `WindowFilled`
  shows the window stops depending on them once full, and the cost vector
  before each ranking is named by the ghost `before`, which no contract
  constrains.
- Driver.Search: the history's first entry is the table and cost slots of
  the first ranking. The contract does not restate `Setup`'s facts about
  that entry (shuffled tours, ranked and selected). It constrains the entry
  only through the rounds bred from it.
- Driver.GeneticTsp: the same holds for the history it returns from
  `Search`.
- Evolve: the flag cell is written by `GeneticTsp` after the loop returns
  `converged`, rather than inside the loop; the observable solution is the
  same.
