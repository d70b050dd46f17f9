/** The run driver (`genetic_tsp`): every row of the population is set to
    the identity tour and shuffled; the population is ranked and its elite
    moved to the front; then, for at most `maxIt` rounds, a new generation is
    bred, ranked and selected, the average of the five best costs is written
    into a circular window of the last `earlyStopRounds` rounds, and the run
    stops early once the window is full and its deviation is within the
    threshold.  The answer is the best row, its cost and the convergence
    flag. */
module Driver {
  import opened Tours
  import opened Random
  import opened RankSort
  import opened Ranking
  import opened Elite
  import opened Crossover
  import opened Generation

  /** Number of best costs averaged for the early-stop window. */
  const AVGELEMS: nat := 5

  /** The argument check of `main`: a run is started only for these. */
  predicate ValidArguments(numThreads: int, numNodes: int, population: int, top: real, maxIt: int,
                           mutatProb: real, earlyStopRounds: int, earlyStopParam: real)
  {
    numThreads >= 1 && 0.0 <= top <= 1.0 && population >= AVGELEMS && numNodes > 1 && maxIt >= 0 &&
    0.0 <= mutatProb <= 1.0 && 0 < earlyStopRounds <= maxIt && earlyStopParam >= 0.0
  }

  /** `best_num = population * top`, truncated: the size of the elite. */
  function BestNum(population: nat, top: real): (r: nat)
    requires 0.0 <= top <= 1.0
    ensures r <= population
    ensures top == 1.0 ==> r == population
  {
    var p := population as real;
    var x := p * top;
    assert p * top >= 0.0;
    assert p * top <= p * 1.0;
    x.Floor
  }

  // ---------------------------------------------------------------------------
  // The early-stop window

  /** The window after the averages `avgs` of rounds `1..|avgs|` have been
      written, round `i` into slot `(i - 1) % size`, over the initial
      contents `init`. */
  function WindowAfter(init: seq<real>, avgs: seq<real>, size: nat): (r: seq<real>)
    requires |init| == size > 0
    ensures |r| == size
  {
    if |avgs| == 0 then init
    else
      var k := |avgs| - 1;
      WindowSlot(k + 1, size);
      WindowAfter(init, avgs[..k], size)[k % size := avgs[k]]
  }

  /** The slot of the latest round holds its average. */
  lemma {:induction false} WindowLatest(init: seq<real>, avgs: seq<real>, size: nat)
    requires |init| == size > 0 && |avgs| > 0
    ensures WindowAfter(init, avgs, size)[(|avgs| - 1) % size] == avgs[|avgs| - 1]
  {
    WindowSlot(|avgs|, size);
  }

  /** Slots no round has reached yet keep the buffer's initial contents. */
  lemma {:induction false} WindowUnwritten(init: seq<real>, avgs: seq<real>, size: nat)
    requires |init| == size > 0
    ensures forall s :: |avgs| <= s < size ==> WindowAfter(init, avgs, size)[s] == init[s]
  {
    if |avgs| > 0 {
      var k := |avgs| - 1;
      WindowUnwritten(init, avgs[..k], size);
      WindowSlot(k + 1, size);
    }
  }

  /** Once at least `size` rounds have run, every slot of the window was
      written by one of them: the window no longer depends on what the
      buffer held before the first round. */
  lemma {:induction false} WindowFilled(init1: seq<real>, init2: seq<real>, avgs: seq<real>, size: nat)
    requires |init1| == |init2| == size > 0 && |avgs| >= size
    ensures WindowAfter(init1, avgs, size) == WindowAfter(init2, avgs, size)
  {
    WindowWritten(init1, init2, avgs, size);
  }

  /** Slots `0..min(|avgs|, size)-1` agree whatever the initial contents. */
  lemma {:induction false} WindowWritten(init1: seq<real>, init2: seq<real>, avgs: seq<real>, size: nat)
    requires |init1| == |init2| == size > 0
    ensures forall s :: 0 <= s < size && s < |avgs| ==> WindowAfter(init1, avgs, size)[s] == WindowAfter(init2, avgs, size)[s]
  {
    if |avgs| > 0 {
      var k := |avgs| - 1;
      var slot := k % size;
      var w1, w2 := WindowAfter(init1, avgs[..k], size), WindowAfter(init2, avgs[..k], size);
      assert WindowAfter(init1, avgs, size) == w1[slot := avgs[k]];
      assert WindowAfter(init2, avgs, size) == w2[slot := avgs[k]];
      WindowWritten(init1, init2, avgs[..k], size);
      WindowSlot(k + 1, size);
      forall s | 0 <= s < size && s < |avgs|
        ensures WindowAfter(init1, avgs, size)[s] == WindowAfter(init2, avgs, size)[s]
      {
        if s != slot {
          assert s < k;
        }
      }
    }
  }

  /** The slot of round `i >= 1` lies inside the window. */
  lemma {:induction false} WindowSlot(i: nat, size: nat)
    requires i >= 1 && size > 0
    ensures 0 <= (i - 1) % size < size
    ensures i <= size ==> (i - 1) % size == i - 1
  {
  }

  // ---------------------------------------------------------------------------
  // The average of the best costs

  /** The sum of the entries of `s`. */
  function Total(s: seq<int>): int
  {
    if |s| == 0 then 0 else Total(s[..|s| - 1]) + s[|s| - 1]
  }

  /** The average of the `AVGELEMS` best costs, the first ones of the sorted
      cost vector. */
  function BestAverage(costs: seq<int>): real
    requires |costs| >= AVGELEMS
  {
    Total(costs[..AVGELEMS]) as real / AVGELEMS as real
  }

  /** A sum of entries none below `lo` is at least `|s|` times `lo`. */
  lemma {:induction false} TotalAtLeast(s: seq<int>, lo: int)
    requires forall k :: 0 <= k < |s| ==> lo <= s[k]
    ensures Total(s) >= |s| * lo
  {
    if |s| > 0 {
      TotalAtLeast(s[..|s| - 1], lo);
      assert |s| * lo == (|s| - 1) * lo + lo;
    }
  }

  /** The averaging loop of `genetic_tsp`'s generation loop: the average of the `AVGELEMS` best costs. */
  method AverageBest(generationCost: array<int>) returns (avg: real)
    requires AVGELEMS <= generationCost.Length
    ensures avg == BestAverage(generationCost[..])
  {
    avg := 0.0;
    for j := 0 to AVGELEMS
      invariant avg == Total(generationCost[..j]) as real
    {
      assert generationCost[..j + 1][..j] == generationCost[..j];
      avg := avg + generationCost[j] as real;
    }
    avg := avg / AVGELEMS as real;
  }

  /** With the costs sorted, the average is never below the best cost. */
  lemma {:induction false} AverageAtLeastBest(costs: seq<int>)
    requires |costs| >= AVGELEMS && Sorted(costs)
    ensures BestAverage(costs) >= costs[0] as real
  {
    TotalAtLeast(costs[..AVGELEMS], costs[0]);
  }

  // ---------------------------------------------------------------------------
  // Initialisation

  /** Swapping two cells of a written block swaps them in the block. */
  lemma {:induction false} OverwriteSwap(g: seq<int>, lo: nat, row: seq<int>, k: nat, j: nat)
    requires lo + |row| <= |g| && k < |row| && j < |row| && k != j
    ensures Overwrite(g, lo, row)[lo + k := row[j]][lo + j := row[k]] == Overwrite(g, lo, Mutate(row, Swapped(k, j)))
  {
    var lhs := Overwrite(g, lo, row)[lo + k := row[j]][lo + j := row[k]];
    var rhs := Overwrite(g, lo, Mutate(row, Swapped(k, j)));
    MutateSwaps(row, k, j);
    assert |lhs| == |rhs|;
    forall t | 0 <= t < |lhs| ensures lhs[t] == rhs[t] {
      if lo <= t < lo + |row| {
        assert rhs[t] == Mutate(row, Swapped(k, j))[t - lo];
      }
    }
  }

  /** `random_shuffle(a + lo, a + lo + n, myRand)` as libstdc++ implements it:
      position `k` from 1 on is swapped with position `myRand(k + 1)`.  The
      cells are rearranged and nothing outside them changes. */
  method RandomShuffle(a: array<int>, lo: nat, n: nat) returns (ghost row: seq<int>)
    requires lo + n <= a.Length
    modifies a
    ensures |row| == n && multiset(row) == multiset(old(a[lo .. lo + n]))
    ensures a[..] == Overwrite(old(a[..]), lo, row)
  {
    ghost var g := a[..];
    row := a[lo .. lo + n];
    assert a[..] == Overwrite(g, lo, row);
    if n == 0 {
      return;
    }
    var k := 1;
    while k < n
      invariant 1 <= k <= n && |row| == n
      invariant multiset(row) == multiset(old(a[lo .. lo + n]))
      invariant a[..] == Overwrite(g, lo, row)
    {
      var draw: nat := *;
      var j := MyRand(draw, k + 1);
      if k != j {
        assert a[lo + k] == row[k] && a[lo + j] == row[j];
        a[lo + k], a[lo + j] := a[lo + j], a[lo + k];
        OverwriteSwap(g, lo, row, k, j);
        MutateKeepsNodes(row, Swapped(k, j));
        row := Mutate(row, Swapped(k, j));
      }
      k := k + 1;
    }
  }

  /** One round of `genetic_tsp`'s initialisation loop: row `i` is set to the identity tour `0..numNodes-1` and
      then shuffled; the result is a permutation written over row `i`. */
  method InitialiseRow(generation: array<int>, i: nat, numNodes: nat, ghost population: nat)
      returns (ghost row: seq<int>)
    requires i < population && generation.Length == population * numNodes
    modifies generation
    ensures |row| == numNodes && IsPermutation(row, numNodes)
    ensures Start(i, numNodes) + numNodes <= generation.Length
    ensures generation[..] == Overwrite(old(generation[..]), Start(i, numNodes), row)
  {
    ghost var g := generation[..];
    StartIsProduct(population, numNodes);
    RowOffset(g, numNodes, i, population);
    var base := i * numNodes;
    for j := 0 to numNodes
      invariant forall t :: base <= t < base + j ==> generation[t] == t - base
      invariant forall t :: 0 <= t < generation.Length && !(base <= t < base + j) ==> generation[t] == g[t]
    {
      generation[i * numNodes + j] := j;
    }
    ghost var identity := generation[..];
    assert identity == Overwrite(g, base, Range(numNodes)) by {
      forall t | 0 <= t < numNodes ensures identity[base + t] == Range(numNodes)[t] {
        assert identity[base + t] == generation[base + t];
      }
      PointwiseOverwrite(identity, g, base, Range(numNodes));
    }
    assert generation[base .. base + numNodes] == Range(numNodes) by {
      OverwriteWritten(g, base, Range(numNodes));
    }
    row := RandomShuffle(generation, base, numNodes);
    OverwriteTwice(g, base, Range(numNodes), row);
  }

  /** Writing a permutation over row `i` of a table whose rows `0..i-1` are
      permutations makes rows `0..i` permutations. */
  lemma {:induction false} PermutationsExtended(g: seq<int>, h: seq<int>, n: nat, i: nat, row: seq<int>)
    requires RowsArePermutations(g, n, 0, i) && |row| == n && IsPermutation(row, n)
    requires Start(i, n) + n <= |g| && h == Overwrite(g, Start(i, n), row)
    ensures RowsArePermutations(h, n, 0, i + 1)
  {
    forall r | 0 <= r < i + 1 ensures IsPermutation(Row(h, n, r), n) {
      if r == i {
        OverwriteSameRow(g, n, i, row, h);
      } else {
        OverwriteOtherRow(g, n, i, row, r, h);
      }
    }
  }

  /** The initialisation loop of `genetic_tsp`: every row of the population becomes a shuffled identity
      tour, so every row is a permutation of the nodes. */
  method Initialise(generation: array<int>, population: nat, numNodes: nat)
    requires generation.Length == population * numNodes
    modifies generation
    ensures RowsArePermutations(generation[..], numNodes, 0, population)
  {
    for i := 0 to population
      invariant RowsArePermutations(generation[..], numNodes, 0, i)
    {
      ghost var g := generation[..];
      var row := InitialiseRow(generation, i, numNodes, population);
      PermutationsExtended(g, generation[..], numNodes, i, row);
    }
  }

  // ---------------------------------------------------------------------------
  // One round

  /** Ranking pairs every cost slot with the row it names: slot `k` holds
      the value slot `r[k]` had before the ranking plus the tour cost of row
      `r[k]`. */
  lemma {:induction false} RankedPaired(c: seq<int>, r: seq<int>, c0: seq<int>, g: seq<int>, costMatrix: seq<int>,
                                        numNodes: nat)
    requires numNodes >= 1 && |costMatrix| == numNodes * numNodes
    requires RowsInRange(g, numNodes, |c0|)
    requires Ranked(c, r, Accumulated(c0, g, costMatrix, numNodes))
    ensures |c| == |r| == |c0| && Sorted(c) && IsPermutation(r, |c0|)
    ensures forall k :: 0 <= k < |r| ==>
      0 <= r[k] < |c0| && c[k] == c0[r[k]] + TourCost(Row(g, numNodes, r[k]), costMatrix, numNodes)
  {
    forall k | 0 <= k < |r|
      ensures c[k] == c0[r[k]] + TourCost(Row(g, numNodes, r[k]), costMatrix, numNodes)
    {
      AccumulatedAt(c0, g, costMatrix, numNodes, r[k]);
    }
  }

  /** `rank_generation` over whole arrays, as the driver calls it: the two
      arrays are left ranked over the accumulated costs, so every slot is its
      old value at the named row plus that row's tour cost. */
  method RankCosts(generationRank: array<int>, generationCost: array<int>, generation: seq<int>,
                   costMatrix: seq<int>, numNodes: nat, population: nat, bestNum: nat)
    requires generationRank != generationCost
    requires generationRank.Length == population && generationCost.Length == population
    requires numNodes >= 1 && |costMatrix| == numNodes * numNodes
    requires RowsArePermutations(generation, numNodes, 0, population)
    modifies generationRank, generationCost
    ensures RowsInRange(generation, numNodes, population)
    ensures Ranked(generationCost[..], generationRank[..],
                   Accumulated(old(generationCost[..]), generation, costMatrix, numNodes))
  {
    ghost var c0 := generationCost[..];
    PermutationsInRange(generation, numNodes, population);
    RankGeneration(generationRank, generationCost, generation, costMatrix, numNodes, population, bestNum);
    assert generationCost[..population] == generationCost[..] && generationRank[..population] == generationRank[..];
    assert c0[..population] == c0;
  }

  /** The state the driver keeps after a ranking and selection: the elite
      rows `0..bestNum-1` are tours, the costs are sorted, the ranks are a
      permutation of the row numbers, and the cost of elite row `k` is the
      value its slot `ranks[k]` held before the ranking (`before`) plus the
      tour cost of that row. */
  ghost predicate Selected(g: seq<int>, costs: seq<int>, ranks: seq<int>, before: seq<int>, costMatrix: seq<int>,
                           numNodes: nat, bestNum: nat)
  {
    1 <= bestNum <= |costs| && numNodes >= 1 && |costMatrix| == numNodes * numNodes &&
    RowsArePermutations(g, numNodes, 0, bestNum) && RowsInRange(g, numNodes, bestNum) &&
    |ranks| == |before| == |costs| && Sorted(costs) && IsPermutation(ranks, |costs|) &&
    forall k :: 0 <= k < bestNum ==>
      0 <= ranks[k] < |before| && costs[k] == before[ranks[k]] + TourCost(Row(g, numNodes, k), costMatrix, numNodes)
  }

  /** `rank_generation` followed by `move_top`, as at gen_tsp_detailed.cpp's
      first ranking and at the ranking of every round: the population is
      ranked, and its `bestNum` best rows are moved, best first, to the front
      of the scratch buffer, which then becomes the current generation.
      Elite row `k` is the old row `generationRank[k]`, and its cost slot
      holds that row's accumulated cost. */
  method RankAndMoveTop(generationRank: array<int>, generationCost: array<int>, generation: array<int>,
                        generationCopy: array<int>, costMatrix: seq<int>, numNodes: nat, population: nat,
                        bestNum: nat)
      returns (newGeneration: array<int>, newCopy: array<int>)
    requires generation != generationCopy && generationRank != generationCost
    requires generationRank != generation && generationRank != generationCopy
    requires generationCost != generation && generationCost != generationCopy
    requires generationRank.Length == population && generationCost.Length == population
    requires generation.Length == population * numNodes && generationCopy.Length == population * numNodes
    requires 1 <= bestNum <= population && numNodes >= 1 && |costMatrix| == numNodes * numNodes
    requires RowsArePermutations(generation[..], numNodes, 0, population)
    modifies generationRank, generationCost, generationCopy
    ensures newGeneration == generationCopy && newCopy == generation
    ensures RowsInRange(generation[..], numNodes, population)
    ensures Ranked(generationCost[..], generationRank[..],
                   Accumulated(old(generationCost[..]), generation[..], costMatrix, numNodes))
    ensures forall k :: 0 <= k < bestNum ==>
      0 <= generationRank[k] < population &&
      Row(newGeneration[..], numNodes, k) == Row(generation[..], numNodes, generationRank[k])
    ensures Selected(newGeneration[..], generationCost[..], generationRank[..], old(generationCost[..]),
                     costMatrix, numNodes, bestNum)
  {
    ghost var g, c0 := generation[..], generationCost[..];
    RankCosts(generationRank, generationCost, generation[..], costMatrix, numNodes, population, bestNum);
    newGeneration, newCopy := MoveTop(generationRank, generation, generationCopy, numNodes, bestNum, population);
    ElitePaired(newGeneration[..], g, generationCost[..], generationRank[..], c0, costMatrix, numNodes, population,
                bestNum);
  }

  /** Rows moved to the front by `move_top` keep the cost slots the ranking
      paired them with. */
  lemma {:induction false} ElitePaired(h: seq<int>, g: seq<int>, costs: seq<int>, ranks: seq<int>, before: seq<int>,
                                       costMatrix: seq<int>, numNodes: nat, population: nat, bestNum: nat)
    requires 1 <= bestNum <= population && numNodes >= 1 && |costMatrix| == numNodes * numNodes
    requires RowsArePermutations(g, numNodes, 0, population) && RowsInRange(g, numNodes, population)
    requires |before| == population && Ranked(costs, ranks, Accumulated(before, g, costMatrix, numNodes))
    requires forall k :: 0 <= k < bestNum ==> Row(h, numNodes, k) == Row(g, numNodes, ranks[k])
    ensures Selected(h, costs, ranks, before, costMatrix, numNodes, bestNum)
  {
    RankedPaired(costs, ranks, before, g, costMatrix, numNodes);
    assert RowsArePermutations(h, numNodes, 0, bestNum) by {
      forall r | 0 <= r < bestNum ensures IsPermutation(Row(h, numNodes, r), numNodes) {
        assert Row(h, numNodes, r) == Row(g, numNodes, ranks[r]);
      }
    }
    PermutationsInRange(h, numNodes, bestNum);
  }

  /** One generation step from the table `g0`: its non-elite rows are
      replaced by `children`, bred from its elite with the draws `parents`
      and `mutations`, giving the table `bred`; `bred` is ranked over the
      cost slots `before` (`costs`, `ranks`), and elite row `k` of the new
      table `g` is row `ranks[k]` of `bred`. */
  ghost predicate Evolved(g0: seq<int>, bred: seq<int>, g: seq<int>, costs: seq<int>, ranks: seq<int>,
                          before: seq<int>, costMatrix: seq<int>, numNodes: nat, population: nat, bestNum: nat,
                          mutatProb: real, parents: seq<Parents>, mutations: seq<Mutation>,
                          children: seq<seq<int>>)
  {
    bestNum <= population && |parents| == |mutations| == |children| == population - bestNum &&
    BredFrom(g0, numNodes, bestNum, mutatProb, parents, mutations, children) &&
    RowsLong(children, numNodes) && bred == Filled(g0, numNodes, bestNum, children) &&
    numNodes >= 1 && |costMatrix| == numNodes * numNodes && |before| == population &&
    RowsInRange(bred, numNodes, population) &&
    Ranked(costs, ranks, Accumulated(before, bred, costMatrix, numNodes)) &&
    forall k :: 0 <= k < bestNum ==> 0 <= ranks[k] < population && Row(g, numNodes, k) == Row(bred, numNodes, ranks[k])
  }

  /** `generate` then `rank_generation` and `move_top`, the body of a round
      of gen_tsp_detailed.cpp's generation loop: the non-elite rows are bred
      anew from the elite (`bred` is the table so filled, left in `newCopy`),
      after which every row is a permutation again; the bred table is ranked
      and its elite moved to the front. */
  method NextGeneration(generationRank: array<int>, generationCost: array<int>, generation: array<int>,
                        generationCopy: array<int>, costMatrix: seq<int>, numNodes: nat, population: nat,
                        bestNum: nat, mutatProb: real)
      returns (newGeneration: array<int>, newCopy: array<int>, ghost parents: seq<Parents>,
               ghost mutations: seq<Mutation>, ghost children: seq<seq<int>>)
    requires generation != generationCopy && generationRank != generationCost
    requires generationRank != generation && generationRank != generationCopy
    requires generationCost != generation && generationCost != generationCopy
    requires generationRank.Length == population && generationCost.Length == population
    requires generation.Length == population * numNodes && generationCopy.Length == population * numNodes
    requires 2 <= bestNum <= population && numNodes >= 2 && |costMatrix| == numNodes * numNodes
    requires RowsArePermutations(generation[..], numNodes, 0, bestNum)
    modifies generation, generationRank, generationCost, generationCopy
    ensures newGeneration == generationCopy && newCopy == generation
    ensures Evolved(old(generation[..]), newCopy[..], newGeneration[..], generationCost[..], generationRank[..],
                    old(generationCost[..]), costMatrix, numNodes, population, bestNum, mutatProb, parents,
                    mutations, children)
    ensures Selected(newGeneration[..], generationCost[..], generationRank[..], old(generationCost[..]),
                     costMatrix, numNodes, bestNum)
  {
    ghost var g, c0 := generation[..], generationCost[..];
    StartIsProduct(population, numNodes);
    parents, mutations, children := Generate(generation, population, bestNum, numNodes, mutatProb);
    assert RowsArePermutations(generation[..], numNodes, 0, population) by {
      forall k | 0 <= k < |children| ensures IsPermutation(children[k], numNodes) {
        OffspringIsPermutation(g, numNodes, bestNum, parents[k], mutations[k]);
      }
      FilledPermutations(g, numNodes, bestNum, children, population);
    }
    newGeneration, newCopy :=
      RankAndMoveTop(generationRank, generationCost, generation, generationCopy, costMatrix, numNodes, population, bestNum);
    assert Evolved(g, newCopy[..], newGeneration[..], generationCost[..], generationRank[..], c0, costMatrix,
                   numNodes, population, bestNum, mutatProb, parents, mutations, children);
  }

  // ---------------------------------------------------------------------------
  // The cost slots are never reset

  /** `rank_generation` adds each row's tour cost to whatever its slot holds
      (`+=`), and nothing between two rankings resets the slots.  A ranking
      and selection that starts from a selected state with costs `c` and is
      paired with `c` (as `Round` promises) therefore reports a best cost at
      least `numNodes` above the previous one when all edge costs are
      positive: the reported best cost rises every round. */
  lemma {:induction false} BestCostRises(g: seq<int>, c: seq<int>, r: seq<int>, before: seq<int>, g2: seq<int>,
                                         c2: seq<int>, r2: seq<int>, costMatrix: seq<int>, numNodes: nat,
                                         bestNum: nat)
    requires Selected(g, c, r, before, costMatrix, numNodes, bestNum)
    requires Selected(g2, c2, r2, c, costMatrix, numNodes, bestNum)
    requires PositiveCosts(costMatrix, numNodes)
    ensures c2[0] >= c[0] + numNodes
  {
    var best := Row(g2, numNodes, 0);
    TourCostPositive(best, costMatrix, numNodes);
    if r2[0] != 0 {
      assert c[0] <= c[r2[0]];
    }
  }

  /** On two nodes the reported cost is the slot's earlier value plus twice
      the single edge; it is `2 * cm[1]` only when that earlier value is 0. */
  lemma {:induction false} TwoNodeReportedCost(g: seq<int>, c: seq<int>, r: seq<int>, before: seq<int>,
                                               costMatrix: seq<int>, bestNum: nat)
    requires Selected(g, c, r, before, costMatrix, 2, bestNum) && Symmetric(costMatrix, 2)
    ensures c[0] == before[r[0]] + 2 * costMatrix[1]
    ensures c[0] == 2 * costMatrix[1] <==> before[r[0]] == 0
  {
    TwoNodeTour(Row(g, 2, 0), costMatrix);
  }

  /** `population` cost slots holding 0. */
  function Zeros(population: nat): seq<int>
  {
    seq(population, _ => 0)
  }

  /** Every cost slot is set to 0. */
  method ResetCosts(generationCost: array<int>)
    modifies generationCost
    ensures generationCost[..] == Zeros(generationCost.Length)
  {
    for i := 0 to generationCost.Length
      invariant forall k :: 0 <= k < i ==> generationCost[k] == 0
    {
      generationCost[i] := 0;
    }
  }

  /** After a ranking the best cost is at most the accumulated cost of every
      row: each row's cost appears at some rank, and the costs are sorted. */
  lemma {:induction false} BestAtMost(c: seq<int>, r: seq<int>, acc: seq<int>, j: nat)
    requires Ranked(c, r, acc) && j < |acc|
    ensures c[0] <= acc[j]
  {
    RangeCount(|acc|, j);
    assert j in multiset(r);
    var k :| 0 <= k < |r| && r[k] == j;
    if k != 0 {
      assert c[0] <= c[k];
    }
  }

  /** Ranked from zeroed slots, each elite slot holds exactly its row's
      tour cost. */
  lemma {:induction false} SelectedFromZero(g: seq<int>, c: seq<int>, r: seq<int>, costMatrix: seq<int>,
                                            numNodes: nat, population: nat, bestNum: nat)
    requires Selected(g, c, r, Zeros(population), costMatrix, numNodes, bestNum)
    ensures forall k :: 0 <= k < bestNum ==> c[k] == TourCost(Row(g, numNodes, k), costMatrix, numNodes)
  {
    forall k | 0 <= k < bestNum
      ensures c[k] == TourCost(Row(g, numNodes, k), costMatrix, numNodes)
    {
      assert Zeros(population)[r[k]] == 0;
    }
  }

  /** The ranking as evidently intended: every slot is reset before the tour
      costs are added (the first `+=` of `rank_generation` read as `=`), then
      the population is ranked and its elite moved to the front.  Each elite
      cost slot is then exactly its row's tour cost. */
  method RankAndMoveTopFresh(generationRank: array<int>, generationCost: array<int>, generation: array<int>,
                             generationCopy: array<int>, costMatrix: seq<int>, numNodes: nat, population: nat,
                             bestNum: nat)
      returns (newGeneration: array<int>, newCopy: array<int>)
    requires generation != generationCopy && generationRank != generationCost
    requires generationRank != generation && generationRank != generationCopy
    requires generationCost != generation && generationCost != generationCopy
    requires generationRank.Length == population && generationCost.Length == population
    requires generation.Length == population * numNodes && generationCopy.Length == population * numNodes
    requires 1 <= bestNum <= population && numNodes >= 1 && |costMatrix| == numNodes * numNodes
    requires RowsArePermutations(generation[..], numNodes, 0, population)
    modifies generationRank, generationCost, generationCopy
    ensures newGeneration == generationCopy && newCopy == generation
    ensures RowsInRange(generation[..], numNodes, population)
    ensures Ranked(generationCost[..], generationRank[..],
                   Accumulated(Zeros(population), generation[..], costMatrix, numNodes))
    ensures forall k :: 0 <= k < bestNum ==>
      0 <= generationRank[k] < population &&
      Row(newGeneration[..], numNodes, k) == Row(generation[..], numNodes, generationRank[k])
    ensures Selected(newGeneration[..], generationCost[..], generationRank[..], Zeros(population), costMatrix,
                     numNodes, bestNum)
    ensures forall k :: 0 <= k < bestNum ==>
      generationCost[k] == TourCost(Row(newGeneration[..], numNodes, k), costMatrix, numNodes)
  {
    ResetCosts(generationCost);
    newGeneration, newCopy :=
      RankAndMoveTop(generationRank, generationCost, generation, generationCopy, costMatrix, numNodes, population,
                     bestNum);
    SelectedFromZero(newGeneration[..], generationCost[..], generationRank[..], costMatrix, numNodes, population,
                     bestNum);
  }
  /** With the slots reset before the ranking, the best cost reported on
      two nodes is the round trip over the single edge. */
  lemma {:induction false} FreshTwoNodeCost(g: seq<int>, c: seq<int>, r: seq<int>, costMatrix: seq<int>,
                                            population: nat, bestNum: nat)
    requires Selected(g, c, r, Zeros(population), costMatrix, 2, bestNum) && Symmetric(costMatrix, 2)
    ensures c[0] == 2 * costMatrix[1]
  {
    SelectedFromZero(g, c, r, costMatrix, 2, population, bestNum);
    TwoNodeTour(Row(g, 2, 0), costMatrix);
  }


  /** Elitism with the slots reset before every ranking: the elite rows
      `0..bestNum-1` survive breeding unchanged (`Filled` only writes later
      rows), so the best row of the last generation is still in the bred
      table, and the new best cost is at most the old one. */
  lemma {:induction false} FreshBestCostNeverRises(g: seq<int>, c: seq<int>, r: seq<int>, bred: seq<int>,
                                                   g2: seq<int>, c2: seq<int>, r2: seq<int>, costMatrix: seq<int>,
                                                   numNodes: nat, population: nat, bestNum: nat, mutatProb: real,
                                                   parents: seq<Parents>, mutations: seq<Mutation>,
                                                   children: seq<seq<int>>)
    requires |g| == population * numNodes
    requires Selected(g, c, r, Zeros(population), costMatrix, numNodes, bestNum)
    requires Evolved(g, bred, g2, c2, r2, Zeros(population), costMatrix, numNodes, population, bestNum, mutatProb,
                     parents, mutations, children)
    ensures |c2| == population && c2[0] <= c[0]
  {
    StartIsProduct(population, numNodes);
    FilledKeepsElite(g, numNodes, bestNum, children, 0);
    AccumulatedAt(Zeros(population), bred, costMatrix, numNodes, 0);
    BestAtMost(c2, r2, Accumulated(Zeros(population), bred, costMatrix, numNodes), 0);
  }

  // ---------------------------------------------------------------------------
  // The run

  /** The early-stop test of gen_tsp_detailed.cpp's generation loop for round
      `round`; the round count is tested first, so the deviation only ever
      sees a full window: no round before `earlyStopRounds` converges. */
  predicate Converged(window: seq<real>, round: nat, earlyStopRounds: nat, deviation: seq<real> -> real,
                      earlyStopParam: real): (r: bool)
    ensures r ==> round >= earlyStopRounds
  {
    round >= earlyStopRounds && deviation(window) <= earlyStopParam
  }

  /** The window as round `r` left it, the first `r` averages written. */
  ghost function WindowOfRound(init: seq<real>, avgs: seq<real>, r: nat, earlyStopRounds: nat): seq<real>
    requires |init| == earlyStopRounds > 0 && r <= |avgs|
  {
    WindowAfter(init, avgs[..r], earlyStopRounds)
  }

  /** No round among the first `|avgs|` passed the early-stop test. */
  ghost predicate NeverConverged(init: seq<real>, avgs: seq<real>, earlyStopRounds: nat,
                                 deviation: seq<real> -> real, earlyStopParam: real)
    requires |init| == earlyStopRounds > 0
  {
    forall r :: 0 < r <= |avgs| ==>
      !Converged(WindowOfRound(init, avgs, r, earlyStopRounds), r, earlyStopRounds, deviation, earlyStopParam)
  }

  /** A failed test extends a run that had not converged. */
  lemma {:induction false} NeverConvergedSnoc(init: seq<real>, avgs: seq<real>, avg: real, earlyStopRounds: nat,
                           deviation: seq<real> -> real, earlyStopParam: real)
    requires |init| == earlyStopRounds > 0
    requires NeverConverged(init, avgs, earlyStopRounds, deviation, earlyStopParam)
    requires !Converged(WindowAfter(init, avgs + [avg], earlyStopRounds), |avgs| + 1, earlyStopRounds, deviation,
                        earlyStopParam)
    ensures NeverConverged(init, avgs + [avg], earlyStopRounds, deviation, earlyStopParam)
  {
    var next := avgs + [avg];
    forall r | 0 < r <= |next|
      ensures !Converged(WindowOfRound(init, next, r, earlyStopRounds), r, earlyStopRounds, deviation, earlyStopParam)
    {
      if r <= |avgs| {
        assert next[..r] == avgs[..r];
        assert WindowOfRound(init, next, r, earlyStopRounds) == WindowOfRound(init, avgs, r, earlyStopRounds);
      } else {
        assert next[..r] == next;
      }
    }
  }

  /** The window write of round `i` of gen_tsp_detailed.cpp's generation
      loop: its average goes into slot `(i - 1) % earlyStopRounds`. */
  method RecordAverage(lastRounds: array<real>, i: nat, avg: real, ghost init: seq<real>, ghost averages: seq<real>)
    requires i == |averages| + 1 && |init| == lastRounds.Length > 0
    requires lastRounds[..] == WindowAfter(init, averages, lastRounds.Length)
    modifies lastRounds
    ensures lastRounds[..] == WindowAfter(init, averages + [avg], lastRounds.Length)
  {
    WindowSlot(i, lastRounds.Length);
    lastRounds[(i - 1) % lastRounds.Length] := avg;
    assert (averages + [avg])[..|averages|] == averages;
  }

  /** Round `i` of gen_tsp_detailed.cpp's generation loop: the non-elite
      rows are bred anew from the old elite (`children`, drawn as `parents`
      and `mutations`; the bred table is left in `newCopy`), the bred table
      is ranked and its elite moved to the front, the average of the
      `AVGELEMS` best costs goes into window slot `(i - 1) % earlyStopRounds`,
      and the early-stop test is run (`stop`).  The selected state is kept,
      paired with the cost slots as they stood when the round began. */
  method Round(generationRank: array<int>, generationCost: array<int>, generation: array<int>,
               generationCopy: array<int>, lastRounds: array<real>, costMatrix: seq<int>,
               numNodes: nat, population: nat, bestNum: nat, mutatProb: real, earlyStopParam: real,
               deviation: seq<real> -> real, i: nat, ghost init: seq<real>, ghost averages: seq<real>,
               ghost before: seq<int>)
      returns (newGeneration: array<int>, newCopy: array<int>, avg: real, stop: bool, ghost parents: seq<Parents>,
               ghost mutations: seq<Mutation>, ghost children: seq<seq<int>>)
    requires generation != generationCopy && generationRank != generationCost
    requires generationRank != generation && generationRank != generationCopy
    requires generationCost != generation && generationCost != generationCopy
    requires generationRank.Length == population && generationCost.Length == population
    requires generation.Length == population * numNodes && generationCopy.Length == population * numNodes
    requires 2 <= bestNum <= population && AVGELEMS <= population && numNodes >= 2
    requires Selected(generation[..], generationCost[..], generationRank[..], before, costMatrix, numNodes, bestNum)
    requires i == |averages| + 1 && |init| == lastRounds.Length > 0
    requires lastRounds[..] == WindowAfter(init, averages, lastRounds.Length)
    modifies generation, generationRank, generationCost, generationCopy, lastRounds
    ensures newGeneration == generationCopy && newCopy == generation
    ensures Evolved(old(generation[..]), newCopy[..], newGeneration[..], generationCost[..], generationRank[..],
                    old(generationCost[..]), costMatrix, numNodes, population, bestNum, mutatProb, parents,
                    mutations, children)
    ensures Selected(newGeneration[..], generationCost[..], generationRank[..], old(generationCost[..]),
                     costMatrix, numNodes, bestNum)
    ensures avg == BestAverage(generationCost[..])
    ensures lastRounds[..] == WindowAfter(init, averages + [avg], lastRounds.Length)
    ensures stop == Converged(lastRounds[..], i, lastRounds.Length, deviation, earlyStopParam)
  {
    newGeneration, newCopy, parents, mutations, children :=
      NextGeneration(generationRank, generationCost, generation, generationCopy, costMatrix, numNodes,
                     population, bestNum, mutatProb);
    avg := AverageBest(generationCost);
    RecordAverage(lastRounds, i, avg, init, averages);
    stop := i >= lastRounds.Length && deviation(lastRounds[..]) <= earlyStopParam;
  }
  /** One generation of the run, with its draws left unnamed: `t1` and `c1`
      are the elite rows and cost slots that breeding from `t0`, ranking on
      top of `c0` and moving the best to the front leave behind. */
  ghost predicate RoundStep(t0: seq<int>, c0: seq<int>, t1: seq<int>, c1: seq<int>, costMatrix: seq<int>,
                            numNodes: nat, population: nat, bestNum: nat, mutatProb: real)
  {
    exists bred: seq<int>, ranks: seq<int>, parents: seq<Parents>, mutations: seq<Mutation>,
           children: seq<seq<int>> ::
      Evolved(t0, bred, t1, c1, ranks, c0, costMatrix, numNodes, population, bestNum, mutatProb, parents,
              mutations, children)
  }
  /** Round `j` of a run history: table `j + 1` and cost slots `j + 1` come
      from table `j` and cost slots `j` by one generation, and the recorded
      average is that of the new best slots. */
  ghost predicate RoundAt(tables: seq<seq<int>>, costHist: seq<seq<int>>, averages: seq<real>, j: nat,
                          costMatrix: seq<int>, numNodes: nat, population: nat, bestNum: nat, mutatProb: real)
    requires |tables| == |costHist| == |averages| + 1 && j < |averages|
  {
    RoundStep(tables[j], costHist[j], tables[j + 1], costHist[j + 1], costMatrix, numNodes, population, bestNum,
              mutatProb) &&
    |costHist[j + 1]| >= AVGELEMS && averages[j] == BestAverage(costHist[j + 1])
  }
  /** The tables and cost slots a run has gone through, one more than the
      averages it has recorded, each round bred from the one before. */
  ghost predicate RunHistory(tables: seq<seq<int>>, costHist: seq<seq<int>>, averages: seq<real>,
                             costMatrix: seq<int>, numNodes: nat, population: nat, bestNum: nat, mutatProb: real)
  {
    |tables| == |costHist| == |averages| + 1 &&
    forall j: nat :: j < |averages| ==>
      RoundAt(tables, costHist, averages, j, costMatrix, numNodes, population, bestNum, mutatProb)
  }
  /** A history grows by one round bred from its last entry. */
  lemma RunHistorySnoc(tables: seq<seq<int>>, costHist: seq<seq<int>>, averages: seq<real>,
                       t: seq<int>, c: seq<int>, avg: real, costMatrix: seq<int>,
                       numNodes: nat, population: nat, bestNum: nat, mutatProb: real)
    requires RunHistory(tables, costHist, averages, costMatrix, numNodes, population, bestNum, mutatProb)
    requires RoundStep(tables[|tables| - 1], costHist[|costHist| - 1], t, c, costMatrix, numNodes, population,
                       bestNum, mutatProb)
    requires |c| >= AVGELEMS && avg == BestAverage(c)
    ensures RunHistory(tables + [t], costHist + [c], averages + [avg], costMatrix, numNodes, population, bestNum,
                       mutatProb)
  {
    var tables', costHist', averages' := tables + [t], costHist + [c], averages + [avg];
    forall j: nat | j < |averages'|
      ensures RoundAt(tables', costHist', averages', j, costMatrix, numNodes, population, bestNum, mutatProb)
    {
      if j < |averages| {
        assert RoundAt(tables, costHist, averages, j, costMatrix, numNodes, population, bestNum, mutatProb);
        assert tables'[j] == tables[j] && tables'[j + 1] == tables[j + 1];
        assert costHist'[j] == costHist[j] && costHist'[j + 1] == costHist[j + 1];
      } else {
        assert tables'[j] == tables[|tables| - 1] && costHist'[j] == costHist[|costHist| - 1];
      }
    }
  }
  /** A run so far, as the generation loop sees it: a history from `t0`
      and `c0` whose last table and cost slots are `t` and `c`, the last
      ranking having been made on top of `before`. */
  ghost predicate RunSoFar(tables: seq<seq<int>>, costHist: seq<seq<int>>, averages: seq<real>, t0: seq<int>,
                           c0: seq<int>, t: seq<int>, c: seq<int>, before: seq<int>, costMatrix: seq<int>,
                           numNodes: nat, population: nat, bestNum: nat, mutatProb: real)
  {
    RunHistory(tables, costHist, averages, costMatrix, numNodes, population, bestNum, mutatProb) &&
    tables[0] == t0 && costHist[0] == c0 && tables[|averages|] == t && costHist[|averages|] == c &&
    (|averages| > 0 ==> costHist[|averages| - 1] == before)
  }
  /** A run so far grows by one round bred from its last table. */
  lemma RunSoFarSnoc(tables: seq<seq<int>>, costHist: seq<seq<int>>, averages: seq<real>, t0: seq<int>,
                     c0: seq<int>, t: seq<int>, c: seq<int>, before: seq<int>, t': seq<int>, c': seq<int>,
                     avg: real, costMatrix: seq<int>, numNodes: nat, population: nat, bestNum: nat,
                     mutatProb: real)
    requires RunSoFar(tables, costHist, averages, t0, c0, t, c, before, costMatrix, numNodes, population, bestNum,
                      mutatProb)
    requires RoundStep(t, c, t', c', costMatrix, numNodes, population, bestNum, mutatProb)
    requires |c'| >= AVGELEMS && avg == BestAverage(c')
    ensures RunSoFar(tables + [t'], costHist + [c'], averages + [avg], t0, c0, t', c', c, costMatrix, numNodes,
                     population, bestNum, mutatProb)
  {
    RunHistorySnoc(tables, costHist, averages, t', c', avg, costMatrix, numNodes, population, bestNum, mutatProb);
  }
  /** Round `i` as the generation loop carries it forward: the selected
      state, paired with the cost slots as they stood when the round began,
      the round's average, the window and the early-stop test, which fails
      only on a run that had not converged before.  The run so far grows by
      this round: its new table and cost slots are bred, ranked and selected
      from the last ones. */
  method RoundInRun(generationRank: array<int>, generationCost: array<int>, generation: array<int>,
                    generationCopy: array<int>, lastRounds: array<real>, costMatrix: seq<int>,
                    numNodes: nat, population: nat, bestNum: nat, mutatProb: real, earlyStopParam: real,
                    deviation: seq<real> -> real, i: nat, ghost init: seq<real>, ghost averages: seq<real>,
                    ghost before: seq<int>, ghost tables: seq<seq<int>>, ghost costHist: seq<seq<int>>,
                    ghost t0: seq<int>, ghost c0: seq<int>)
      returns (newGeneration: array<int>, newCopy: array<int>, avg: real, stop: bool)
    requires generation != generationCopy && generationRank != generationCost
    requires generationRank != generation && generationRank != generationCopy
    requires generationCost != generation && generationCost != generationCopy
    requires generationRank.Length == population && generationCost.Length == population
    requires generation.Length == population * numNodes && generationCopy.Length == population * numNodes
    requires 2 <= bestNum <= population && AVGELEMS <= population && numNodes >= 2
    requires Selected(generation[..], generationCost[..], generationRank[..], before, costMatrix, numNodes, bestNum)
    requires i == |averages| + 1 && |init| == lastRounds.Length > 0
    requires lastRounds[..] == WindowAfter(init, averages, lastRounds.Length)
    requires NeverConverged(init, averages, lastRounds.Length, deviation, earlyStopParam)
    requires RunSoFar(tables, costHist, averages, t0, c0, generation[..], generationCost[..], before, costMatrix,
                      numNodes, population, bestNum, mutatProb)
    modifies generation, generationRank, generationCost, generationCopy, lastRounds
    ensures newGeneration == generationCopy && newCopy == generation
    ensures RunSoFar(tables + [newGeneration[..]], costHist + [generationCost[..]], averages + [avg], t0, c0,
                     newGeneration[..], generationCost[..], old(generationCost[..]), costMatrix, numNodes,
                     population, bestNum, mutatProb)
    ensures Selected(newGeneration[..], generationCost[..], generationRank[..], old(generationCost[..]), costMatrix,
                     numNodes, bestNum)
    ensures avg == BestAverage(generationCost[..])
    ensures lastRounds[..] == WindowAfter(init, averages + [avg], lastRounds.Length)
    ensures stop == Converged(lastRounds[..], i, lastRounds.Length, deviation, earlyStopParam)
    ensures !stop ==> NeverConverged(init, averages + [avg], lastRounds.Length, deviation, earlyStopParam)
  {
    ghost var parents, mutations, children;
    ghost var g, c := generation[..], generationCost[..];
    newGeneration, newCopy, avg, stop, parents, mutations, children :=
      Round(generationRank, generationCost, generation, generationCopy, lastRounds, costMatrix, numNodes,
            population, bestNum, mutatProb, earlyStopParam, deviation, i, init, averages, before);
    assert Evolved(g, newCopy[..], newGeneration[..], generationCost[..], generationRank[..], c, costMatrix,
                   numNodes, population, bestNum, mutatProb, parents, mutations, children);
    RunSoFarSnoc(tables, costHist, averages, t0, c0, g, c, before, newGeneration[..], generationCost[..], avg,
                 costMatrix, numNodes, population, bestNum, mutatProb);
    if !stop {
      NeverConvergedSnoc(init, averages, avg, lastRounds.Length, deviation, earlyStopParam);
    }
  }



  /** The closing copy of `genetic_tsp`: row 0 of the current generation and
      its cost are copied into the solution, and the flag cell receives the
      convergence flag.
      The packed tour is row 0, a tour of all nodes, and the packed cost is
      that row's cost slot: the slot's value before the ranking plus the
      tour's cost. */
  method PackSolution(solution: array<int>, generation: array<int>, generationCost: array<int>,
                      costMatrix: seq<int>, numNodes: nat, population: nat, ghost bestNum: nat,
                      ghost ranks: seq<int>, ghost before: seq<int>, flag: int)
      returns (packed: seq<int>)
    requires solution != generation && solution != generationCost && solution.Length == numNodes + 2
    requires generation.Length == population * numNodes && population >= 1
    requires Selected(generation[..], generationCost[..], ranks, before, costMatrix, numNodes, bestNum)
    modifies solution
    ensures packed == solution[..] && |packed| == numNodes + 2
    ensures packed[..numNodes] == Row(generation[..], numNodes, 0)
    ensures IsPermutation(packed[..numNodes], numNodes) && InRange(packed[..numNodes], numNodes)
    ensures packed[numNodes] == generationCost[0]
    ensures 0 <= ranks[0] < |before| &&
            packed[numNodes] == before[ranks[0]] + TourCost(packed[..numNodes], costMatrix, numNodes)
    ensures packed[numNodes + 1] == flag
  {
    CopyRow(generation, 0, solution, 0, numNodes);
    solution[numNodes] := generationCost[0];
    solution[numNodes + 1] := flag;
    packed := solution[..];
    FirstRow(generation[..], packed, numNodes, population);
    PermutationInRange(packed[..numNodes], numNodes);
  }

  /** The first `numNodes` cells of a buffer of `population` rows are its
      row 0. */
  lemma {:induction false} FirstRow(g: seq<int>, s: seq<int>, numNodes: nat, population: nat)
    requires |g| == population * numNodes && population >= 1
    requires numNodes <= |s| && s[..numNodes] == g[..numNodes]
    ensures s[..numNodes] == Row(g, numNodes, 0)
  {
    StartIsProduct(population, numNodes);
    RowAt(g, numNodes, 0, population);
  }

  /** The start of `genetic_tsp`: the buffers are allocated, every row is
      set to a random tour, and the population is ranked and its elite moved
      to the front.  The shuffled table is left in `generationCopy`; elite
      row `k` is its row `generationRank[k]`, paired with the cost slots as
      allocated (`before`). */
  method Setup(costMatrix: seq<int>, numNodes: nat, population: nat, bestNum: nat)
      returns (generation: array<int>, generationCopy: array<int>, generationCost: array<int>,
               generationRank: array<int>, ghost before: seq<int>)
    requires 1 <= bestNum <= population && numNodes >= 1 && |costMatrix| == numNodes * numNodes
    ensures fresh(generation) && fresh(generationCopy) && fresh(generationCost) && fresh(generationRank)
    ensures generation != generationCopy && generationRank != generationCost
    ensures generationRank != generation && generationRank != generationCopy
    ensures generationCost != generation && generationCost != generationCopy
    ensures generationRank.Length == population && generationCost.Length == population
    ensures generation.Length == population * numNodes && generationCopy.Length == population * numNodes
    ensures RowsArePermutations(generationCopy[..], numNodes, 0, population)
    ensures RowsInRange(generationCopy[..], numNodes, population) && |before| == population
    ensures Ranked(generationCost[..], generationRank[..], Accumulated(before, generationCopy[..], costMatrix, numNodes))
    ensures forall k :: 0 <= k < bestNum ==>
      0 <= generationRank[k] < population &&
      Row(generation[..], numNodes, k) == Row(generationCopy[..], numNodes, generationRank[k])
    ensures Selected(generation[..], generationCost[..], generationRank[..], before, costMatrix, numNodes, bestNum)
  {
    generation := new int[population * numNodes];
    generationCopy := new int[population * numNodes];
    generationCost := new int[population];
    generationRank := new int[population];
    Initialise(generation, population, numNodes);
    before := generationCost[..];
    generation, generationCopy :=
      RankAndMoveTop(generationRank, generationCost, generation, generationCopy, costMatrix, numNodes, population, bestNum);
  }

  /** The generation loop of `genetic_tsp`.  Rounds `1..maxIt` run one after
      the other; the loop stops at the first round whose early-stop test
      passes (`converged`), having run `rounds` rounds whose averages are
      `averages`.  The two generation buffers may have traded places; the
      final state is selected, paired with the cost slots as they stood
      before the last ranking (`newBefore`).  `tables` and `costHist` record
      the run: they start from the generation and cost slots passed in, end
      at the final ones, and each round is one generation bred from the
      round before. */
  method Evolve(generationRank: array<int>, generationCost: array<int>, generation: array<int>,
                generationCopy: array<int>, lastRounds: array<real>, costMatrix: seq<int>, numNodes: nat,
                population: nat, bestNum: nat, mutatProb: real, maxIt: nat, earlyStopParam: real,
                deviation: seq<real> -> real, ghost init: seq<real>, ghost before: seq<int>)
      returns (newGeneration: array<int>, newCopy: array<int>, converged: bool, ghost rounds: nat,
               ghost averages: seq<real>, ghost newBefore: seq<int>, ghost tables: seq<seq<int>>,
               ghost costHist: seq<seq<int>>)
    requires generation != generationCopy && generationRank != generationCost
    requires generationRank != generation && generationRank != generationCopy
    requires generationCost != generation && generationCost != generationCopy
    requires generationRank.Length == population && generationCost.Length == population
    requires generation.Length == population * numNodes && generationCopy.Length == population * numNodes
    requires 2 <= bestNum <= population && AVGELEMS <= population && numNodes >= 2
    requires 0 < lastRounds.Length <= maxIt && lastRounds[..] == init
    requires Selected(generation[..], generationCost[..], generationRank[..], before, costMatrix, numNodes, bestNum)
    modifies generation, generationRank, generationCost, generationCopy, lastRounds
    ensures (newGeneration == generation && newCopy == generationCopy) ||
            (newGeneration == generationCopy && newCopy == generation)
    ensures Selected(newGeneration[..], generationCost[..], generationRank[..], newBefore, costMatrix, numNodes,
                     bestNum)
    ensures 1 <= rounds <= maxIt && |averages| == rounds
    ensures RunSoFar(tables, costHist, averages, old(generation[..]), old(generationCost[..]), newGeneration[..],
                     generationCost[..], newBefore, costMatrix, numNodes, population, bestNum, mutatProb)
    ensures averages[rounds - 1] == BestAverage(generationCost[..])
    ensures lastRounds[..] == WindowAfter(init, averages, lastRounds.Length)
    ensures converged ==>
      NeverConverged(init, averages[..rounds - 1], lastRounds.Length, deviation, earlyStopParam) &&
      Converged(lastRounds[..], rounds, lastRounds.Length, deviation, earlyStopParam)
    ensures !converged ==>
      NeverConverged(init, averages, lastRounds.Length, deviation, earlyStopParam) && rounds == maxIt
  {
    newGeneration, newCopy, newBefore := generation, generationCopy, before;
    converged, rounds, averages := false, 0, [];
    tables, costHist := [generation[..]], [generationCost[..]];
    ghost var g0, c0 := generation[..], generationCost[..];
    var i := 1;
    while i <= maxIt
      invariant 1 <= i <= maxIt + 1 && rounds == i - 1 && |averages| == rounds
      invariant (newGeneration == generation && newCopy == generationCopy) ||
                (newGeneration == generationCopy && newCopy == generation)
      invariant Selected(newGeneration[..], generationCost[..], generationRank[..], newBefore, costMatrix, numNodes,
                         bestNum)
      invariant rounds > 0 ==> averages[rounds - 1] == BestAverage(generationCost[..])
      invariant lastRounds[..] == WindowAfter(init, averages, lastRounds.Length)
      invariant NeverConverged(init, averages, lastRounds.Length, deviation, earlyStopParam)
      invariant RunSoFar(tables, costHist, averages, g0, c0, newGeneration[..], generationCost[..], newBefore,
                         costMatrix, numNodes, population, bestNum, mutatProb)
    {
      var avg, stop;
      ghost var costs := generationCost[..];
      newGeneration, newCopy, avg, stop :=
        RoundInRun(generationRank, generationCost, newGeneration, newCopy, lastRounds, costMatrix, numNodes,
                   population, bestNum, mutatProb, earlyStopParam, deviation, i, init, averages, newBefore,
                   tables, costHist, g0, c0);
      assert Selected(newGeneration[..], generationCost[..], generationRank[..], costs, costMatrix, numNodes, bestNum);
      newBefore := costs;
      averages, rounds := averages + [avg], i;
      tables, costHist := tables + [newGeneration[..]], costHist + [generationCost[..]];
      if stop {
        converged := true;
        break;
      }
      i := i + 1;
    }
  }

  /** The search of `genetic_tsp`, up to the packing of the solution: the
      population is set up, ranked and selected; no round runs when the
      whole population is elite; otherwise rounds run until the first whose
      early-stop test passes (`converged`) or until `maxIt` rounds have run.
      The current generation comes back selected, paired with the cost slots
      as they stood before the last ranking (`before`).  `tables` and
      `costHist` record the generations and cost slots the run went through,
      from the first ranking to the last, each round bred from the one
      before. */
  method Search(costMatrix: seq<int>, numNodes: nat, population: nat, bestNum: nat, mutatProb: real, maxIt: nat,
                earlyStopRounds: nat, earlyStopParam: real, deviation: seq<real> -> real)
      returns (generation: array<int>, generationCost: array<int>, converged: bool, ghost rounds: nat,
               ghost averages: seq<real>, ghost init: seq<real>, ghost ranks: seq<int>, ghost before: seq<int>,
               ghost tables: seq<seq<int>>, ghost costHist: seq<seq<int>>)
    requires 1 <= bestNum <= population && AVGELEMS <= population && numNodes >= 2
    requires |costMatrix| == numNodes * numNodes && 0 < earlyStopRounds <= maxIt
    requires bestNum == population || bestNum >= 2
    ensures fresh(generation) && fresh(generationCost) && generation != generationCost
    ensures generation.Length == population * numNodes && generationCost.Length == population
    ensures Selected(generation[..], generationCost[..], ranks, before, costMatrix, numNodes, bestNum)
    ensures rounds <= maxIt && |averages| == rounds && |init| == earlyStopRounds
    ensures rounds == 0 <==> bestNum == population
    ensures |tables| == |costHist| == rounds + 1
    ensures RunHistory(tables, costHist, averages, costMatrix, numNodes, population, bestNum, mutatProb)
    ensures tables[rounds] == generation[..] && costHist[rounds] == generationCost[..]
    ensures rounds > 0 ==> before == costHist[rounds - 1]
    ensures rounds > 0 ==> averages[rounds - 1] == BestAverage(generationCost[..])
    ensures converged ==>
      rounds > 0 && NeverConverged(init, averages[..rounds - 1], earlyStopRounds, deviation, earlyStopParam) &&
      Converged(WindowAfter(init, averages, earlyStopRounds), rounds, earlyStopRounds, deviation, earlyStopParam)
    ensures !converged ==>
      NeverConverged(init, averages, earlyStopRounds, deviation, earlyStopParam) && (rounds == 0 || rounds == maxIt)
  {
    var lastRounds := new real[earlyStopRounds];
    init := lastRounds[..];
    var generationCopy, generationRank;
    generation, generationCopy, generationCost, generationRank, before :=
      Setup(costMatrix, numNodes, population, bestNum);
    converged := false;
    rounds, averages := 0, [];
    tables, costHist := [generation[..]], [generationCost[..]];

    // With the whole population elite no round runs and the first ranking
    // is the answer; otherwise the generation loop runs first.
    if population != bestNum {
      generation, generationCopy, converged, rounds, averages, before, tables, costHist :=
        Evolve(generationRank, generationCost, generation, generationCopy, lastRounds, costMatrix, numNodes,
               population, bestNum, mutatProb, maxIt, earlyStopParam, deviation, init, before);
    }
    ranks := generationRank[..];
  }

  /** `genetic_tsp`: the returned solution holds row 0 of the final
      generation `table`, which is a tour of all `numNodes` nodes, then its
      cost slot, which is the best of the sorted `costs` and equals the
      slot's value before the final ranking (`before[ranks[0]]`) plus the
      tour's cost, then the convergence flag.  `before` is deliberately
      left unconstrained: the slots start uninitialised and every ranking
      adds to them, so `before[ranks[0]]` is that initial content plus the
      tour costs of earlier rounds.  Every elite row is paired in the same
      way with its cost.  No round runs when the whole population is
      elite; otherwise rounds run until the first whose early-stop test
      passes, which sets the flag, or until `maxIt` rounds have run.  The
      window holds the average of the five best costs of each round, in slot
      `(round - 1) % earlyStopRounds`, over the buffer's initial contents
      `init`.  `deviation` stands for the standard deviation of the
      window.  The mutation percentile is `mutatProb * 100` truncated.
      `tables` and `costHist` record the run, one generation per round,
      ending at `table` and `costs`. */
  method GeneticTsp(numThreads: int, costMatrix: seq<int>, numNodes: nat, population: nat, top: real,
                    maxIt: nat, mutatProb: real, earlyStopRounds: nat, earlyStopParam: real,
                    deviation: seq<real> -> real)
      returns (solution: seq<int>, ghost rounds: nat, ghost averages: seq<real>, ghost init: seq<real>,
               ghost table: seq<int>, ghost costs: seq<int>, ghost ranks: seq<int>, ghost before: seq<int>,
               ghost tables: seq<seq<int>>, ghost costHist: seq<seq<int>>)
    requires ValidArguments(numThreads, numNodes, population, top, maxIt, mutatProb, earlyStopRounds, earlyStopParam)
    requires |costMatrix| == numNodes * numNodes
    requires BestNum(population, top) == population || BestNum(population, top) >= 2
    ensures |solution| == numNodes + 2
    ensures Selected(table, costs, ranks, before, costMatrix, numNodes, BestNum(population, top))
    ensures |costs| == population && |table| == population * numNodes
    ensures solution[..numNodes] == Row(table, numNodes, 0)
    ensures IsPermutation(solution[..numNodes], numNodes) && InRange(solution[..numNodes], numNodes)
    ensures solution[numNodes] == costs[0]
    ensures 0 <= ranks[0] < |before| &&
            solution[numNodes] == before[ranks[0]] + TourCost(solution[..numNodes], costMatrix, numNodes)
    ensures rounds <= maxIt && |averages| == rounds && |init| == earlyStopRounds
    ensures rounds == 0 <==> BestNum(population, top) == population
    ensures |tables| == |costHist| == rounds + 1
    ensures RunHistory(tables, costHist, averages, costMatrix, numNodes, population, BestNum(population, top),
                       (mutatProb * 100.0).Floor as real / 100.0)
    ensures tables[rounds] == table && costHist[rounds] == costs
    ensures rounds > 0 ==> before == costHist[rounds - 1]
    ensures rounds > 0 ==> averages[rounds - 1] == BestAverage(costs)
    ensures solution[numNodes + 1] == 0 || solution[numNodes + 1] == 1
    ensures solution[numNodes + 1] == 1 ==>
      rounds > 0 && NeverConverged(init, averages[..rounds - 1], earlyStopRounds, deviation, earlyStopParam) &&
      Converged(WindowAfter(init, averages, earlyStopRounds), rounds, earlyStopRounds, deviation, earlyStopParam)
    ensures solution[numNodes + 1] == 0 ==>
      NeverConverged(init, averages, earlyStopRounds, deviation, earlyStopParam) && (rounds == 0 || rounds == maxIt)
  {
    var bestNum := BestNum(population, top);
    var probCentile := (mutatProb * 100.0).Floor;
    var generation, generationCost, converged;
    generation, generationCost, converged, rounds, averages, init, ranks, before, tables, costHist :=
      Search(costMatrix, numNodes, population, bestNum, probCentile as real / 100.0, maxIt, earlyStopRounds,
             earlyStopParam, deviation);
    table, costs := generation[..], generationCost[..];
    var solutionArr := new int[numNodes + 2];
    solution := PackSolution(solutionArr, generation, generationCost, costMatrix, numNodes, population, bestNum,
                             ranks, before, if converged then 1 else 0);
  }
}
