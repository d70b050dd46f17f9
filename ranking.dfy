/** Ranking of a generation (`rank_generation`): every row's closed-tour
    cost is added to its cost slot, the index array is reset to the row
    numbers, and the two arrays are sorted together by cost.  Afterwards slot
    `k` of the cost array holds the accumulated cost of row `rank[k]`, the
    costs are non-decreasing and the ranks are a permutation of the row
    numbers. */
module Ranking {
  import opened Tours
  import opened RankSort

  /** The cost slots after accumulation: slot `k` gets the tour cost of row
      `k` of `g` added to it. */
  function Accumulated(c: seq<int>, g: seq<int>, cm: seq<int>, n: nat): (r: seq<int>)
    requires n >= 1 && |cm| == n * n && RowsInRange(g, n, |c|)
    ensures |r| == |c|
  {
    if |c| == 0 then []
    else Accumulated(c[..|c| - 1], g, cm, n) + [c[|c| - 1] + TourCost(Row(g, n, |c| - 1), cm, n)]
  }

  /** Slot `k` after accumulation is the old slot plus the tour cost of row
      `k`. */
  lemma {:induction false} AccumulatedAt(c: seq<int>, g: seq<int>, cm: seq<int>, n: nat, k: nat)
    requires n >= 1 && |cm| == n * n && RowsInRange(g, n, |c|) && k < |c|
    ensures Accumulated(c, g, cm, n)[k] == c[k] + TourCost(Row(g, n, k), cm, n)
  {
    if k < |c| - 1 {
      AccumulatedAt(c[..|c| - 1], g, cm, n, k);
    }
  }

  /** A pair of the ranked input `Entries(acc, Range(|acc|))` names its own
      slot: its index is a row number and its cost is that row's entry. */
  ghost predicate Consistent(s: seq<Scored>, acc: seq<int>)
  {
    forall k :: 0 <= k < |s| ==> 0 <= s[k].idx < |acc| && s[k].cost == acc[s[k].idx]
  }

  /** In a consistent sequence the index `v` stands for the one pair
      `Scored(acc[v], v)`, so counting indices counts pairs. */
  lemma {:induction false} IndicesCount(s: seq<Scored>, acc: seq<int>, v: int)
    requires Consistent(s, acc)
    ensures multiset(Indices(s))[v]
         == if 0 <= v < |acc| then multiset(s)[Scored(acc[v], v)] else 0
  {
    if |s| > 0 {
      var init := s[..|s| - 1];
      assert s == init + [s[|s| - 1]];
      IndicesCount(init, acc, v);
    }
  }

  lemma {:induction false} IndicesOfEntries(c: seq<int>, r: seq<int>)
    requires |c| == |r|
    ensures Indices(Entries(c, r)) == r
  {
  }

  /** Every pair of the ranked input is the cost of the row it names. */
  lemma {:induction false} InEntries(acc: seq<int>, x: Scored)
    requires x in multiset(Entries(acc, Range(|acc|)))
    ensures 0 <= x.idx < |acc| && x.cost == acc[x.idx]
  {
    var e := Entries(acc, Range(|acc|));
    assert x in e;
    var j :| 0 <= j < |e| && e[j] == x;
  }

  /** A consistent reordering of the ranked input names every row once. */
  lemma {:induction false} IndicesPermutation(acc: seq<int>, s: seq<Scored>)
    requires multiset(s) == multiset(Entries(acc, Range(|acc|)))
    requires Consistent(s, acc)
    ensures IsPermutation(Indices(s), |acc|)
  {
    var e := Entries(acc, Range(|acc|));
    assert Consistent(e, acc);
    IndicesOfEntries(acc, Range(|acc|));
    forall v ensures multiset(Indices(s))[v] == multiset(Range(|acc|))[v] {
      IndicesCount(s, acc, v);
      IndicesCount(e, acc, v);
    }
  }

  /** What the ranking promises about the sorted pairs: costs in order, every
      pair still the cost of the row it names, and the row numbers each
      present exactly once. */
  lemma {:induction false} RankedEntries(acc: seq<int>, s: seq<Scored>)
    requires s == InsertionSort(Entries(acc, Range(|acc|)))
    ensures SortedByCost(s)
    ensures Consistent(s, acc)
    ensures IsPermutation(Indices(s), |acc|)
  {
    var e := Entries(acc, Range(|acc|));
    InsertionSortSorted(e);
    InsertionSortPermutes(e);
    forall k | 0 <= k < |s| ensures 0 <= s[k].idx < |acc| && s[k].cost == acc[s[k].idx] {
      assert s[k] in multiset(s);
      InEntries(acc, s[k]);
    }
    IndicesPermutation(acc, s);
  }

  /** The ranked state of the two arrays: costs in order, ranks a permutation
      of the row numbers, and slot `k` holding the entry of row `r[k]`. */
  ghost predicate Ranked(c: seq<int>, r: seq<int>, acc: seq<int>)
  {
    |c| == |r| == |acc| && Sorted(c) && IsPermutation(r, |acc|) &&
    forall k :: 0 <= k < |r| ==> 0 <= r[k] < |acc| && c[k] == acc[r[k]]
  }

  /** The same promise read off the two arrays after the sort. */
  lemma {:induction false} RankedArrays(c: seq<int>, r: seq<int>, acc: seq<int>)
    requires |c| == |r|
    requires Entries(c, r) == InsertionSort(Entries(acc, Range(|acc|)))
    ensures Ranked(c, r, acc)
  {
    var s := Entries(c, r);
    RankedEntries(acc, s);
    IndicesOfEntries(c, r);
    forall a, b | 0 <= a < b < |c| ensures c[a] <= c[b] {
      assert s[a].cost <= s[b].cost;
    }
  }

  /** One row's cost in `rank_generation`: the wrap-around edge from the row's
      last node to its first, then each edge between neighbours, are added
      to slot `i`. */
  method AddTourCost(generationCost: array<int>, i: nat, generation: seq<int>, costMatrix: seq<int>, numNodes: nat)
        requires i < generationCost.Length && numNodes >= 1 && |costMatrix| == numNodes * numNodes
    requires |Row(generation, numNodes, i)| == numNodes && InRange(Row(generation, numNodes, i), numNodes)
    modifies generationCost
    ensures generationCost[i] == old(generationCost[i]) + TourCost(Row(generation, numNodes, i), costMatrix, numNodes)
    ensures generationCost[..i] == old(generationCost[..i]) && generationCost[i + 1..] == old(generationCost[i + 1..])
  {
    ghost var row := Row(generation, numNodes, i);
    var lo := i * numNodes;
    StartIsProduct(i, numNodes);
    assert lo + numNodes <= |generation| && row == generation[lo .. lo + numNodes];
    var source := generation[lo + numNodes - 1];
    var destination := generation[lo];
    assert source == row[numNodes - 1] && destination == row[0];
    generationCost[i] := generationCost[i] + Edge(costMatrix, numNodes, source, destination);
    var j := 0;
    while j < numNodes - 1
      invariant 0 <= j <= numNodes - 1 && destination == row[j]
      invariant generationCost[i] == old(generationCost[i]) + Edge(costMatrix, numNodes, row[numNodes - 1], row[0])
                                     + PathCost(row[..j + 1], costMatrix, numNodes)
      invariant generationCost[..i] == old(generationCost[..i]) && generationCost[i + 1..] == old(generationCost[i + 1..])
    {
      source := destination;
      destination := generation[lo + j + 1];
      assert destination == row[j + 1];
      generationCost[i] := generationCost[i] + Edge(costMatrix, numNodes, source, destination);
      assert row[..j + 2][..j + 1] == row[..j + 1];
      j := j + 1;
    }
    assert row[..numNodes] == row;
  }

  /** Two sequences that agree before `i` and at `i` agree up to `i + 1`. */
  lemma {:induction false} PrefixSnoc(a: seq<int>, b: seq<int>, i: nat)
    requires i < |a| && i < |b| && a[..i] == b[..i] && a[i] == b[i]
    ensures a[..i + 1] == b[..i + 1]
  {
    assert a[..i + 1] == a[..i] + [a[i]] && b[..i + 1] == b[..i] + [b[i]];
  }

  /** The loop of `rank_generation`: every row's tour cost is
      added to its slot and its rank is set to its own row number. */
  method AccumulateCosts(generationRank: array<int>, generationCost: array<int>, generation: seq<int>,
                         costMatrix: seq<int>, numNodes: nat, population: nat)
    requires generationRank != generationCost
    requires population <= generationRank.Length && population <= generationCost.Length
    requires numNodes >= 1 && |costMatrix| == numNodes * numNodes
    requires RowsInRange(generation, numNodes, population)
    modifies generationRank, generationCost
    ensures generationCost[..population] == Accumulated(old(generationCost[..population]), generation, costMatrix, numNodes)
    ensures generationRank[..population] == Range(population)
    ensures generationCost[population..] == old(generationCost[population..])
    ensures generationRank[population..] == old(generationRank[population..])
  {
    ghost var c0, r0 := old(generationCost[..]), old(generationRank[..]);
    ghost var acc := Accumulated(c0[..population], generation, costMatrix, numNodes);
    var i := 0;
    while i < population
      invariant i <= population
      invariant generationCost[..i] == acc[..i]
      invariant forall k :: 0 <= k < i ==> generationRank[k] == k
      invariant generationCost[i..] == c0[i..] && generationRank[i..] == r0[i..]
    {
      AddTourCost(generationCost, i, generation, costMatrix, numNodes);
      AccumulatedAt(c0[..population], generation, costMatrix, numNodes, i);
      ghost var costs, ranks := generationCost[..], generationRank[..];
      generationRank[i] := i;
      assert generationCost[..] == costs && generationRank[i + 1..] == ranks[i + 1..];
      assert c0[i] == c0[i..][0];
      PrefixSnoc(costs, acc, i);
      assert c0[i + 1..] == c0[i..][1..] && r0[i + 1..] == r0[i..][1..];
      i := i + 1;
    }
    assert acc[..population] == acc;
  }

  /** `rank_generation`: accumulates every row's tour cost into its slot, sets
      `generationRank[i] := i`, and sorts both arrays by cost.  `bestNum` is
      accepted and not used, as in the source. */
  method RankGeneration(generationRank: array<int>, generationCost: array<int>, generation: seq<int>,
                        costMatrix: seq<int>, numNodes: nat, population: nat, bestNum: int)
    requires generationRank != generationCost
    requires population <= generationRank.Length && population <= generationCost.Length
    requires numNodes >= 1 && |costMatrix| == numNodes * numNodes
    requires RowsInRange(generation, numNodes, population)
    modifies generationRank, generationCost
    ensures Entries(generationCost[..population], generationRank[..population])
         == InsertionSort(Entries(Accumulated(old(generationCost[..population]), generation, costMatrix, numNodes),
                                  Range(population)))
    ensures Ranked(generationCost[..population], generationRank[..population],
                   Accumulated(old(generationCost[..population]), generation, costMatrix, numNodes))
    ensures generationCost[population..] == old(generationCost[population..])
    ensures generationRank[population..] == old(generationRank[population..])
  {
    ghost var acc := Accumulated(old(generationCost[..population]), generation, costMatrix, numNodes);
    AccumulateCosts(generationRank, generationCost, generation, costMatrix, numNodes, population);
    ghost var c0, r0 := generationCost[..], generationRank[..];
    SortVector(generationRank, generationCost, population);
    RankedArrays(generationCost[..population], generationRank[..population], acc);
  }
}
