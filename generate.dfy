/** Refilling the population (`generate`).  After ranking, rows
    `0..bestNum-1` hold the elite; every later row `bestNum + i` is replaced
    by a child of two elite rows.  Elite `i` is the first parent of child `i`
    while `i < bestNum`, so that every elite breeds; after that the first
    parent is drawn.  The second parent is drawn until it differs from the
    loop index `i` (not from the first parent). */
module Generation {
  import opened Tours
  import opened Random
  import opened Crossover

  /** The two elite rows a child is bred from. */
  datatype Parents = Parents(first: nat, second: nat)

  /** The parent choice the loop body of `generate` makes for child `i`. */
  predicate ChosenFor(p: Parents, i: nat, bestNum: nat)
  {
    p.first < bestNum && p.second < bestNum && p.second != i &&
    (i < bestNum ==> p.first == i)
  }

  /** For an early child the two parents are distinct elites; later children
      may be bred from one elite twice. */
  lemma {:induction false} EarlyParentsDistinct(p: Parents, i: nat, bestNum: nat)
    requires ChosenFor(p, i, bestNum) && i < bestNum
    ensures p.first != p.second
  {
  }

  /** For a later child the loop index is no elite, so the test on parent 2
      rules nothing out: any two elites, even one elite twice, may be
      chosen. */
  lemma {:induction false} LaterParentsMayCoincide(i: nat, bestNum: nat)
    requires 1 <= bestNum <= i
    ensures forall p: Parents :: ChosenFor(p, i, bestNum) <==> p.first < bestNum && p.second < bestNum
    ensures exists p: Parents :: ChosenFor(p, i, bestNum) && p.first == p.second
  {
    assert ChosenFor(Parents(0, 0), i, bestNum);
  }

  /** The child bred for row `bestNum + i` from the elite rows of `g`. */
  function Offspring(g: seq<int>, n: nat, bestNum: nat, p: Parents, m: Mutation): (r: seq<int>)
    requires RowsArePermutations(g, n, 0, bestNum) && p.first < bestNum && p.second < bestNum
    requires ValidMutation(m, n)
    ensures |r| == n
  {
    Child(Row(g, n, p.first), Row(g, n, p.second), n, m)
  }

  /** Every child bred from the elite is a permutation of the nodes. */
  lemma {:induction false} OffspringIsPermutation(g: seq<int>, n: nat, bestNum: nat, p: Parents, m: Mutation)
    requires RowsArePermutations(g, n, 0, bestNum) && p.first < bestNum && p.second < bestNum
    requires ValidMutation(m, n)
    ensures IsPermutation(Offspring(g, n, bestNum, p, m), n)
  {
    ChildIsPermutation(Row(g, n, p.first), Row(g, n, p.second), n, m);
  }

  /** One pass of the loop of `generate`: choose the parents
      of child `i` and breed it into row `bestNum + i`. */
  method Breed(generation: array<int>, i: nat, population: nat, bestNum: nat, numNodes: nat, mutatProb: real)
      returns (ghost p: Parents, ghost m: Mutation)
    requires generation.Length == Start(population, numNodes)
    requires bestNum + i < population
    requires bestNum >= 2 || (bestNum >= 1 && i >= bestNum)
    requires RowsArePermutations(generation[..], numNodes, 0, bestNum)
    requires numNodes >= 2 || mutatProb * 100.0 < 1.0
    modifies generation
    ensures ChosenFor(p, i, bestNum) && ValidMutation(m, numNodes)
    ensures mutatProb * 100.0 < 1.0 ==> m == NoMutation
    ensures mutatProb >= 1.0 ==> m != NoMutation
    ensures Start(bestNum + i, numNodes) + numNodes <= generation.Length &&
      generation[..] == Overwrite(old(generation[..]), Start(bestNum + i, numNodes),
                                  Offspring(old(generation[..]), numNodes, bestNum, p, m))
  {
    ghost var g := generation[..];
    var parent1: nat;
    if i < bestNum {
      parent1 := i;
    } else {
      var draw: nat := *;
      parent1 := MyRand(draw, bestNum);
    }
    assert (if i == 0 then 1 else 0) != i;
    var parent2: nat :| parent2 < bestNum && parent2 != i;
    var son := (bestNum + i) * numNodes;
    p := Parents(parent1, parent2);
    assert son == Start(bestNum + i, numNodes) && son + numNodes <= generation.Length by {
      StartIsProduct(bestNum + i, numNodes);
      RowsApart(bestNum + i, population, numNodes);
    }
    assert Start(parent1, numNodes) + numNodes <= son && Start(parent2, numNodes) + numNodes <= son by {
      RowsApart(parent1, bestNum + i, numNodes);
      RowsApart(parent2, bestNum + i, numNodes);
    }
    assert IsPermutation(Row(g, numNodes, parent1), numNodes) && IsPermutation(Row(g, numNodes, parent2), numNodes);
    m := CrossoverFirstHalfWithMutation(generation, parent1, parent2, son, numNodes, mutatProb, population);
    assert Child(Row(g, numNodes, parent1), Row(g, numNodes, parent2), numNodes, m) == Offspring(g, numNodes, bestNum, p, m);
  }

  /** Every child is one row long. */
  predicate RowsLong(cs: seq<seq<int>>, n: nat)
  {
    forall k :: 0 <= k < |cs| ==> |cs[k]| == n
  }

  /** The table `g` with the children `cs` written, in order, into rows
      `bestNum..bestNum+|cs|-1` (a child whose row lies past the end of `g`
      is dropped). */
  ghost function Filled(g: seq<int>, n: nat, bestNum: nat, cs: seq<seq<int>>): (r: seq<int>)
    requires RowsLong(cs, n)
    ensures |r| == |g|
    decreases |cs|
  {
    if |cs| == 0 then g
    else
      var k := |cs| - 1;
      var prev := Filled(g, n, bestNum, cs[..k]);
      if Start(bestNum + k, n) + n <= |prev| then Overwrite(prev, Start(bestNum + k, n), cs[k]) else prev
  }

  /** Filling never touches the rows before `bestNum`. */
  lemma {:induction false} FilledKeepsElite(g: seq<int>, n: nat, bestNum: nat, cs: seq<seq<int>>, r: nat)
    requires RowsLong(cs, n) && Start(bestNum + |cs|, n) <= |g| && r < bestNum
    ensures Row(Filled(g, n, bestNum, cs), n, r) == Row(g, n, r)
    decreases |cs|
  {
    if |cs| > 0 {
      var k := |cs| - 1;
      RowsApart(bestNum + k, bestNum + |cs|, n);
      var prev := Filled(g, n, bestNum, cs[..k]);
      assert Filled(g, n, bestNum, cs) == Overwrite(prev, Start(bestNum + k, n), cs[k]);
      FilledKeepsElite(g, n, bestNum, cs[..k], r);
      OverwriteOtherRow(prev, n, bestNum + k, cs[k], r, Filled(g, n, bestNum, cs));
    }
  }

  /** Row `bestNum + j` of the filled table holds child `j`. */
  lemma {:induction false} FilledRow(g: seq<int>, n: nat, bestNum: nat, cs: seq<seq<int>>, j: nat)
    requires RowsLong(cs, n) && Start(bestNum + |cs|, n) <= |g| && j < |cs|
    ensures Row(Filled(g, n, bestNum, cs), n, bestNum + j) == cs[j]
    decreases |cs|
  {
    var k := |cs| - 1;
    RowsApart(bestNum + k, bestNum + |cs|, n);
    var prev := Filled(g, n, bestNum, cs[..k]);
    assert Filled(g, n, bestNum, cs) == Overwrite(prev, Start(bestNum + k, n), cs[k]);
    if j < k {
      assert Row(prev, n, bestNum + j) == cs[j] by {
        FilledRow(g, n, bestNum, cs[..k], j);
        assert cs[..k][j] == cs[j];
      }
      OverwriteOtherRow(prev, n, bestNum + k, cs[k], bestNum + j, Filled(g, n, bestNum, cs));
    } else {
      OverwriteSameRow(prev, n, bestNum + k, cs[k], Filled(g, n, bestNum, cs));
    }
  }

  /** Rows past the last child keep their contents. */
  lemma {:induction false} FilledKeepsRest(g: seq<int>, n: nat, bestNum: nat, cs: seq<seq<int>>, r: nat)
    requires RowsLong(cs, n) && Start(bestNum + |cs|, n) <= |g| && bestNum + |cs| <= r
    ensures Row(Filled(g, n, bestNum, cs), n, r) == Row(g, n, r)
    decreases |cs|
  {
    if |cs| > 0 {
      var k := |cs| - 1;
      RowsApart(bestNum + k, bestNum + |cs|, n);
      var prev := Filled(g, n, bestNum, cs[..k]);
      assert Filled(g, n, bestNum, cs) == Overwrite(prev, Start(bestNum + k, n), cs[k]);
      FilledKeepsRest(g, n, bestNum, cs[..k], r);
      OverwriteOtherRow(prev, n, bestNum + k, cs[k], r, Filled(g, n, bestNum, cs));
    }
  }

  /** One more child extends the filled table by one row. */
  lemma {:induction false} FilledSnoc(g: seq<int>, n: nat, bestNum: nat, cs: seq<seq<int>>, c: seq<int>)
    requires RowsLong(cs, n) && |c| == n && Start(bestNum + |cs|, n) + n <= |g|
    ensures RowsLong(cs + [c], n)
    ensures Filled(g, n, bestNum, cs + [c]) == Overwrite(Filled(g, n, bestNum, cs), Start(bestNum + |cs|, n), c)
  {
    assert (cs + [c])[..|cs|] == cs;
  }

  /** When the elite rows are permutations and the children fill the table,
      every row of it is a permutation of the nodes. */
  lemma {:induction false} FilledPermutations(g: seq<int>, n: nat, bestNum: nat, cs: seq<seq<int>>, population: nat)
    requires RowsLong(cs, n) && bestNum + |cs| == population && Start(population, n) <= |g|
    requires RowsArePermutations(g, n, 0, bestNum)
    requires forall k :: 0 <= k < |cs| ==> IsPermutation(cs[k], n)
    ensures RowsArePermutations(Filled(g, n, bestNum, cs), n, 0, population)
  {
    forall r | 0 <= r < population ensures IsPermutation(Row(Filled(g, n, bestNum, cs), n, r), n) {
      if r < bestNum {
        FilledKeepsElite(g, n, bestNum, cs, r);
      } else {
        FilledRow(g, n, bestNum, cs, r - bestNum);
      }
    }
  }

  /** The elite rows of a partly filled table are those of `g`. */
  lemma {:induction false} FilledElite(g: seq<int>, n: nat, bestNum: nat, cs: seq<seq<int>>)
    requires RowsLong(cs, n) && Start(bestNum + |cs|, n) <= |g|
    requires RowsArePermutations(g, n, 0, bestNum)
    ensures RowsArePermutations(Filled(g, n, bestNum, cs), n, 0, bestNum)
    ensures forall r :: 0 <= r < bestNum ==> Row(Filled(g, n, bestNum, cs), n, r) == Row(g, n, r)
  {
    forall r | 0 <= r < bestNum ensures Row(Filled(g, n, bestNum, cs), n, r) == Row(g, n, r) {
      FilledKeepsElite(g, n, bestNum, cs, r);
    }
  }

  /** Breeding into the next free row of a partly filled table, from its
      (unchanged) elite rows, fills one more row. */
  lemma {:induction false} FilledStep(g: seq<int>, prev: seq<int>, next: seq<int>, n: nat, bestNum: nat, cs: seq<seq<int>>,
                   p: Parents, m: Mutation)
    requires RowsLong(cs, n) && Start(bestNum + |cs|, n) + n <= |g|
    requires RowsArePermutations(g, n, 0, bestNum) && p.first < bestNum && p.second < bestNum
    requires ValidMutation(m, n)
    requires prev == Filled(g, n, bestNum, cs) && RowsArePermutations(prev, n, 0, bestNum)
    requires next == Overwrite(prev, Start(bestNum + |cs|, n), Offspring(prev, n, bestNum, p, m))
    ensures RowsLong(cs + [Offspring(g, n, bestNum, p, m)], n)
    ensures next == Filled(g, n, bestNum, cs + [Offspring(g, n, bestNum, p, m)])
  {
    FilledElite(g, n, bestNum, cs);
    assert Offspring(prev, n, bestNum, p, m) == Offspring(g, n, bestNum, p, m);
    FilledSnoc(g, n, bestNum, cs, Offspring(g, n, bestNum, p, m));
  }

  /** Child `k` was bred from the elite rows of `g0` named by `p`, with the
      mutation `m` drawn as `mutatProb` allows. */
  ghost predicate BredAs(g0: seq<int>, n: nat, bestNum: nat, mutatProb: real, k: nat, p: Parents, m: Mutation,
                         c: seq<int>)
  {
    ChosenFor(p, k, bestNum) && ValidMutation(m, n) &&
    (mutatProb * 100.0 < 1.0 ==> m == NoMutation) &&
    (mutatProb >= 1.0 ==> m != NoMutation) &&
    RowsArePermutations(g0, n, 0, bestNum) && c == Offspring(g0, n, bestNum, p, m)
  }

  /** Every child was bred as `BredAs` says, child `k` for row `bestNum + k`. */
  ghost predicate BredFrom(g0: seq<int>, n: nat, bestNum: nat, mutatProb: real, parents: seq<Parents>,
                           mutations: seq<Mutation>, children: seq<seq<int>>)
  {
    |parents| == |mutations| == |children| &&
    forall k :: 0 <= k < |children| ==> BredAs(g0, n, bestNum, mutatProb, k, parents[k], mutations[k], children[k])
  }

  /** The pass of `generate` for the first row not yet filled: the table so
      far is `Filled(g0, .., children)`, and afterwards it holds one more
      child, bred from the unchanged elite rows of `g0`. */
  method BreedNext(generation: array<int>, i: nat, population: nat, bestNum: nat, numNodes: nat, mutatProb: real,
                   ghost g0: seq<int>, ghost children: seq<seq<int>>)
      returns (ghost p: Parents, ghost m: Mutation, ghost child: seq<int>)
    requires generation.Length == Start(population, numNodes) && |g0| == generation.Length
    requires i == |children| && bestNum + i < population && bestNum >= 2
    requires RowsArePermutations(g0, numNodes, 0, bestNum)
    requires numNodes >= 2 || mutatProb * 100.0 < 1.0
    requires RowsLong(children, numNodes)
    requires generation[..] == Filled(g0, numNodes, bestNum, children)
    modifies generation
    ensures BredAs(g0, numNodes, bestNum, mutatProb, |children|, p, m, child)
    ensures RowsLong(children + [child], numNodes)
    ensures generation[..] == Filled(g0, numNodes, bestNum, children + [child])
  {
    ghost var prev := generation[..];
    RowsApart(bestNum + i, population, numNodes);
    FilledElite(g0, numNodes, bestNum, children);
    p, m := Breed(generation, i, population, bestNum, numNodes, mutatProb);
    child := Offspring(g0, numNodes, bestNum, p, m);
    FilledStep(g0, prev, generation[..], numNodes, bestNum, children, p, m);
  }

  /** `generate`: rows `bestNum..population-1` are replaced, in order, by the
      children `children` (`Filled`); child `i` is bred from the elite rows
      named by `parents[i]` with the mutation `mutations[i]`.  With
      `bestNum == population` nothing changes.  `bestNum >= 2` is needed when
      there is a child to breed: with one elite the draw of the second parent
      of child 0 never ends. */
  method Generate(generation: array<int>, population: nat, bestNum: nat, numNodes: nat, mutatProb: real)
      returns (ghost parents: seq<Parents>, ghost mutations: seq<Mutation>, ghost children: seq<seq<int>>)
    requires generation.Length == Start(population, numNodes)
    requires bestNum <= population && (bestNum == population || bestNum >= 2)
    requires RowsArePermutations(generation[..], numNodes, 0, bestNum)
    requires numNodes >= 2 || mutatProb * 100.0 < 1.0
    modifies generation
    ensures |parents| == |mutations| == |children| == population - bestNum
    ensures forall i :: 0 <= i < |parents| ==>
      ChosenFor(parents[i], i, bestNum) && ValidMutation(mutations[i], numNodes) &&
      (mutatProb * 100.0 < 1.0 ==> mutations[i] == NoMutation) &&
      (mutatProb >= 1.0 ==> mutations[i] != NoMutation) &&
      children[i] == Offspring(old(generation[..]), numNodes, bestNum, parents[i], mutations[i])
    ensures BredFrom(old(generation[..]), numNodes, bestNum, mutatProb, parents, mutations, children)
    ensures RowsLong(children, numNodes)
    ensures generation[..] == Filled(old(generation[..]), numNodes, bestNum, children)
  {
    ghost var g0 := generation[..];
    parents, mutations, children := [], [], [];
    var i := 0;
    while i < population - bestNum
      invariant i <= population - bestNum && |parents| == |mutations| == |children| == i
      invariant forall k :: 0 <= k < i ==>
        BredAs(g0, numNodes, bestNum, mutatProb, k, parents[k], mutations[k], children[k])
      invariant RowsLong(children, numNodes)
      invariant generation[..] == Filled(g0, numNodes, bestNum, children)
    {
      var p, m, child := BreedNext(generation, i, population, bestNum, numNodes, mutatProb, g0, children);
      parents, mutations, children := parents + [p], mutations + [m], children + [child];
      i := i + 1;
    }
  }
}
