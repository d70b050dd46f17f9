/** The crossover with mutation (`crossover_firstHalf_withMutation`).  A child
    tour takes the first `numNodes / 2` nodes of parent 1 and then, in parent
    2's order, every node of parent 2 that is not among them; with
    probability `mutatProb` two distinct positions of the child are then
    swapped.  When both parents are permutations of the nodes, so is the
    child, mutated or not. */
module Crossover {
  import opened Tours
  import opened Random

  /** The nodes occurring in `s`. */
  function Elems(s: seq<int>): set<int>
  {
    if |s| == 0 then {} else Elems(s[..|s| - 1]) + {s[|s| - 1]}
  }

  lemma {:induction false} InElems(s: seq<int>, x: int)
    ensures x in Elems(s) <==> x in s
  {
    if |s| > 0 {
      InElems(s[..|s| - 1], x);
      assert s == s[..|s| - 1] + [s[|s| - 1]];
    }
  }

  /** The entries of `s` that are not in `taken`, in the order of `s`. */
  function Remaining(s: seq<int>, taken: set<int>): (r: seq<int>)
    ensures |r| <= |s|
  {
    if |s| == 0 then []
    else Remaining(s[..|s| - 1], taken) + (if s[|s| - 1] in taken then [] else [s[|s| - 1]])
  }

  /** The child built from parents `p1` and `p2` before mutation. */
  function Cross(p1: seq<int>, p2: seq<int>, n: nat): seq<int>
    requires n / 2 <= |p1|
  {
    p1[..n / 2] + Remaining(p2, Elems(p1[..n / 2]))
  }

  /** The outcome of the mutation draw: nothing, or the swap of the child's
      positions `a` and `b`. */
  datatype Mutation = NoMutation | Swapped(a: nat, b: nat)

  predicate ValidMutation(m: Mutation, n: nat)
  {
    m.Swapped? ==> m.a < n && m.b < n && m.a != m.b
  }

  function Mutate(s: seq<int>, m: Mutation): (r: seq<int>)
    requires ValidMutation(m, |s|)
    ensures |r| == |s|
  {
    match m
    case NoMutation => s
    case Swapped(a, b) => s[a := s[b]][b := s[a]]
  }

  // ---------------------------------------------------------------------------
  // Properties of the child

  /** A node survives the filter exactly as often as it occurs in `s`,
      unless it is taken. */
  lemma {:induction false} RemainingCount(s: seq<int>, taken: set<int>, v: int)
    ensures multiset(Remaining(s, taken))[v] == if v in taken then 0 else multiset(s)[v]
  {
    if |s| > 0 {
      RemainingCount(s[..|s| - 1], taken, v);
      assert s == s[..|s| - 1] + [s[|s| - 1]];
    }
  }

  lemma {:induction false} ElemsSnoc(s: seq<int>, j: nat)
    requires j < |s|
    ensures Elems(s[..j + 1]) == Elems(s[..j]) + {s[j]}
  {
    assert s[..j + 1][..j] == s[..j];
  }

  /** Filtering one more entry of `s`. */
  lemma {:induction false} RemainingSnoc(s: seq<int>, k: nat, taken: set<int>)
    requires k < |s|
    ensures Remaining(s[..k + 1], taken) == Remaining(s[..k], taken) + (if s[k] in taken then [] else [s[k]])
  {
    assert s[..k + 1][..k] == s[..k];
  }

  /** Filtering a prefix keeps no more than filtering the whole. */
  lemma {:induction false} RemainingPrefix(s: seq<int>, k: nat, taken: set<int>)
    requires k <= |s|
    ensures |Remaining(s[..k], taken)| <= |Remaining(s, taken)|
    decreases |s| - k
  {
    if k < |s| {
      RemainingPrefix(s[..|s| - 1], k, taken);
      assert s[..|s| - 1][..k] == s[..k];
    } else {
      assert s[..k] == s;
    }
  }

  /** The first `h` nodes of a permutation are distinct: each occurs once. */
  lemma {:induction false} PrefixCount(p: seq<int>, n: nat, h: nat, v: int)
    requires IsPermutation(p, n) && h <= |p|
    ensures multiset(p[..h])[v] == if v in Elems(p[..h]) then 1 else 0
  {
    assert p == p[..h] + p[h..];
    RangeCount(n, v);
    InElems(p[..h], v);
  }

  /** If both parents are permutations of `0..n-1`, so is their child, and it
      starts with parent 1's first half. */
  lemma {:induction false} CrossIsPermutation(p1: seq<int>, p2: seq<int>, n: nat)
    requires IsPermutation(p1, n) && IsPermutation(p2, n)
    ensures |p1| == n
    ensures IsPermutation(Cross(p1, p2, n), n)
    ensures Cross(p1, p2, n)[..n / 2] == p1[..n / 2]
    ensures |Cross(p1, p2, n)| == n
  {
    PermutationInRange(p1, n);
    var h := n / 2;
    var taken := Elems(p1[..h]);
    var c := Cross(p1, p2, n);
    forall v ensures multiset(c)[v] == multiset(Range(n))[v] {
      PrefixCount(p1, n, h, v);
      RemainingCount(p2, taken, v);
      RangeCount(n, v);
      InElems(p1[..h], v);
      if v in taken {
        assert v in p1;
      }
    }
    assert multiset(c) == multiset(Range(n));
    PermutationInRange(c, n);
    assert c[..h] == p1[..h];
  }

  /** A mutation swaps exactly the two drawn positions and leaves every other
      position alone. */
  lemma {:induction false} MutateSwaps(s: seq<int>, a: nat, b: nat)
    requires ValidMutation(Swapped(a, b), |s|)
    ensures |Mutate(s, Swapped(a, b))| == |s|
    ensures Mutate(s, Swapped(a, b))[a] == s[b] && Mutate(s, Swapped(a, b))[b] == s[a]
    ensures forall k :: 0 <= k < |s| && k != a && k != b ==> Mutate(s, Swapped(a, b))[k] == s[k]
  {
  }

  /** A mutation only moves entries: the multiset of nodes is kept. */
  lemma {:induction false} MutateKeepsNodes(s: seq<int>, m: Mutation)
    requires ValidMutation(m, |s|)
    ensures multiset(Mutate(s, m)) == multiset(s)
  {
    if m.Swapped? {
      var a, b := m.a, m.b;
      var t := s[a := s[b]];
      assert multiset(t) == multiset(s) - multiset{s[a]} + multiset{s[b]};
      assert multiset(t[b := s[a]]) == multiset(t) - multiset{t[b]} + multiset{s[a]};
    }
  }

  /** A mutated permutation is still a permutation. */
  lemma {:induction false} MutatePreserves(s: seq<int>, m: Mutation, n: nat)
    requires ValidMutation(m, |s|) && IsPermutation(s, n)
    ensures IsPermutation(Mutate(s, m), n)
  {
    MutateKeepsNodes(s, m);
  }

  /** The child of two permutations after the mutation draw `m`: one row
      long (that it is a permutation is `ChildIsPermutation`). */
  function Child(p1: seq<int>, p2: seq<int>, n: nat, m: Mutation): (r: seq<int>)
    requires IsPermutation(p1, n) && IsPermutation(p2, n) && ValidMutation(m, n)
    ensures |r| == n
  {
    CrossIsPermutation(p1, p2, n);
    Mutate(Cross(p1, p2, n), m)
  }

  /** The child of two permutations is again a permutation of the nodes. */
  lemma {:induction false} ChildIsPermutation(p1: seq<int>, p2: seq<int>, n: nat, m: Mutation)
    requires IsPermutation(p1, n) && IsPermutation(p2, n) && ValidMutation(m, n)
    ensures IsPermutation(Child(p1, p2, n, m), n)
  {
    CrossIsPermutation(p1, p2, n);
    PermutationInRange(Cross(p1, p2, n), n);
    MutatePreserves(Cross(p1, p2, n), m, n);
  }

  // ---------------------------------------------------------------------------
  // The operation on the population buffer

  /** Row `r` of a table of `rows` rows starts at offset `r * n`. */
  lemma {:induction false} RowOffset(g: seq<int>, n: nat, r: nat, rows: nat)
    requires r < rows && |g| == Start(rows, n)
    ensures r * n == Start(r, n) && r * n + n <= |g| && Row(g, n, r) == g[r * n .. r * n + n]
  {
    RowAt(g, n, r, rows);
    StartIsProduct(r, n);
  }

  /** The buffer `a` holds `c` from `lo` on and agrees with `g` elsewhere. */
  ghost predicate Written(a: seq<int>, g: seq<int>, lo: nat, c: seq<int>)
  {
    |a| == |g| && lo + |c| <= |a| &&
    (forall t :: 0 <= t < |c| ==> a[lo + t] == c[t]) &&
    (forall t :: 0 <= t < |a| && !(lo <= t < lo + |c|) ==> a[t] == g[t])
  }

  /** One round of the crossover's first loop (over parent 1): node `j` of parent 1 is
      copied to position `j` of the child. */
  method TakeNode(generation: array<int>, base1: nat, son: nat, numNodes: nat, j: nat,
                  ghost p1: seq<int>, ghost g: seq<int>)
      returns (elem: int)
    requires j < numNodes / 2 && son + numNodes <= generation.Length && base1 + numNodes <= generation.Length
    requires son + numNodes <= base1 || base1 + numNodes <= son
    requires |g| == generation.Length && p1 == g[base1 .. base1 + numNodes]
    requires Written(generation[..], g, son, p1[..j])
    modifies generation
    ensures elem == p1[j] && Written(generation[..], g, son, p1[..j + 1])
  {
    assert generation[base1 + j] == g[base1 + j];
    elem := generation[base1 + j];
    generation[son + j] := elem;
  }

  /** The first loop of `crossover_firstHalf_withMutation`: the first `numNodes / 2` nodes of parent 1 (at offset
      `base1`) are copied to the child at offset `son`, and collected in
      `nodes`. */
  method TakeFirstHalf(generation: array<int>, base1: nat, son: nat, numNodes: nat, ghost p1: seq<int>)
      returns (nodes: set<int>, j: nat)
    requires son + numNodes <= generation.Length && base1 + numNodes <= generation.Length
    requires son + numNodes <= base1 || base1 + numNodes <= son
    requires p1 == generation[base1 .. base1 + numNodes]
    modifies generation
    ensures j == numNodes / 2 && nodes == Elems(p1[..j])
    ensures generation[..] == Overwrite(old(generation[..]), son, p1[..j])
  {
    var half := numNodes / 2;
    nodes := {};
    j := 0;
    while j < half
      invariant j <= half && nodes == Elems(p1[..j])
      invariant Written(generation[..], old(generation[..]), son, p1[..j])
    {
      var elem := TakeNode(generation, base1, son, numNodes, j, p1, old(generation[..]));
      nodes := nodes + {elem};
      ElemsSnoc(p1, j);
      j := j + 1;
    }
    PointwiseOverwrite(generation[..], old(generation[..]), son, p1[..j]);
  }

  /** One round of the crossover's second loop (over parent 2): node `k` of parent 2 is
      appended to the child at `j` unless it is in `nodes`. */
  method AddNode(generation: array<int>, base2: nat, at: nat, j: nat, k: nat, numNodes: nat, nodes: set<int>,
                 ghost p2: seq<int>, ghost g: seq<int>, ghost rest: seq<int>)
      returns (next: nat, ghost grown: seq<int>)
    requires k < numNodes && base2 + numNodes <= generation.Length
    requires |g| == generation.Length && p2 == g[base2 .. base2 + numNodes]
    requires at + |Remaining(p2, nodes)| <= generation.Length
    requires at + |Remaining(p2, nodes)| <= base2 || base2 + numNodes <= at
    requires rest == Remaining(p2[..k], nodes) && j == at + |rest|
    requires Written(generation[..], g, at, rest)
    modifies generation
    ensures grown == Remaining(p2[..k + 1], nodes) && next == at + |grown|
    ensures Written(generation[..], g, at, grown)
  {
    RemainingSnoc(p2, k, nodes);
    RemainingPrefix(p2, k + 1, nodes);
    assert generation[base2 + k] == g[base2 + k];
    var elem := generation[base2 + k];
    grown, next := rest, j;
    if elem !in nodes {
      generation[j] := elem;
      grown, next := rest + [elem], j + 1;
    }
  }

  /** The second loop of `crossover_firstHalf_withMutation`: every node of parent 2 (at offset `base2`) that is not in
      `nodes` is appended to the child from offset `at` on, in parent 2's
      order. */
  method AddRemaining(generation: array<int>, base2: nat, at: nat, numNodes: nat, nodes: set<int>,
                      ghost p2: seq<int>)
    requires base2 + numNodes <= generation.Length && p2 == generation[base2 .. base2 + numNodes]
    requires at + |Remaining(p2, nodes)| <= generation.Length
    requires at + |Remaining(p2, nodes)| <= base2 || base2 + numNodes <= at
    modifies generation
    ensures generation[..] == Overwrite(old(generation[..]), at, Remaining(p2, nodes))
  {
    var j := at;
    var k := 0;
    ghost var rest := [];
    while k < numNodes
      invariant k <= numNodes && rest == Remaining(p2[..k], nodes) && j == at + |rest|
      invariant Written(generation[..], old(generation[..]), at, rest)
    {
      j, rest := AddNode(generation, base2, at, j, k, numNodes, nodes, p2, old(generation[..]), rest);
      k := k + 1;
    }
    assert p2[..numNodes] == p2;
    PointwiseOverwrite(generation[..], old(generation[..]), at, rest);
  }

  /** The mutation step of `crossover_firstHalf_withMutation`: when the draw `rand() % 100 + 1` is at most
      `mutatProb * 100`, two distinct positions of the child `c` at `son` are
      drawn and swapped. */
  method MutateChild(generation: array<int>, son: nat, numNodes: nat, mutatProb: real, ghost c: seq<int>)
      returns (ghost m: Mutation)
    requires son + numNodes <= generation.Length && c == generation[son .. son + numNodes]
    requires numNodes >= 2 || mutatProb * 100.0 < 1.0
    modifies generation
    ensures ValidMutation(m, numNodes)
    ensures mutatProb * 100.0 < 1.0 ==> m == NoMutation
    ensures mutatProb >= 1.0 ==> m != NoMutation
    ensures generation[..] == Overwrite(old(generation[..]), son, Mutate(c, m))
  {
    var roll: nat := *;
    if (roll % 100 + 1) as real <= mutatProb * 100.0 {
      var draw: nat := *;
      var swap1 := draw % numNodes;
      assert (if swap1 == 0 then 1 else 0) != swap1;
      var swap2 :| 0 <= swap2 < numNodes && swap2 != swap1;
      var elem := generation[son + swap1];
      generation[son + swap1] := generation[son + swap2];
      generation[son + swap2] := elem;
      m := Swapped(swap1, swap2);
    } else {
      m := NoMutation;
    }
    PointwiseOverwrite(generation[..], old(generation[..]), son, Mutate(c, m));
  }

  /** The two loops write the child's two parts one after the other. */
  lemma {:induction false} ChildWritten(g: seq<int>, mid: seq<int>, fin: seq<int>, son: nat, j: nat,
                                        first: seq<int>, rest: seq<int>)
    requires son + |first| + |rest| <= |g| && j == |first|
    requires mid == Overwrite(g, son, first) && fin == Overwrite(mid, son + j, rest)
    ensures fin == Overwrite(g, son, first + rest)
  {
    OverwriteAppend(g, son, first, rest);
  }

  /** The two loops of `crossover_firstHalf_withMutation`: the child of `p1` (at `base1`) and `p2` (at `base2`),
      before mutation, is written at `son` and nothing else changes. */
  method CrossChild(generation: array<int>, base1: nat, base2: nat, son: nat, numNodes: nat,
                    ghost p1: seq<int>, ghost p2: seq<int>)
    requires base1 + numNodes <= generation.Length && p1 == generation[base1 .. base1 + numNodes]
    requires base2 + numNodes <= generation.Length && p2 == generation[base2 .. base2 + numNodes]
    requires son + numNodes <= generation.Length
    requires son + numNodes <= base1 || base1 + numNodes <= son
    requires son + numNodes <= base2 || base2 + numNodes <= son
    requires |Cross(p1, p2, numNodes)| == numNodes
    modifies generation
    ensures generation[..] == Overwrite(old(generation[..]), son, Cross(p1, p2, numNodes))
  {
    ghost var g := generation[..];
    var nodes, j := TakeFirstHalf(generation, base1, son, numNodes, p1);
    ghost var first := p1[..j];
    ghost var rest := Remaining(p2, nodes);
    assert Cross(p1, p2, numNodes) == first + rest && |first| == j;
    assert p2 == generation[base2 .. base2 + numNodes] by {
      OverwriteElsewhere(g, son, first, base2, numNodes);
    }
    ghost var mid := generation[..];
    AddRemaining(generation, base2, son + j, numNodes, nodes, p2);
    ChildWritten(g, mid, generation[..], son, j, first, rest);
  }

  /** The body of `crossover_firstHalf_withMutation` on element offsets: the
      child of `p1` (at `base1`) and `p2` (at `base2`), mutated by the drawn
      `m`, is written at `son` and nothing else changes. */
  method WriteChild(generation: array<int>, base1: nat, base2: nat, son: nat, numNodes: nat, mutatProb: real,
                    ghost p1: seq<int>, ghost p2: seq<int>)
      returns (ghost m: Mutation)
    requires base1 + numNodes <= generation.Length && p1 == generation[base1 .. base1 + numNodes]
    requires base2 + numNodes <= generation.Length && p2 == generation[base2 .. base2 + numNodes]
    requires son + numNodes <= generation.Length
    requires son + numNodes <= base1 || base1 + numNodes <= son
    requires son + numNodes <= base2 || base2 + numNodes <= son
    requires |Cross(p1, p2, numNodes)| == numNodes
    requires numNodes >= 2 || mutatProb * 100.0 < 1.0
    modifies generation
    ensures ValidMutation(m, numNodes)
    ensures mutatProb * 100.0 < 1.0 ==> m == NoMutation
    ensures mutatProb >= 1.0 ==> m != NoMutation
    ensures generation[..] == Overwrite(old(generation[..]), son, Mutate(Cross(p1, p2, numNodes), m))
  {
    ghost var g := generation[..];
    ghost var child := Cross(p1, p2, numNodes);
    CrossChild(generation, base1, base2, son, numNodes, p1, p2);
    OverwriteWritten(g, son, child);
    m := MutateChild(generation, son, numNodes, mutatProb, child);
    OverwriteTwice(g, son, child, Mutate(child, m));
  }

  /** `crossover_firstHalf_withMutation`: the child of rows `parent1` and
      `parent2`, mutated when the draw in `[1, 100]` is at most
      `mutatProb * 100`, is written at element offset `son` and nothing else
      in the buffer changes.  The child row must not overlap either parent
      row, as in every call `generate` makes. */
  method CrossoverFirstHalfWithMutation(generation: array<int>, parent1: nat, parent2: nat, son: nat,
                                        numNodes: nat, mutatProb: real, ghost population: nat)
      returns (ghost m: Mutation)
    requires generation.Length == Start(population, numNodes)
    requires parent1 < population && parent2 < population
    requires IsPermutation(Row(generation[..], numNodes, parent1), numNodes)
    requires IsPermutation(Row(generation[..], numNodes, parent2), numNodes)
    requires son + numNodes <= generation.Length
    requires son + numNodes <= Start(parent1, numNodes) || Start(parent1, numNodes) + numNodes <= son
    requires son + numNodes <= Start(parent2, numNodes) || Start(parent2, numNodes) + numNodes <= son
    requires numNodes >= 2 || mutatProb * 100.0 < 1.0
    modifies generation
    ensures ValidMutation(m, numNodes)
    ensures mutatProb * 100.0 < 1.0 ==> m == NoMutation
    ensures mutatProb >= 1.0 ==> m != NoMutation
    ensures generation[..] == Overwrite(old(generation[..]), son,
      Child(Row(old(generation[..]), numNodes, parent1), Row(old(generation[..]), numNodes, parent2), numNodes, m))
  {
    ghost var g := generation[..];
    ghost var p1 := Row(g, numNodes, parent1);
    ghost var p2 := Row(g, numNodes, parent2);
    var base1 := parent1 * numNodes;
    var base2 := parent2 * numNodes;
    RowOffset(g, numNodes, parent1, population);
    RowOffset(g, numNodes, parent2, population);
    assert |Cross(p1, p2, numNodes)| == numNodes by {
      CrossIsPermutation(p1, p2, numNodes);
    }
    m := WriteChild(generation, base1, base2, son, numNodes, mutatProb, p1, p2);
    assert Child(p1, p2, numNodes, m) == Mutate(Cross(p1, p2, numNodes), m);
  }
}
