/** RankSorter: the insertion sort of a cost array that carries a parallel
    index array along with it (`sort_vector`).

    The meaning of the sort is given by two functions over (cost, index)
    pairs: `Insert`, which places one pair after the sorted prefix by
    scanning from the right past every strictly greater cost, and
    `InsertionSort`, which inserts the pairs one after another from the left.
    The lemmas show that the result is ordered by cost, is a permutation of
    the input pairs and keeps equal costs in their original order; the method
    is proved to compute exactly `InsertionSort` on the two arrays. */
module RankSort {

  /** One population slot as the sort sees it: a cost and the index that
      travels with it. */
  datatype Scored = Scored(cost: int, idx: int)

  /** The pairs `(costs[k], ranks[k])`. */
  function Entries(costs: seq<int>, ranks: seq<int>): (r: seq<Scored>)
    requires |costs| == |ranks|
    ensures |r| == |costs|
    ensures forall k :: 0 <= k < |r| ==> r[k] == Scored(costs[k], ranks[k])
  {
    if |costs| == 0 then []
    else Entries(costs[..|costs| - 1], ranks[..|costs| - 1]) + [Scored(costs[|costs| - 1], ranks[|costs| - 1])]
  }

  function Indices(s: seq<Scored>): (r: seq<int>)
    ensures |r| == |s|
    ensures forall k :: 0 <= k < |s| ==> r[k] == s[k].idx
  {
    if |s| == 0 then [] else Indices(s[..|s| - 1]) + [s[|s| - 1].idx]
  }

  predicate SortedByCost(s: seq<Scored>)
  {
    forall a, b :: 0 <= a < b < |s| ==> s[a].cost <= s[b].cost
  }

  predicate Sorted(s: seq<int>)
  {
    forall a, b :: 0 <= a < b < |s| ==> s[a] <= s[b]
  }

  /** The pairs of `s` whose cost is `c`, in the order they occur. */
  function WithCost(s: seq<Scored>, c: int): seq<Scored>
  {
    if |s| == 0 then []
    else WithCost(s[..|s| - 1], c) + (if s[|s| - 1].cost == c then [s[|s| - 1]] else [])
  }

  /** One pass of the inner loop: `e` moves left past every pair of strictly
      greater cost and stops after the first pair whose cost is not greater. */
  function Insert(s: seq<Scored>, e: Scored): (r: seq<Scored>)
    ensures |r| == |s| + 1
  {
    if |s| == 0 || s[|s| - 1].cost <= e.cost then
      s + [e]
    else
      Insert(s[..|s| - 1], e) + [s[|s| - 1]]
  }

  /** The outer loop: the prefix of length `i` is sorted, then entry `i` is
      inserted into it. */
  function InsertionSort(s: seq<Scored>): (r: seq<Scored>)
    ensures |r| == |s|
  {
    if |s| == 0 then []
    else Insert(InsertionSort(s[..|s| - 1]), s[|s| - 1])
  }

  /** Where `Insert` puts `e`: after every pair up to position `k`, when every
      pair from `k` on costs strictly more than `e` and the one before `k`
      does not. */
  lemma {:induction false} InsertAt(s: seq<Scored>, e: Scored, k: nat)
    requires k <= |s|
    requires forall j :: k <= j < |s| ==> s[j].cost > e.cost
    requires k == 0 || s[k - 1].cost <= e.cost
    ensures Insert(s, e) == s[..k] + [e] + s[k..]
  {
    if k == |s| {
      assert s[..k] == s && s[k..] == [];
    } else {
      var init := s[..|s| - 1];
      assert s[|s| - 1].cost > e.cost;
      assert forall j :: k <= j < |init| ==> init[j] == s[j];
      assert k == 0 || init[k - 1] == s[k - 1];
      InsertAt(init, e, k);
      assert Insert(s, e) == init[..k] + [e] + init[k..] + [s[|s| - 1]];
      assert init[..k] == s[..k];
      assert init[k..] + [s[|s| - 1]] == s[k..];
    }
  }

  /** Every pair ends up in one place: there is a split point `k` as in
      `InsertAt`. */
  lemma {:induction false} InsertSplit(s: seq<Scored>, e: Scored) returns (k: nat)
    ensures k <= |s|
    ensures forall j :: k <= j < |s| ==> s[j].cost > e.cost
    ensures k == 0 || s[k - 1].cost <= e.cost
    ensures Insert(s, e) == s[..k] + [e] + s[k..]
  {
    if |s| == 0 || s[|s| - 1].cost <= e.cost {
      k := |s|;
    } else {
      k := InsertSplit(s[..|s| - 1], e);
      InsertAt(s, e, k);
    }
  }

  lemma {:induction false} InsertKeepsSorted(s: seq<Scored>, e: Scored)
    requires SortedByCost(s)
    ensures SortedByCost(Insert(s, e))
  {
    var k := InsertSplit(s, e);
    var r := Insert(s, e);
    forall a, b | 0 <= a < b < |r| ensures r[a].cost <= r[b].cost {
      if b < k || a > k {
      } else if a == k {
        assert r[b] == s[b - 1];
      } else if b == k {
        assert r[a] == s[a] && k > 0;
      } else {
        assert r[a] == s[a] && r[b] == s[b - 1];
      }
    }
  }

  /** `sort_vector` leaves the costs in non-decreasing order. */
  lemma {:induction false} InsertionSortSorted(s: seq<Scored>)
    ensures SortedByCost(InsertionSort(s))
  {
    if |s| > 0 {
      InsertionSortSorted(s[..|s| - 1]);
      InsertKeepsSorted(InsertionSort(s[..|s| - 1]), s[|s| - 1]);
    }
  }

  lemma {:induction false} WithCostAppend(s: seq<Scored>, t: seq<Scored>, c: int)
    ensures WithCost(s + t, c) == WithCost(s, c) + WithCost(t, c)
    decreases |t|
  {
    if |t| == 0 {
      assert s + t == s;
    } else {
      WithCostAppend(s, t[..|t| - 1], c);
      assert (s + t)[..|s + t| - 1] == s + t[..|t| - 1];
    }
  }

  lemma {:induction false} WithCostNone(s: seq<Scored>, c: int)
    requires forall j :: 0 <= j < |s| ==> s[j].cost != c
    ensures WithCost(s, c) == []
  {
    if |s| > 0 {
      WithCostNone(s[..|s| - 1], c);
    }
  }

  lemma {:induction false} InsertPermutes(s: seq<Scored>, e: Scored)
    ensures multiset(Insert(s, e)) == multiset(s) + multiset{e}
  {
    var k := InsertSplit(s, e);
    assert s == s[..k] + s[k..];
  }

  /** `sort_vector` only reorders the pairs: none is lost or duplicated. */
  lemma {:induction false} InsertionSortPermutes(s: seq<Scored>)
    ensures multiset(InsertionSort(s)) == multiset(s)
  {
    if |s| > 0 {
      InsertionSortPermutes(s[..|s| - 1]);
      InsertPermutes(InsertionSort(s[..|s| - 1]), s[|s| - 1]);
      assert s == s[..|s| - 1] + [s[|s| - 1]];
    }
  }

  lemma {:induction false} InsertWithCost(s: seq<Scored>, e: Scored, c: int)
    ensures WithCost(Insert(s, e), c)
         == WithCost(s, c) + (if e.cost == c then [e] else [])
  {
    var k := InsertSplit(s, e);
    assert s == s[..k] + s[k..];
    WithCostAppend(s[..k], s[k..], c);
    WithCostAppend(s[..k] + [e], s[k..], c);
    WithCostAppend(s[..k], [e], c);
    assert WithCost([e], c) == WithCost([], c) + (if e.cost == c then [e] else []) by {
      assert [e][..0] == [];
    }
    if e.cost == c {
      WithCostNone(s[k..], c);
    }
  }

  /** Stability: pairs of equal cost keep their original relative order,
      because a pair only moves left past strictly greater costs. */
  lemma {:induction false} InsertionSortStable(s: seq<Scored>, c: int)
    ensures WithCost(InsertionSort(s), c) == WithCost(s, c)
  {
    if |s| > 0 {
      InsertionSortStable(s[..|s| - 1], c);
      InsertWithCost(InsertionSort(s[..|s| - 1]), s[|s| - 1], c);
    }
  }

  /** A sequence of at most one pair is left as it is. */
  lemma {:induction false} ShortIsSorted(s: seq<Scored>)
    requires |s| <= 1
    ensures InsertionSort(s) == s
  {
    if |s| == 1 {
      assert s[..0] == [];
    }
  }

  /** One round of the outer loop: inserting entry `i` where the shifting
      stopped extends the sorted prefix by one. */
  lemma {:induction false} InsertStep(input: seq<Scored>, i: nat, done: seq<Scored>, k: nat)
    requires i < |input| && done == InsertionSort(input[..i]) && k <= i
    requires forall j :: k <= j < i ==> done[j].cost > input[i].cost
    requires k == 0 || done[k - 1].cost <= input[i].cost
    ensures InsertedAt(done, input[i], k) == InsertionSort(input[..i + 1])
  {
    assert input[..i + 1][..i] == input[..i];
    InsertAt(done, input[i], k);
    assert InsertedAt(done, input[i], k) == done[..k] + [input[i]] + done[k..];
  }

  /** The arrays `c` and `r` hold the pairs of `s` in their first `|s|`
      positions. */
  ghost predicate Holds(c: seq<int>, r: seq<int>, s: seq<Scored>)
  {
    |s| <= |c| && |s| <= |r| && forall k :: 0 <= k < |s| ==> c[k] == s[k].cost && r[k] == s[k].idx
  }

  /** `s` with `e` placed at position `m`. */
  function InsertedAt(s: seq<Scored>, e: Scored, m: nat): (r: seq<Scored>)
    requires m <= |s|
    ensures |r| == |s| + 1
    ensures forall k :: 0 <= k < |r| ==> r[k] == if k < m then s[k] else if k == m then e else s[k - 1]
  {
    s[..m] + [e] + s[m..]
  }

  /** `a` and `b` agree from position `i` on. */
  ghost predicate SameFrom(a: seq<int>, b: seq<int>, i: nat)
  {
    |a| == |b| && i <= |a| && a[i..] == b[i..]
  }

  lemma {:induction false} EntriesOf(c: seq<int>, r: seq<int>, s: seq<Scored>)
    requires Holds(c, r, s)
    ensures Entries(c[..|s|], r[..|s|]) == s
  {
  }

  /** What one round of the outer loop establishes: `c0`/`r0` are the arrays
      before the round, `c1`/`r1` after it, `co`/`ro` before the sort. */
  lemma {:induction false} Advance(input: seq<Scored>, i: nat, done: seq<Scored>, m: nat,
                c0: seq<int>, r0: seq<int>, c1: seq<int>, r1: seq<int>, co: seq<int>, ro: seq<int>)
    requires i < |input| <= |co| && |input| <= |ro|
    requires input == Entries(co[..|input|], ro[..|input|])
    requires done == InsertionSort(input[..i]) && m <= i
    requires SameFrom(c0, co, i) && SameFrom(r0, ro, i)
    requires forall k :: m <= k < i ==> done[k].cost > c0[i]
    requires m == 0 || done[m - 1].cost <= c0[i]
    requires Holds(c1, r1, InsertedAt(done, Scored(c0[i], r0[i]), m))
    requires SameFrom(c1, c0, i + 1) && SameFrom(r1, r0, i + 1)
    ensures InsertedAt(done, input[i], m) == InsertionSort(input[..i + 1])
    ensures Holds(c1, r1, InsertedAt(done, input[i], m))
    ensures SameFrom(c1, co, i + 1) && SameFrom(r1, ro, i + 1)
  {
    assert c0[i] == c0[i..][0] && co[i] == co[i..][0] && r0[i] == r0[i..][0] && ro[i] == ro[i..][0];
    assert input[i] == Scored(c0[i], r0[i]);
    InsertStep(input, i, done, m);
    assert c0[i + 1..] == c0[i..][1..] && co[i + 1..] == co[i..][1..];
    assert r0[i + 1..] == r0[i..][1..] && ro[i + 1..] == ro[i..][1..];
  }

  /** The shifting loop of `sort_vector` (the inner `while`): from position
      `i - 1` leftwards, every pair whose cost is strictly greater than `key`
      moves one place right; the scan stops at `j`, the first position from
      the right whose cost is not greater, or at `-1`. */
  method ShiftGreater(generationRank: array<int>, generationCost: array<int>, i: nat, key: int,
                      ghost done: seq<Scored>)
      returns (j: int)
    requires generationRank != generationCost
    requires i < generationRank.Length && i < generationCost.Length && |done| == i
    requires forall k :: 0 <= k < i ==> generationCost[k] == done[k].cost && generationRank[k] == done[k].idx
    modifies generationRank, generationCost
    ensures -1 <= j <= i - 1
    ensures forall k :: j + 1 <= k < i ==> done[k].cost > key
    ensures j >= 0 ==> done[j].cost <= key
    ensures forall k :: 0 <= k <= j ==> generationCost[k] == done[k].cost && generationRank[k] == done[k].idx
    ensures forall k :: j + 2 <= k <= i ==>
      generationCost[k] == done[k - 1].cost && generationRank[k] == done[k - 1].idx
    ensures generationCost[i + 1..] == old(generationCost[i + 1..])
    ensures generationRank[i + 1..] == old(generationRank[i + 1..])
  {
    j := i - 1;
    while j >= 0 && generationCost[j] > key
      invariant -1 <= j <= i - 1
      invariant forall k :: j + 1 <= k < i ==> done[k].cost > key
      invariant forall k :: 0 <= k <= j ==> generationCost[k] == done[k].cost && generationRank[k] == done[k].idx
      invariant forall k :: j + 2 <= k <= i ==>
        generationCost[k] == done[k - 1].cost && generationRank[k] == done[k - 1].idx
      invariant generationCost[i + 1..] == old(generationCost[i + 1..])
      invariant generationRank[i + 1..] == old(generationRank[i + 1..])
    {
      generationCost[j + 1] := generationCost[j];
      generationRank[j + 1] := generationRank[j];
      j := j - 1;
    }
  }

  /** One round of the outer loop of `sort_vector`: the pair
      at position `i` is taken out, every pair left of it whose cost is
      strictly greater moves one place right, and the pair is written into
      the gap at `m`.  Positions `0..i-1` held `done`; afterwards positions
      `0..i` hold `done` with the pair inserted at `m`. */
  method InsertEntry(generationRank: array<int>, generationCost: array<int>, i: nat, ghost done: seq<Scored>)
      returns (ghost m: nat)
    requires generationRank != generationCost
    requires i < generationRank.Length && i < generationCost.Length && |done| == i
    requires forall k :: 0 <= k < i ==> generationCost[k] == done[k].cost && generationRank[k] == done[k].idx
    modifies generationRank, generationCost
    ensures m <= i
    ensures forall k :: m <= k < i ==> done[k].cost > old(generationCost[i])
    ensures m == 0 || done[m - 1].cost <= old(generationCost[i])
    ensures Holds(generationCost[..], generationRank[..],
                  InsertedAt(done, Scored(old(generationCost[i]), old(generationRank[i])), m))
    ensures generationCost[i + 1..] == old(generationCost[i + 1..])
    ensures generationRank[i + 1..] == old(generationRank[i + 1..])
  {
    var key := generationCost[i];
    var keyIdx := generationRank[i];
    var j := ShiftGreater(generationRank, generationCost, i, key, done);
    generationCost[j + 1] := key;
    generationRank[j + 1] := keyIdx;
    m := j + 1;
  }

  /** The state of `sort_vector` after `sorted` rounds: `c`/`r` hold the
      first `sorted` input pairs in sorted order (`done`), and from position
      `sorted` on they are still `co`/`ro`, the arrays before the sort. */
  ghost predicate SortState(c: seq<int>, r: seq<int>, co: seq<int>, ro: seq<int>, input: seq<Scored>,
                            done: seq<Scored>, sorted: nat)
  {
    sorted <= |input| && done == InsertionSort(input[..sorted]) && Holds(c, r, done) &&
    SameFrom(c, co, sorted) && SameFrom(r, ro, sorted)
  }

  /** Before the first round, the first pair (if any) is a sorted prefix on
      its own. */
  lemma {:induction false} SortStart(c: seq<int>, r: seq<int>, population: nat, sorted: nat)
    requires population <= |c| && population <= |r| && sorted <= 1 && sorted <= population
    ensures SortState(c, r, c, r, Entries(c[..population], r[..population]),
                      Entries(c[..population], r[..population])[..sorted], sorted)
  {
    var input := Entries(c[..population], r[..population]);
    ShortIsSorted(input[..sorted]);
    assert input[..sorted][..sorted] == input[..sorted];
  }

  /** One round of the outer loop of `sort_vector`: positions `0..i-1` hold
      the first `i` input pairs sorted, and afterwards positions `0..i` hold
      the first `i + 1` sorted. */
  method SortRound(generationRank: array<int>, generationCost: array<int>, i: nat, ghost input: seq<Scored>,
                   ghost done: seq<Scored>, ghost co: seq<int>, ghost ro: seq<int>)
      returns (ghost next: seq<Scored>)
    requires generationRank != generationCost
    requires 1 <= i < |input| <= |co| && |input| <= |ro|
    requires input == Entries(co[..|input|], ro[..|input|])
    requires SortState(generationCost[..], generationRank[..], co, ro, input, done, i)
    modifies generationRank, generationCost
    ensures SortState(generationCost[..], generationRank[..], co, ro, input, next, i + 1)
  {
    ghost var c0, r0 := generationCost[..], generationRank[..];
    ghost var m := InsertEntry(generationRank, generationCost, i, done);
    Advance(input, i, done, m, c0, r0, generationCost[..], generationRank[..], co, ro);
    next := InsertedAt(done, input[i], m);
  }

  /** `sort_vector`: sorts `generation_cost[0..population)` in place and moves
      `generation_rank` along with it; the pairs end up exactly as
      `InsertionSort` orders them, and nothing past `population` changes. */
  method SortVector(generationRank: array<int>, generationCost: array<int>, population: nat)
    requires generationRank != generationCost
    requires population <= generationRank.Length && population <= generationCost.Length
    modifies generationRank, generationCost
    ensures Entries(generationCost[..population], generationRank[..population])
         == InsertionSort(old(Entries(generationCost[..population], generationRank[..population])))
    ensures generationCost[population..] == old(generationCost[population..])
    ensures generationRank[population..] == old(generationRank[population..])
  {
    ghost var input := Entries(generationCost[..population], generationRank[..population]);
    ghost var sorted: nat := if population == 0 then 0 else 1;
    ghost var done := input[..sorted];
    SortStart(generationCost[..], generationRank[..], population, sorted);
    var i := 1;
    while i < population
      invariant 1 <= i && |input| == population && (population > 0 ==> sorted == i <= population)
      invariant SortState(generationCost[..], generationRank[..], old(generationCost[..]), old(generationRank[..]),
                          input, done, sorted)
    {
      done := SortRound(generationRank, generationCost, i, input, done, old(generationCost[..]), old(generationRank[..]));
      i := i + 1;
      sorted := i;
    }
    SortDone(generationCost[..], generationRank[..], old(generationCost[..]), old(generationRank[..]), input, done,
             population);
    assert generationCost[..][..population] == generationCost[..population];
    assert generationRank[..][..population] == generationRank[..population];
  }

  /** After the last round the first `population` pairs of the arrays are the
      sorted input and the rest is as it was. */
  lemma {:induction false} SortDone(c: seq<int>, r: seq<int>, co: seq<int>, ro: seq<int>, input: seq<Scored>, done: seq<Scored>,
                 population: nat)
    requires population <= |c| == |co| && population <= |r| == |ro|
    requires input == Entries(co[..population], ro[..population])
    requires SortState(c, r, co, ro, input, done, population)
    ensures Entries(c[..population], r[..population]) == InsertionSort(input)
    ensures c[population..] == co[population..] && r[population..] == ro[population..]
  {
    assert input[..population] == input;
    EntriesOf(c, r, done);
  }
}
