/** The population data model shared by every genetic operator.

    A population is a flat `int` buffer of `population * numNodes` node
    indices; row `r` (one individual, one tour) occupies the positions
    `r * numNodes .. r * numNodes + numNodes - 1`.  The node-cost matrix is a
    flat read-only buffer of `numNodes * numNodes` integers indexed
    `matrix[a * numNodes + b]`.  A tour visits its nodes in row order and
    closes with the edge from its last node back to its first. */
module Tours {

  // ---------------------------------------------------------------------------
  // Offsets into flat buffers

  /** Offset of row `r` in a table of rows of length `n`, built up one row at
      a time; `StartIsProduct` shows it is the source's `r * n`. */
  function Start(r: nat, n: nat): nat
  {
    if r == 0 then 0 else Start(r - 1, n) + n
  }

  lemma {:induction false} StartIsProduct(r: nat, n: nat)
    ensures Start(r, n) == r * n
  {
    if r > 0 {
      StartIsProduct(r - 1, n);
      assert (r - 1) * n + n == r * n;
    }
  }

  /** Row `r1` ends where row `r2 > r1` begins, or earlier. */
  lemma {:induction false} RowsApart(r1: nat, r2: nat, n: nat)
    requires r1 < r2
    ensures Start(r1, n) + n <= Start(r2, n)
    decreases r2 - r1
  {
    if r1 + 1 < r2 {
      RowsApart(r1 + 1, r2, n);
    }
  }

  /** Cell `(a, b)` of an `n * n` matrix lies inside it. */
  lemma {:induction false} CellFits(a: nat, b: nat, n: nat)
    requires a < n && b < n
    ensures a * n + b < n * n
  {
    RowsApart(a, n, n);
    StartIsProduct(a, n);
    StartIsProduct(n, n);
  }

  // ---------------------------------------------------------------------------
  // Rows and permutations

  /** The identity tour `0, 1, ..., n-1`. */
  function Range(n: nat): seq<int>
  {
    seq(n, i => i)
  }

  /** `s` holds every node of `0..n-1` exactly once. */
  predicate IsPermutation(s: seq<int>, n: nat)
  {
    multiset(s) == multiset(Range(n))
  }

  predicate InRange(s: seq<int>, n: int)
  {
    forall k :: 0 <= k < |s| ==> 0 <= s[k] < n
  }

  lemma {:induction false} RangeCount(n: nat, v: int)
    ensures multiset(Range(n))[v] == if 0 <= v < n then 1 else 0
  {
    if 0 <= v < n {
      assert Range(n) == Range(n)[..v] + [v] + Range(n)[v + 1..];
      assert v !in Range(n)[..v];
      assert v !in Range(n)[v + 1..];
    } else {
      assert v !in Range(n);
    }
  }

  /** A permutation of `0..n-1` has `n` entries, each a node index. */
  lemma {:induction false} PermutationInRange(s: seq<int>, n: nat)
    requires IsPermutation(s, n)
    ensures |s| == n && InRange(s, n)
  {
    assert |s| == |multiset(s)| == |multiset(Range(n))| == n;
    forall k | 0 <= k < |s| ensures 0 <= s[k] < n {
      assert s[k] in multiset(s);
      RangeCount(n, s[k]);
    }
  }

  /** Row `r` of the flat table `g`, or `[]` when the table is too short. */
  function Row(g: seq<int>, n: nat, r: nat): seq<int>
  {
    if Start(r, n) + n <= |g| then g[Start(r, n) .. Start(r, n) + n] else []
  }

  /** Every one of the first `rows` rows is complete and holds node indices. */
  ghost predicate RowsInRange(g: seq<int>, n: nat, rows: nat)
  {
    forall r :: 0 <= r < rows ==> |Row(g, n, r)| == n && InRange(Row(g, n, r), n)
  }

  /** Rows `lo..hi-1` are all permutations of `0..n-1`. */
  ghost predicate RowsArePermutations(g: seq<int>, n: nat, lo: nat, hi: nat)
  {
    forall r :: lo <= r < hi ==> IsPermutation(Row(g, n, r), n)
  }

  lemma {:induction false} RowAt(g: seq<int>, n: nat, r: nat, rows: nat)
    requires r < rows && Start(rows, n) <= |g|
    ensures Start(r, n) + n <= |g| && Row(g, n, r) == g[Start(r, n) .. Start(r, n) + n]
  {
    RowsApart(r, rows, n);
  }

  lemma {:induction false} PermutationsInRange(g: seq<int>, n: nat, rows: nat)
    requires RowsArePermutations(g, n, 0, rows)
    ensures RowsInRange(g, n, rows)
  {
    forall r | 0 <= r < rows
      ensures |Row(g, n, r)| == n && InRange(Row(g, n, r), n)
    {
      PermutationInRange(Row(g, n, r), n);
    }
  }

  /** A row lying wholly before position `m` only depends on `g[..m]`. */
  lemma {:induction false} RowBefore(a: seq<int>, b: seq<int>, n: nat, r: nat, m: nat)
    requires |a| == |b| && m <= |a| && a[..m] == b[..m] && Start(r, n) + n <= m
    ensures Row(a, n, r) == Row(b, n, r)
  {
    assert a[Start(r, n) .. Start(r, n) + n] == a[..m][Start(r, n) .. Start(r, n) + n];
    assert b[Start(r, n) .. Start(r, n) + n] == b[..m][Start(r, n) .. Start(r, n) + n];
  }

  /** A row lying wholly at or after position `m` only depends on `g[m..]`. */
  lemma {:induction false} RowAfter(a: seq<int>, b: seq<int>, n: nat, r: nat, m: nat)
    requires |a| == |b| && m <= |a| && a[m..] == b[m..] && m <= Start(r, n)
    ensures Row(a, n, r) == Row(b, n, r)
  {
    var lo := Start(r, n);
    if lo + n <= |a| {
      assert a[lo .. lo + n] == a[m..][lo - m .. lo + n - m];
      assert b[lo .. lo + n] == b[m..][lo - m .. lo + n - m];
    }
  }

  /** The buffer `g` with the cells from `lo` on overwritten by `c`. */
  function Overwrite(g: seq<int>, lo: nat, c: seq<int>): (r: seq<int>)
    requires lo + |c| <= |g|
    ensures |r| == |g|
  {
    g[..lo] + c + g[lo + |c|..]
  }

  /** A buffer that holds `c` from `lo` on and agrees with `g` elsewhere is
      `g` with `c` written at `lo`. */
  lemma {:induction false} PointwiseOverwrite(a: seq<int>, g: seq<int>, lo: nat, c: seq<int>)
    requires |a| == |g| && lo + |c| <= |a|
    requires forall t :: 0 <= t < |c| ==> a[lo + t] == c[t]
    requires forall t :: 0 <= t < |a| && !(lo <= t < lo + |c|) ==> a[t] == g[t]
    ensures a == Overwrite(g, lo, c)
  {
    var o := Overwrite(g, lo, c);
    forall t | 0 <= t < |a| ensures a[t] == o[t] {
      if lo <= t < lo + |c| {
        assert a[lo + (t - lo)] == c[t - lo];
      }
    }
  }

  /** Writing `d` right after a stretch `c` written at `lo` writes `c + d`. */
  lemma {:induction false} OverwriteAppend(g: seq<int>, lo: nat, c: seq<int>, d: seq<int>)
    requires lo + |c| + |d| <= |g|
    ensures Overwrite(Overwrite(g, lo, c), lo + |c|, d) == Overwrite(g, lo, c + d)
  {
    var a := Overwrite(Overwrite(g, lo, c), lo + |c|, d);
    var b := Overwrite(g, lo, c + d);
    forall k | 0 <= k < |g| ensures a[k] == b[k] {
      if lo <= k < lo + |c| {
        assert b[k] == (c + d)[k - lo];
      } else if lo + |c| <= k < lo + |c| + |d| {
        assert b[k] == (c + d)[k - lo];
      }
    }
  }

  /** A second write of the same stretch replaces the first. */
  lemma {:induction false} OverwriteTwice(g: seq<int>, lo: nat, c: seq<int>, d: seq<int>)
    requires lo + |c| <= |g| && |d| == |c|
    ensures Overwrite(Overwrite(g, lo, c), lo, d) == Overwrite(g, lo, d)
  {
  }

  /** The stretch `lo..lo+|c|-1` of the written buffer is `c`. */
  lemma {:induction false} OverwriteWritten(g: seq<int>, lo: nat, c: seq<int>)
    requires lo + |c| <= |g|
    ensures Overwrite(g, lo, c)[lo .. lo + |c|] == c
  {
  }

  /** A stretch of `n` cells at `at` that does not meet the write keeps its
      contents. */
  lemma {:induction false} OverwriteElsewhere(g: seq<int>, lo: nat, c: seq<int>, at: nat, n: nat)
    requires lo + |c| <= |g| && at + n <= |g|
    requires at + n <= lo || lo + |c| <= at
    ensures Overwrite(g, lo, c)[at .. at + n] == g[at .. at + n]
  {
  }

  /** Overwriting a whole row `r` (giving `h`) replaces that row... */
  lemma {:induction false} OverwriteSameRow(g: seq<int>, n: nat, r: nat, c: seq<int>, h: seq<int>)
    requires |c| == n && Start(r, n) + n <= |g| && h == Overwrite(g, Start(r, n), c)
    ensures Row(h, n, r) == c
  {
    assert h[Start(r, n) .. Start(r, n) + n] == c;
  }

  /** ...and no other. */
  lemma {:induction false} OverwriteOtherRow(g: seq<int>, n: nat, r: nat, c: seq<int>, q: nat, h: seq<int>)
    requires |c| == n && Start(r, n) + n <= |g| && q != r && h == Overwrite(g, Start(r, n), c)
    ensures Row(h, n, q) == Row(g, n, q)
  {
    if Start(q, n) + n <= |g| {
      if q < r {
        RowsApart(q, r, n);
      } else {
        RowsApart(r, q, n);
      }
      assert h[Start(q, n) .. Start(q, n) + n] == g[Start(q, n) .. Start(q, n) + n];
    }
  }


  // ---------------------------------------------------------------------------
  // Tour cost

  /** Cost of travelling from node `a` to node `b`. */
  function Edge(cm: seq<int>, n: nat, a: int, b: int): int
    requires |cm| == n * n && 0 <= a < n && 0 <= b < n
  {
    CellFits(a, b, n);
    cm[a * n + b]
  }

  ghost predicate Symmetric(cm: seq<int>, n: nat)
    requires |cm| == n * n
  {
    forall a, b :: 0 <= a < n && 0 <= b < n ==> Edge(cm, n, a, b) == Edge(cm, n, b, a)
  }

  /** Sum of the edges between consecutive entries of `s`, left to right. */
  function PathCost(s: seq<int>, cm: seq<int>, n: nat): int
    requires |cm| == n * n && InRange(s, n)
  {
    if |s| <= 1 then 0
    else PathCost(s[..|s| - 1], cm, n) + Edge(cm, n, s[|s| - 2], s[|s| - 1])
  }

  /** Cost of the closed tour `s`: the wrap-around edge from its last node to
      its first, plus the edges between consecutive nodes. */
  function TourCost(s: seq<int>, cm: seq<int>, n: nat): int
    requires |cm| == n * n && |s| >= 1 && InRange(s, n)
  {
    Edge(cm, n, s[|s| - 1], s[0]) + PathCost(s, cm, n)
  }

  /** Every edge of the cost matrix costs more than nothing. */
  ghost predicate PositiveCosts(cm: seq<int>, n: nat)
    requires |cm| == n * n
  {
    forall a, b :: 0 <= a < n && 0 <= b < n ==> Edge(cm, n, a, b) > 0
  }

  /** With positive edge costs a path costs at least one per edge. */
  lemma {:induction false} PathCostAtLeast(s: seq<int>, cm: seq<int>, n: nat)
    requires |cm| == n * n && InRange(s, n) && PositiveCosts(cm, n)
    ensures PathCost(s, cm, n) >= |s| - 1
  {
    if |s| > 1 {
      PathCostAtLeast(s[..|s| - 1], cm, n);
    }
  }

  /** With positive edge costs every closed tour costs at least one per
      node. */
  lemma {:induction false} TourCostPositive(s: seq<int>, cm: seq<int>, n: nat)
    requires |cm| == n * n && |s| >= 1 && InRange(s, n) && PositiveCosts(cm, n)
    ensures TourCost(s, cm, n) >= |s|
  {
    PathCostAtLeast(s, cm, n);
  }

  /** Peeling the first edge off a path. */
  lemma {:induction false} PathCostFront(s: seq<int>, cm: seq<int>, n: nat)
    requires |cm| == n * n && InRange(s, n) && |s| >= 2
    ensures PathCost(s, cm, n) == Edge(cm, n, s[0], s[1]) + PathCost(s[1..], cm, n)
  {
    if |s| > 2 {
      PathCostFront(s[..|s| - 1], cm, n);
      assert s[..|s| - 1][1..] == s[1..][..|s[1..]| - 1];
    }
  }

  /** With two nodes there is one tour up to direction; it crosses the single
      edge twice. */
  lemma {:induction false} TwoNodeTour(s: seq<int>, cm: seq<int>)
    requires |cm| == 4 && Symmetric(cm, 2) && IsPermutation(s, 2)
    ensures |s| == 2 && InRange(s, 2)
    ensures TourCost(s, cm, 2) == 2 * cm[1]
  {
    PermutationInRange(s, 2);
    RangeCount(2, 0);
    RangeCount(2, 1);
    assert Edge(cm, 2, 0, 1) == Edge(cm, 2, 1, 0) && Edge(cm, 2, 0, 1) == cm[1];
    assert PathCost(s, cm, 2) == PathCost(s[..1], cm, 2) + Edge(cm, 2, s[0], s[1]);
    assert TourCost(s, cm, 2) == Edge(cm, 2, s[1], s[0]) + Edge(cm, 2, s[0], s[1]);
  }
}
