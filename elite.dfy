/** Selection of the elite (`move_top`): the `bestNum` best-ranked rows are
    copied, in rank order, to the front of the scratch buffer, and then the
    two buffers trade places, so the scratch buffer becomes the current
    generation and the old generation becomes the scratch buffer. */
module Elite {
  import opened Tours

  /** `std::copy` of one row: `n` cells from `src` at `srcLo` into `dst` at
      `dstLo`; nothing else in `dst` changes. */
  method CopyRow(src: array<int>, srcLo: nat, dst: array<int>, dstLo: nat, n: nat)
    requires src != dst
    requires srcLo + n <= src.Length && dstLo + n <= dst.Length
    modifies dst
    ensures dst[dstLo .. dstLo + n] == src[srcLo .. srcLo + n]
    ensures dst[..dstLo] == old(dst[..dstLo]) && dst[dstLo + n..] == old(dst[dstLo + n..])
  {
    forall k | 0 <= k < n {
      dst[dstLo + k] := src[srcLo + k];
    }
  }

  /** The scratch buffer after `i` rounds of `move_top`'s loop: its row `r`
      (for `r < i`) is row `ranks[r]` of `g`, and from row `i` on it is still
      `orig`. */
  ghost predicate Copied(copy: seq<int>, g: seq<int>, ranks: seq<int>, orig: seq<int>, n: nat, i: nat)
  {
    Start(i, n) <= |copy| == |orig| && i <= |ranks| &&
    (forall r :: 0 <= r < i ==> 0 <= ranks[r] && Row(copy, n, r) == Row(g, n, ranks[r])) &&
    copy[Start(i, n)..] == orig[Start(i, n)..]
  }

  /** One round of `move_top`'s loop on the scratch buffer: `before` and
      `after` are the buffer around the copy of row `ranks[i]` of `g` to row
      `i`; `orig` is the buffer before the first round. */
  lemma {:induction false} CopyStep(before: seq<int>, after: seq<int>, orig: seq<int>, g: seq<int>, ranks: seq<int>,
                 n: nat, i: nat, population: nat)
    requires |before| == |after| == |orig| == Start(population, n)
    requires i < population && i < |ranks| && 0 <= ranks[i] && Start(i + 1, n) <= |before|
    requires Copied(before, g, ranks, orig, n, i)
    requires Row(after, n, i) == Row(g, n, ranks[i])
    requires after[..Start(i, n)] == before[..Start(i, n)]
    requires after[Start(i + 1, n)..] == before[Start(i + 1, n)..]
    ensures Copied(after, g, ranks, orig, n, i + 1)
  {
    RowsApart(i, population, n);
    forall r | 0 <= r < i ensures 0 <= ranks[r] && Row(after, n, r) == Row(g, n, ranks[r]) {
      RowsApart(r, i, n);
      RowBefore(after, before, n, r, Start(i, n));
    }
    assert before[Start(i, n)..][n..] == before[Start(i + 1, n)..];
  }

  /** One round of the copy loop of `move_top`: row `generationRank[i]` of the current buffer is copied
      to row `i` of the scratch buffer. */
  method CopyRank(generationRank: array<int>, generation: array<int>, generationCopy: array<int>,
                  numNodes: nat, i: nat, ghost population: nat, ghost orig: seq<int>)
    requires generation != generationCopy && generationRank != generationCopy
    requires generation.Length == Start(population, numNodes) && generationCopy.Length == Start(population, numNodes)
    requires i < population && i < generationRank.Length && 0 <= generationRank[i] < population
    requires Copied(generationCopy[..], generation[..], generationRank[..], orig, numNodes, i)
    modifies generationCopy
    ensures Copied(generationCopy[..], generation[..], generationRank[..], orig, numNodes, i + 1)
  {
    RowAt(generation[..], numNodes, generationRank[i], population);
    RowAt(generationCopy[..], numNodes, i, population);
    ghost var before := generationCopy[..];
    var start := generationRank[i] * numNodes;
    var dest := i * numNodes;
    StartIsProduct(generationRank[i], numNodes);
    StartIsProduct(i, numNodes);
    CopyRow(generation, start, generationCopy, dest, numNodes);
    CopyStep(before, generationCopy[..], orig, generation[..], generationRank[..], numNodes, i, population);
  }

  /** `move_top`: row `i < bestNum` of the returned current buffer is row
      `generationRank[i]` of the old current buffer; every row from `bestNum`
      on is what the scratch buffer held.  The two buffers are returned
      swapped, as the source swaps its two reference parameters. */
  method MoveTop(generationRank: array<int>, generation: array<int>, generationCopy: array<int>,
                 numNodes: nat, bestNum: nat, ghost population: nat)
      returns (newGeneration: array<int>, newCopy: array<int>)
    requires generation != generationCopy && generationRank != generationCopy
    requires generation.Length == population * numNodes && generationCopy.Length == population * numNodes
    requires bestNum <= population && bestNum <= generationRank.Length
    requires forall i :: 0 <= i < bestNum ==> 0 <= generationRank[i] < population
    modifies generationCopy
    ensures newGeneration == generationCopy && newCopy == generation
    ensures forall i :: 0 <= i < bestNum ==>
      Row(newGeneration[..], numNodes, i) == Row(generation[..], numNodes, generationRank[i])
    ensures forall r :: bestNum <= r < population ==>
      Row(newGeneration[..], numNodes, r) == Row(old(generationCopy[..]), numNodes, r)
  {
    StartIsProduct(population, numNodes);
    var i := 0;
    while i < bestNum
      invariant i <= bestNum
      invariant Copied(generationCopy[..], generation[..], generationRank[..], old(generationCopy[..]), numNodes, i)
    {
      CopyRank(generationRank, generation, generationCopy, numNodes, i, population, old(generationCopy[..]));
      i := i + 1;
    }
    forall r | bestNum <= r < population
      ensures Row(generationCopy[..], numNodes, r) == Row(old(generationCopy[..]), numNodes, r)
    {
      if bestNum < r {
        RowsApart(bestNum, r, numNodes);
      }
      RowAfter(generationCopy[..], old(generationCopy[..]), numNodes, r, Start(bestNum, numNodes));
    }
    newGeneration, newCopy := generationCopy, generation;
  }
}
