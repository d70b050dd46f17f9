/** The draws the algorithm takes from the C library generator.  A raw draw
    of `rand()` is any natural number the caller supplies; `myRand` and the
    inline `rand() % k` reduce it to an index below `k`. */
module Random {

  /** `myRand`: a raw draw reduced to `[0, i)`, as `random_shuffle` needs. */
  function MyRand(draw: nat, i: int): (r: int)
    requires i > 0
    ensures 0 <= r < i
    ensures draw < i ==> r == draw
  {
    draw % i
  }
}
