/** The random source of a board: `java.util.Random`, seen only through
    `nextInt(bound)`.  The generator itself is not modelled: the `k`-th call
    of `nextInt` picks `source(k) % bound` for an arbitrary `source`, so every
    property proved for a board holds for every sequence of choices.  Java's
    `nextInt` may consume several internal values per call and does not
    always reduce by a modulo; here each call is one draw. */
module JavaRandom {

  class Random {
    /** The choices, one per call of `nextInt`, before reduction to the bound. */
    const source: nat -> nat
    /** How many calls of `nextInt` have been made so far. */
    var draws: nat

    constructor (source: nat -> nat)
      ensures this.source == source && draws == 0
    {
      this.source := source;
      draws := 0;
    }

    /** The `k`-th call of `nextInt` with bound `bound` gives `r`. */
    ghost predicate Gave(k: nat, bound: int, r: int) {
      bound > 0 && r == source(k) % bound
    }

    /** `nextInt(bound)`: some index below `bound`.  Java rejects a bound that
        is not positive, so callers must supply a positive one. */
    method NextInt(bound: int) returns (r: int)
      requires bound > 0
      modifies this
      ensures 0 <= r < bound
      ensures Gave(old(draws), bound, r) && draws == old(draws) + 1
    {
      r := source(draws) % bound;
      draws := draws + 1;
    }
  }
}
