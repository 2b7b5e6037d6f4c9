/**
 * The `java.util.Random` instances of the game, taken as an input: an
 * arbitrary stream of raw draws. `NextInt(bound)` consumes one draw and maps
 * it into `[0, bound)`, so every sequence of picks the source can make is
 * some stream's sequence of picks.
 */
class Random {
  const draws: nat -> nat
  var next: nat

  constructor (draws: nat -> nat)
    ensures this.draws == draws && next == 0
  {
    this.draws := draws;
    next := 0;
  }

  /** `nextInt(bound)`: Java throws for a bound that is not positive. */
  method NextInt(bound: int) returns (r: int)
    requires bound > 0
    modifies this`next
    ensures 0 <= r < bound
    ensures r == draws(old(next)) % bound
    ensures next == old(next) + 1
  {
    r := draws(next) % bound;
    next := next + 1;
  }
}
