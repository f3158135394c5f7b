/** The random source of the generators and explorers. Each `rand.Intn(n)`
    of the program takes the next value of a finite sequence of draws,
    reduced into the range `[0, n)`; a draw asked for after the sequence is
    used up yields 0 and leaves the source exhausted. */
module Oracle {

  /** The value the `k`-th draw yields when `n` values are possible. */
  function Draw(draws: seq<nat>, k: nat, n: int): (r: int)
    requires n > 0
    ensures 0 <= r < n
    ensures k < |draws| && draws[k] < n ==> r == draws[k]
  {
    if k < |draws| then draws[k] % n else 0
  }

  class Random {
    const draws: seq<nat>
    var used: nat

    constructor (draws: seq<nat>)
      ensures this.draws == draws && used == 0
    {
      this.draws := draws;
      used := 0;
    }

    /** More draws were asked for than the sequence holds. */
    predicate Exhausted()
      reads this
    {
      used > |draws|
    }

    /** `rand.Intn(n)`; the program panics on a non-positive `n`. */
    method Intn(n: int) returns (r: int)
      requires n > 0
      modifies this
      ensures 0 <= r < n
      ensures r == Draw(draws, old(used), n)
      ensures used == old(used) + 1
    {
      r := Draw(draws, used, n);
      used := used + 1;
    }
  }
}
