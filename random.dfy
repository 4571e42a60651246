/** UnityEngine.Random as the generator sees it: one seeded stream of draws.
    How a seed turns into draws is not modelled; `stream` stands for the draws
    that the seed given to Random.InitState determines. */
module Rand {

  class Random {
    /** The raw draws, in the order they are consumed. */
    const stream: nat -> nat
    /** How many draws have been consumed so far. */
    var drawn: nat

    /** Random.InitState(seed): the stream is fixed, nothing is consumed yet. */
    constructor InitState(stream: nat -> nat)
      ensures this.stream == stream && drawn == 0
    {
      this.stream := stream;
      drawn := 0;
    }

    /** Random.Range(lo, hi) for integers: a value in [lo, hi), or lo when the range is empty. */
    method Range(lo: int, hi: int) returns (r: int)
      requires lo <= hi
      modifies this
      ensures lo < hi ==> lo <= r < hi
      ensures lo == hi ==> r == lo
      ensures drawn == old(drawn) + 1
    {
      r := if lo < hi then lo + stream(drawn) % (hi - lo) else lo;
      drawn := drawn + 1;
    }
  }
}
