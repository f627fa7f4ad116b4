/** The PRNG, as a source of values about which nothing is promised. */
module Random {
  class Prng<T> {
    const stream: seq<T>
    var next: nat

    constructor (stream: seq<T>)
      requires |stream| > 0
      ensures this.stream == stream && next == 0
    {
      this.stream, next := stream, 0;
    }

    /** The i-th output, whatever it is. */
    function Output(i: nat): T
      requires |stream| > 0
    {
      stream[i % |stream|]
    }

    method Get() returns (x: T)
      requires |stream| > 0
      modifies this
      ensures x == Output(old(next)) && next == old(next) + 1
    {
      x := Output(next);
      next := next + 1;
    }
  }
}
