/**
 * Randomness is not modelled: each value `Math.random()` would return is
 * passed in by the caller as a real number in [0, 1).
 */
module Randomness {

  /** A value Math.random() may return. */
  predicate IsDraw(r: real) {
    0.0 <= r < 1.0
  }

  /** `Math.floor(r * n)`: a uniformly chosen index into a collection of size `n`. */
  function RandomIndex(r: real, n: nat): (i: nat)
    requires IsDraw(r) && n > 0
    ensures i < n
  {
    var x := r * n as real;
    assert 0.0 <= x < n as real by {
      assert r * n as real < 1.0 * n as real;
    }
    x.Floor
  }
}
