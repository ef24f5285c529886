/** The small shapes that the whole model uses. */
module Wrappers {

  datatype Option<+T> = None | Some(value: T)

  /** A Rust `Result` whose error value is only a message, which the model does not keep. */
  datatype Result<+T> = Ok(value: T) | Err

  /** The first `limit` elements. */
  function Take<T>(xs: seq<T>, limit: nat): (taken: seq<T>)
    ensures |taken| <= limit && taken <= xs && (|taken| == limit || taken == xs)
  {
    if |xs| <= limit then xs else xs[..limit]
  }

  lemma TakeMembers<T>(xs: seq<T>, limit: nat)
    ensures forall k :: 0 <= k < |xs| && k < limit ==> xs[k] in Take(xs, limit)
  {
    forall k | 0 <= k < |xs| && k < limit ensures xs[k] in Take(xs, limit) {
      assert Take(xs, limit)[k] == xs[k];
    }
  }

  function MinNat(a: nat, b: nat): nat {
    if a <= b then a else b
  }

  function MaxNat(a: nat, b: nat): nat {
    if a >= b then a else b
  }

  function MinReal(a: real, b: real): real {
    if a <= b then a else b
  }

  function MaxReal(a: real, b: real): real {
    if a >= b then a else b
  }
}
