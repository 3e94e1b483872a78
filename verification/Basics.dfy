/** Small definitions that several models share. */
module Basics {

  datatype Option<+T> = None | Some(value: T)

  /** A byte of a pixel buffer. */
  newtype byte = x: int | 0 <= x < 256

  function Min(a: int, b: int): int { if a < b then a else b }

  function Max(a: int, b: int): int { if a < b then b else a }

  /** `Math.round`. */
  function Round(x: real): int { (x + 0.5).Floor }

  /** `s.includes(t)`. */
  predicate Includes(s: string, t: string) {
    exists k :: 0 <= k <= |s| && t <= s[k..]
  }

  predicate Distinct<T(==)>(q: seq<T>) {
    forall i, j :: 0 <= i < j < |q| ==> q[i] != q[j]
  }
}
