/** Integer conversions the simulator applies to real-valued intermediate results. */
module Truncation {

  /** Conversion of a real to an integer that truncates toward zero, as the
      source's `int(x)` does on a float: 2.7 becomes 2 and -2.7 becomes -2. */
  function Trunc(x: real): (r: int)
    ensures 0.0 <= x ==> r as real <= x < r as real + 1.0
    ensures x < 0.0 ==> r as real - 1.0 < x <= r as real
  {
    if x >= 0.0 then x.Floor else -((-x).Floor)
  }

  /** A population count from a real value: truncated when positive, zero otherwise. */
  function Clamp(x: real): (q: int)
    ensures q >= 0
    ensures x > 0.0 ==> q as real <= x < q as real + 1.0
    ensures x <= 0.0 ==> q == 0
  {
    if x > 0.0 then Trunc(x) else 0
  }

  /** Truncation toward zero is odd: it commutes with negation. */
  lemma TruncOdd(x: real)
    ensures Trunc(-x) == -Trunc(x)
  {
  }
}
