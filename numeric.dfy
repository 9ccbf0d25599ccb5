/** Conversions shared by the models: C++ `static_cast` from a floating value
    to an integer truncates toward zero, which Dafny's `Floor` does not. */
module Numeric {

  /** `static_cast<int>(x)` for a double `x` (range overflow not modelled). */
  function Trunc(x: real): (r: int)
    ensures x >= 0.0 ==> r as real <= x < r as real + 1.0
    ensures x < 0.0 ==> r as real - 1.0 < x <= r as real
    ensures r >= 0 <==> x > -1.0
  {
    if x >= 0.0 then x.Floor else -((-x).Floor)
  }

  /** An integer converted to double and back is unchanged. */
  lemma TruncOfInt(n: int)
    ensures Trunc(n as real) == n
  {
  }
}
