/** Elementary functions on exact reals. */
module Reals {

  function Abs(x: real): real {
    if x < 0.0 then -x else x
  }

  function MinReal(a: real, b: real): real {
    if b < a then b else a
  }

  function MaxReal(a: real, b: real): real {
    if a < b then b else a
  }

  function Ceil(r: real): int {
    -((-r).Floor)
  }
}
