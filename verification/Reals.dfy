/** Real arithmetic shared by the numeric modules. */
module Reals {
  function Abs(x: real): real {
    if x < 0.0 then -x else x
  }

  /** A product, named so that proofs can treat it as a unit. */
  ghost function Times(a: real, b: real): real {
    a * b
  }
}
