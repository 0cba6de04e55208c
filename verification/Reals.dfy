/** Small functions on real numbers. */
module Reals {

  function Max(a: real, b: real): real { if a >= b then a else b }

  function Min(a: real, b: real): real { if a <= b then a else b }

  function Distance(a: real, b: real): real { if a < b then b - a else a - b }
}
