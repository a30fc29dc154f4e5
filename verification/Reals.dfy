/** Functions on numbers. */
module Reals {
  function Abs(r: real): real { if r < 0.0 then -r else r }

  function Min(a: real, b: real): real { if a < b then a else b }

  function Max(a: real, b: real): real { if a < b then b else a }
}
