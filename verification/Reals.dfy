/** Real arithmetic by name, so that proofs can go by the shape of a sum and not by its products. */
module Reals {
  function Times(a: real, b: real): real { a * b }

  function Over(a: real, b: real): real
    requires b != 0.0
  {
    a / b
  }

  function Abs(x: real): real { if x < 0.0 then -x else x }

  function Lesser(x: real, y: real): real { if x < y then x else y }

  function Greater(x: real, y: real): real { if x < y then y else x }

  lemma TimesAdds(u: real, v: real, x: real)
    ensures Times(u + v, x) == Times(u, x) + Times(v, x)
    ensures Times(x, u + v) == Times(x, u) + Times(x, v)
  {
  }

  function Sum(xs: seq<real>): real {
    if xs == [] then 0.0 else Sum(xs[..|xs| - 1]) + xs[|xs| - 1]
  }

  lemma SumNext(xs: seq<real>, x: real)
    ensures Sum([]) == 0.0 && Sum(xs + [x]) == Sum(xs) + x
  {
    assert (xs + [x])[..|xs|] == xs;
  }
}
