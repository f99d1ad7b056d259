/**
  Python's `round` on the quotients the statistics compute. The model rounds
  the exact rational value; the source rounds a binary float, which agrees
  except possibly at an exact tie.
*/
module Rounding {

  /** The integer nearest to `n / d`, ties going to the even neighbour. */
  function RoundHalfEven(n: nat, d: nat): (r: nat)
    requires d > 0
    ensures 2 * d * r - d <= 2 * n <= 2 * d * r + d
    ensures 2 * n == 2 * d * r - d || 2 * n == 2 * d * r + d ==> r % 2 == 0
  {
    var q := n / d;
    var m := n % d;
    assert 2 * n == 2 * d * q + 2 * m;
    if 2 * m < d then q
    else if 2 * m > d then q + 1
    else if q % 2 == 0 then q
    else q + 1
  }

  /** `round((part / whole) * 100)`: `part` as a whole-number percentage of `whole`. */
  function Percentage(part: nat, whole: nat): (r: nat)
    requires 0 < whole && part <= whole
    ensures r <= 100
    ensures 2 * whole * r - whole <= 200 * part <= 2 * whole * r + whole
  {
    var r := RoundHalfEven(100 * part, whole);
    AtMostHundred(part, whole, r);
    r
  }

  /** Rounding a share of at most the whole never gives more than 100 per cent. */
  lemma AtMostHundred(part: nat, whole: nat, r: nat)
    requires 0 < whole && part <= whole
    requires 2 * whole * r - whole <= 200 * part
    ensures r <= 100
  {
  }
}
