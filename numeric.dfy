/** Integer arithmetic shared by the pagination and the due-date classifier. */
module Numeric {

  /** `Math.ceil(a / b)` for a positive divisor, on exact integers: the least
      `r` with `a <= r * b`. */
  function CeilDiv(a: int, b: int): (r: int)
    requires b > 0
    ensures (r - 1) * b < a <= r * b
  {
    var q := (-a) / b;
    assert q * b <= -a < q * b + b;
    -q
  }
}
