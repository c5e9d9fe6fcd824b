/** JavaScript's integer-valued arithmetic where it differs from Dafny's. */
module JsMath {

  /** JavaScript's `%`: the remainder takes the sign of the dividend. */
  function Rem(a: int, b: int): (r: int)
    requires b > 0
    ensures a >= 0 ==> r == a % b
    ensures a < 0 ==> -b < r <= 0
  {
    if a >= 0 then a % b else -((-a) % b)
  }

  /** `Math.floor(a / b)` for a positive divisor. */
  function FloorDiv(a: int, b: int): (q: int)
    requires b > 0
    ensures b * q <= a < b * q + b
  {
    a / b
  }

  /** `Math.ceil(a / b)` for a positive divisor. */
  function CeilDiv(a: int, b: int): (q: int)
    requires b > 0
    ensures b * q - b < a <= b * q
  {
    -((-a) / b)
  }

  function Min(a: int, b: int): int { if a <= b then a else b }
  function Max(a: int, b: int): int { if a >= b then a else b }

  /**
   * The month fix-up of `addMonths` for a negative month, `12 + m % 12` with a
   * result of 12 turned into 0, is the floor-division remainder.
   */
  lemma NegativeMonthRemainder(m: int)
    requires m < 0
    ensures (if 12 + Rem(m, 12) == 12 then 0 else 12 + Rem(m, 12)) == m % 12
  {
    var k := -m;
    var q, r := k / 12, k % 12;
    assert k == 12 * q + r;
    if r == 0 {
      assert m == 12 * (-q);
    } else {
      assert m == 12 * (-q - 1) + (12 - r);
    }
  }
}
