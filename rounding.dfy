/** Integer forms of `Math.round(a / b)` and `Math.ceil(n / d)` for a positive
    divisor, computed on exact rationals. Dafny's `/` with a positive divisor
    rounds toward negative infinity, which is what both formulas rely on. */
module Rounding {

  /** `Math.round(a / b)`: the nearest integer, halves rounded up (toward +infinity). */
  function RoundDiv(a: int, b: int): (r: int)
    requires b > 0
    ensures b * (2 * r - 1) <= 2 * a < b * (2 * r + 1)
  {
    var q := (2 * a + b) / (2 * b);
    var m := (2 * a + b) % (2 * b);
    assert 2 * a + b == 2 * b * q + m && 0 <= m < 2 * b;
    assert b * (2 * q - 1) == 2 * b * q - b;
    assert b * (2 * q + 1) == 2 * b * q + b;
    q
  }

  /** The rounding is the only integer within half a unit of a / b (halves going up). */
  lemma RoundDivUnique(a: int, b: int, r: int)
    requires b > 0
    requires b * (2 * r - 1) <= 2 * a < b * (2 * r + 1)
    ensures r == RoundDiv(a, b)
  {
    var q := RoundDiv(a, b);
    if r < q {
      assert b * (2 * r + 1) <= b * (2 * q - 1) by {
        assert 2 * r + 1 <= 2 * q - 1;
        MulMonotone(b, 2 * r + 1, 2 * q - 1);
      }
    } else if r > q {
      assert b * (2 * q + 1) <= b * (2 * r - 1) by {
        assert 2 * q + 1 <= 2 * r - 1;
        MulMonotone(b, 2 * q + 1, 2 * r - 1);
      }
    }
  }

  /** Multiplying by a positive number keeps the order. */
  lemma MulMonotone(b: int, x: int, y: int)
    requires b > 0 && x <= y
    ensures b * x <= b * y
  {
    assert b * y - b * x == b * (y - x);
  }

  /** A ratio between 0 and `m` rounds to a value between 0 and `m`. */
  lemma RoundDivBounds(a: int, b: int, m: int)
    requires b > 0 && 0 <= a <= m * b
    ensures 0 <= RoundDiv(a, b) <= m
  {
    var r := RoundDiv(a, b);
    if r < 0 {
      MulMonotone(b, 2 * r + 1, -1);
    }
    if r > m {
      MulMonotone(b, 2 * m + 1, 2 * r - 1);
    }
  }

  /** `Math.ceil(n / d)`: the least integer not below n / d. */
  function CeilDiv(n: int, d: int): (r: int)
    requires d > 0
    ensures d * (r - 1) < n <= d * r
  {
    var q := (-n) / d;
    var m := (-n) % d;
    assert -n == d * q + m && 0 <= m < d;
    assert d * (-q - 1) == -(d * q) - d;
    -q
  }
}
