/**
 Integer arithmetic shared by the clocks, the floats and the durations: the int64 range,
 products and quotients.
 */
module Arithmetic {
  const MAX_INT64: int := 0x7fff_ffff_ffff_ffff
  const MIN_INT64: int := -0x8000_0000_0000_0000

  function Min(a: int, b: int): int { if a < b then a else b }

  function Max(a: int, b: int): int { if a > b then a else b }

  lemma MulLe(x: int, y: int, d: int)
    requires d >= 0 && x <= y
    ensures x * d <= y * d
  {
  }

  lemma QuotientIs(n: int, d: int, q: int, r: int)
    requires d > 0 && 0 <= r < d && n == q * d + r
    ensures n / d == q && n % d == r
  {
    var x := n / d - q;
    assert x * d == r - n % d by {
      assert n == n / d * d + n % d;
      assert x * d == n / d * d - q * d;
    }
    Multiple(x, d);
  }

  lemma Product(a: int, d: int)
    requires a >= 0 && d > 0
    ensures a * d >= 0 && (a + 1) * d == a * d + d && (0 - a - 1) * d == 0 - a * d - d
  {
  }

  lemma Multiple(x: int, d: int)
    requires d > 0
    ensures (x > 0 ==> x * d >= d) && (x < 0 ==> x * d <= -d)
  {
    if x > 0 {
      Product(x - 1, d);
    } else if x < 0 {
      Product(0 - x - 1, d);
    }
  }
}
