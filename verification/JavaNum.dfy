/** Java's fixed-width integer ranges and its remainder operator. */
module JavaNum {

  const MIN_INT: int := -0x8000_0000
  const MAX_INT: int := 0x7FFF_FFFF
  const MIN_LONG: int := -0x8000_0000_0000_0000
  const MAX_LONG: int := 0x7FFF_FFFF_FFFF_FFFF

  /** Values of a Java `int`. */
  type Int = x: int | MIN_INT <= x <= MAX_INT

  /** Values of a Java `long`. */
  type Long = x: int | MIN_LONG <= x <= MAX_LONG

  /**
   * Java's `%` for a positive divisor: the quotient is truncated toward zero,
   * so the remainder takes the sign of the dividend (unlike Dafny's Euclidean
   * `%`, whose remainder is never negative). The remainder differs from the
   * dividend by a multiple of the divisor.
   */
  function Rem(a: int, b: int): (r: int)
    requires b > 0
    ensures -b < r < b
    ensures a >= 0 ==> r >= 0
    ensures a < 0 ==> r <= 0
    ensures (a - r) % b == 0
  {
    if a >= 0 then
      ModUnique(a - a % b, b, a / b, 0);
      a % b
    else
      var q := (-a) / b;
      assert a + (-a) % b == b * -q;
      ModUnique(a + (-a) % b, b, -q, 0);
      -((-a) % b)
  }

  /** A Java remainder is zero exactly when the divisor divides the dividend. */
  lemma RemZeroIffDivides(a: int, b: int)
    requires b > 0
    ensures Rem(a, b) == 0 <==> a % b == 0
  {
    if a < 0 {
      var q := (-a) / b;
      var r := (-a) % b;
      assert -a == b * q + r;
      if r == 0 {
        assert a == b * (-q) + 0;
        ModUnique(a, b, -q, 0);
      } else {
        assert a == b * (-q - 1) + (b - r);
        ModUnique(a, b, -q - 1, b - r);
      }
    }
  }

  /** The Euclidean remainder is the unique `r` in `[0, b)` with `x == b * q + r`. */
  lemma ModUnique(x: int, b: int, q: int, r: int)
    requires b > 0 && 0 <= r < b && x == b * q + r
    ensures x % b == r
  {
    var k := q - x / b;
    assert x == b * (x / b) + x % b;
    assert b * k == x % b - r by {
      assert b * k == b * q - b * (x / b);
    }
    if k >= 1 {
      MulAtLeast(b, k);
    } else if k <= -1 {
      MulAtLeast(b, -k);
    }
  }

  lemma MulAtLeast(b: int, k: int)
    requires b > 0 && k >= 1
    ensures b * k >= b
  {
    if k > 1 {
      MulAtLeast(b, k - 1);
      assert b * k == b * (k - 1) + b;
    }
  }
}
