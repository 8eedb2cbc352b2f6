/** Q16 fixed point: an integer counts 65536ths. Products are shifted right, which rounds down;
    quotients are truncated towards zero. */
module FixedPoint {
  import opened Basics

  const ONE: int := 0x1_0000

  type Raw = int

  const LONG_LIMIT: int := 0x8000_0000_0000_0000

  /** The integers of the language of the source. */
  type Int32 = v: int | -0x8000_0000 <= v < 0x8000_0000
  type Int64 = v: int | -0x8000_0000_0000_0000 <= v < 0x8000_0000_0000_0000

  predicate FitsInt(v: int) {
    -INT_LIMIT <= v < INT_LIMIT
  }

  predicate FitsLong(v: int) {
    -LONG_LIMIT <= v < LONG_LIMIT
  }

  function OfInt(v: int): Raw {
    v * ONE
  }

  /** The source multiplies an int by an int: the conversion is defined only while the product is one. */
  predicate Convertible(v: int) {
    FitsInt(OfInt(v))
  }

  lemma ConvertibleIff(v: int)
    requires v >= 0
    ensures Convertible(v) <==> v < 0x8000
  {}

  /** What a machine that wraps around makes of a product that is too large. */
  function Wrapped(v: int): Int32 {
    (v + INT_LIMIT) % (2 * INT_LIMIT) - INT_LIMIT
  }

  /** On such a machine every multiple of 65536 is converted to zero, and no other number is. */
  lemma WrappedToZero(v: int)
    ensures Wrapped(OfInt(v)) == 0 <==> v % 0x1_0000 == 0
  {}

  /** Integer division as the language of the source does it, for a positive divisor. */
  function Trunc(a: int, b: int): int
    requires b > 0
  {
    if a >= 0 then a / b else -(-a / b)
  }

  function Mul(a: Raw, b: Raw): Raw {
    a * b / ONE
  }

  function Div(a: Raw, b: Raw): Raw
    requires b > 0
  {
    Trunc(a * ONE, b)
  }

  function Lerp(a: Raw, b: Raw, t: Raw): Raw {
    Mul(b - a, t) + a
  }

  // ---------------------------------------------------------------- division

  lemma ProductGrows(a: int, b: int, n: int)
    requires n >= 0 && a <= b
    ensures a * n <= b * n
  {
    assert (b - a) * n >= 0;
    assert (b - a) * n == b * n - a * n;
  }

  /** A quotient and its remainder. */
  lemma Quotient(a: int, n: int)
    requires n > 0
    ensures a / n * n <= a < (a / n + 1) * n
  {
    assert a == n * (a / n) + a % n;
    assert (a / n + 1) * n == a / n * n + n;
    assert n * (a / n) == a / n * n;
  }

  /** Rounding down is monotone, and exact at multiples. */
  lemma DivBounds(a: int, lo: int, hi: int, n: int)
    requires n > 0 && lo * n <= a <= hi * n
    ensures lo <= a / n <= hi
  {
    Quotient(a, n);
    if a / n < lo {
      ProductGrows(a / n + 1, lo, n);
    }
    assert (hi + 1) * n == hi * n + n;
    if a / n > hi {
      ProductGrows(hi + 1, a / n, n);
    }
  }

  /** Truncation is monotone too, and exact at multiples. */
  lemma TruncBounds(a: int, lo: int, hi: int, n: int)
    requires n > 0 && lo * n <= a <= hi * n
    ensures lo <= Trunc(a, n) <= hi
  {
    if a >= 0 {
      DivBounds(a, lo, hi, n);
    } else {
      assert -hi * n == -(hi * n) && -lo * n == -(lo * n);
      DivBounds(-a, -hi, -lo, n);
    }
  }

  lemma TruncExact(q: int, n: int)
    requires n > 0
    ensures Trunc(q * n, n) == q
  {
    TruncBounds(q * n, q, q, n);
  }

  /** Truncating a fraction of `d` gives something between 0 and `d`. */
  lemma TruncPart(d: int, k: int, n: int)
    requires 0 <= k <= n && n > 0
    ensures d >= 0 ==> 0 <= Trunc(d * k, n) <= d
    ensures d <= 0 ==> d <= Trunc(d * k, n) <= 0
    ensures k == 0 ==> Trunc(d * k, n) == 0
    ensures k == n ==> Trunc(d * k, n) == d
  {
    if d >= 0 {
      ProductGrows(0, k, d);
      ProductGrows(k, n, d);
      assert d * k == k * d && n * d == d * n;
      TruncBounds(d * k, 0, d, n);
    }
    if d <= 0 {
      ProductGrows(0, k, -d);
      ProductGrows(k, n, -d);
      assert k * -d == -(d * k) && n * -d == -(d * n);
      TruncBounds(d * k, d, 0, n);
    }
    if k == n {
      TruncExact(d, n);
    }
  }

  // ---------------------------------------------------------------- interpolation

  /** A product with a factor between 0 and 1 lies between 0 and the other factor. */
  lemma MulPart(d: Raw, t: Raw)
    requires 0 <= t <= ONE
    ensures d >= 0 ==> 0 <= Mul(d, t) <= d
    ensures d <= 0 ==> d <= Mul(d, t) <= 0
    ensures t == 0 ==> Mul(d, t) == 0
    ensures t == ONE ==> Mul(d, t) == d
  {
    if d >= 0 {
      ProductGrows(0, t, d);
      ProductGrows(t, ONE, d);
      DivBounds(d * t, 0, d, ONE);
    }
    if d <= 0 {
      ProductGrows(0, t, -d);
      ProductGrows(t, ONE, -d);
      DivBounds(d * t, d, 0, ONE);
    }
  }

  /** Interpolating stays between the ends, and reaches them exactly. */
  lemma LerpBetween(a: Raw, b: Raw, t: Raw, lo: Raw, hi: Raw)
    requires 0 <= t <= ONE && lo <= a <= hi && lo <= b <= hi
    ensures lo <= Lerp(a, b, t) <= hi
    ensures t == 0 ==> Lerp(a, b, t) == a
    ensures t == ONE ==> Lerp(a, b, t) == b
  {
    MulPart(b - a, t);
  }

  /** A fraction of whole numbers lies between 0 and 1. */
  lemma Fraction(k: int, n: int)
    requires 0 <= k <= n && n > 0
    ensures 0 <= Div(OfInt(k), OfInt(n)) <= ONE
    ensures k == 0 ==> Div(OfInt(k), OfInt(n)) == 0
    ensures k == n ==> Div(OfInt(k), OfInt(n)) == ONE
  {
    ProductGrows(k, n, ONE);
    TruncPart(ONE, OfInt(k), OfInt(n));
    assert ONE * OfInt(k) == OfInt(k) * ONE;
  }

  // ---------------------------------------------------------------- the quintic curve

  function Quintic(x: Raw): Raw {
    Mul(Mul(Mul(x, x), x), Mul(x, Mul(x, OfInt(6)) - OfInt(15)) + OfInt(10))
  }

  /** The exact curve does not exceed 1 between 0 and 1. With `d` the distance to 1, the fifth power
      of 1 is a sum of terms that are not negative, the first three of which make up the curve. */
  lemma QuinticExact(x: int, d: int)
    requires 0 <= x && 0 <= d
    ensures var s := x + d;
            x * x * x * (6 * (x * x) - 15 * (x * s) + 10 * (s * s)) <= s * s * s * (s * s)
  {
    var s, x2, d2, xd := x + d, x * x, d * d, x * d;
    var cube := x2 * x;
    Square(x, d);
    assert s * s == x2 + 2 * xd + d2;
    assert x * s == x2 + xd;
    assert 6 * x2 - 15 * (x * s) + 10 * (s * s) == x2 + 5 * xd + 10 * d2;
    FifthPower(x, d);
  }

  lemma Square(x: int, d: int)
    ensures (x + d) * (x + d) == x * x + 2 * (x * d) + d * d
  {}

  lemma FifthPower(x: int, d: int)
    requires 0 <= x && 0 <= d
    ensures var s := x + d;
            x * x * x * (x * x + 5 * (x * d) + 10 * (d * d)) <= s * s * s * (s * s)
  {
    var s, rest := x + d, 10 * (x * x) + 5 * (x * d) + d * d;
    assert s * s * s * (s * s) == x * x * x * (x * x + 5 * (x * d) + 10 * (d * d)) + d * d * d * rest;
    Nonneg(x, x);
    Nonneg(x, d);
    Nonneg(d, d);
    Nonneg(d * d, d);
    Nonneg(d * d * d, rest);
  }

  lemma Nonneg(a: int, b: int)
    requires a >= 0 && b >= 0
    ensures a * b >= 0
  {}

  lemma ProductsGrow(a: int, b: int, c: int, d: int)
    requires 0 <= a <= c && 0 <= b <= d
    ensures a * b <= c * d
  {
    ProductGrows(a, c, b);
    ProductGrows(b, d, c);
    assert b * c == c * b && d * c == c * d;
  }

  /** The cube as computed, rounded down twice. */
  lemma Cube(x: Raw)
    requires 0 <= x
    ensures var c := Mul(Mul(x, x), x); 0 <= c && ONE * ONE * c <= x * x * x
  {
    var m := Mul(x, x);
    Nonneg(x, x);
    Nonneg(m, x);
    ProductGrows(ONE * m, x * x, x);
    assert ONE * m * x == ONE * (m * x);
  }

  /** The other factor as computed is at least 1. */
  lemma Factor(x: Raw)
    requires 0 <= x <= ONE
    ensures var f := Mul(x, Mul(x, OfInt(6)) - OfInt(15)) + OfInt(10);
            ONE <= f && ONE * f <= 6 * (x * x) - 15 * (x * ONE) + 10 * (ONE * ONE)
  {
    assert Mul(x, OfInt(6)) == 6 * x;
    var y := 6 * x - OfInt(15);
    assert x * y == 6 * (x * x) - 15 * (x * ONE);
    Nonneg(ONE - x, 3 * ONE - 2 * x);
    assert (ONE - x) * (3 * ONE - 2 * x) == 3 * (ONE * ONE) - 5 * (x * ONE) + 2 * (x * x);
    assert x * y >= -9 * (ONE * ONE);
  }

  lemma Cancel(c: int, f: int, p: int, q: int)
    requires 0 <= c && 0 <= f && ONE * ONE * c <= p && ONE * f <= q
    requires p * q <= ONE * ONE * ONE * (ONE * ONE)
    ensures 0 <= c * f <= ONE * ONE
  {
    Nonneg(c, f);
    ProductsGrow(ONE * ONE * c, ONE * f, p, q);
    assert (ONE * ONE * c) * (ONE * f) == ONE * ONE * ONE * (c * f);
  }

  lemma QuinticEnds()
    ensures Quintic(0) == 0 && Quintic(ONE) == ONE
  {
    assert Mul(0, 0) == 0;
    assert Mul(ONE, ONE) == ONE;
    assert Mul(ONE, OfInt(6)) == OfInt(6);
    assert Mul(ONE, OfInt(6) - OfInt(15)) == -OfInt(9);
  }

  /** The quintic curve maps 0 to 0, 1 to 1, and stays between them in spite of the rounding. */
  lemma QuinticStays(x: Raw)
    requires 0 <= x <= ONE
    ensures 0 <= Quintic(x) <= ONE
  {
    var c := Mul(Mul(x, x), x);
    var f := Mul(x, Mul(x, OfInt(6)) - OfInt(15)) + OfInt(10);
    Cube(x);
    Factor(x);
    QuinticExact(x, ONE - x);
    var p, q := x * x * x, 6 * (x * x) - 15 * (x * ONE) + 10 * (ONE * ONE);
    Cancel(c, f, p, q);
    assert Quintic(x) == c * f / ONE;
  }

  // ---------------------------------------------------------------- how near the curve is

  /** The exact curve at x 65536ths, in units of 2^-80. */
  function ExactQuintic(x: int): int {
    x * x * x * (6 * (x * x) - 15 * (x * ONE) + 10 * (ONE * ONE))
  }

  /** The cube as computed is less than two units too small. */
  lemma CubeNear(x: Raw)
    requires 0 <= x <= ONE
    ensures var c := Mul(Mul(x, x), x); 0 <= c <= ONE && 0 <= x * x * x - ONE * ONE * c < 2 * (ONE * ONE)
  {
    var m := Mul(x, x);
    Nonneg(x, x);
    ProductGrows(x, ONE, x);
    DivBounds(x * x, 0, ONE, ONE);
    Nonneg(m, x);
    ProductGrows(m, ONE, x);
    DivBounds(m * x, 0, ONE, ONE);
    Quotient(x * x, ONE);
    Quotient(m * x, ONE);
    FloorTwice(x, m, Mul(m, x));
  }

  lemma FloorTwice(x: int, m: int, c: int)
    requires 0 <= x <= ONE && ONE * m <= x * x < ONE * m + ONE && ONE * c <= m * x < ONE * c + ONE
    ensures 0 <= x * x * x - ONE * ONE * c < 2 * (ONE * ONE)
  {
    var e := x * x - ONE * m;
    assert x * x * x == (ONE * m + e) * x == ONE * (m * x) + e * x;
    Nonneg(e, x);
    ProductsGrow(e, x, ONE, ONE);
    assert e * x < ONE * ONE by {
      ProductGrows(e, ONE - 1, x);
    }
  }

  /** The other factor is less than one unit too small, and at most 10. */
  lemma FactorNear(x: Raw)
    requires 0 <= x <= ONE
    ensures var f := Mul(x, Mul(x, OfInt(6)) - OfInt(15)) + OfInt(10);
            var q := 6 * (x * x) - 15 * (x * ONE) + 10 * (ONE * ONE);
            ONE <= f && 0 <= q - ONE * f < ONE && 0 <= q <= 10 * (ONE * ONE)
  {
    assert Mul(x, OfInt(6)) == 6 * x;
    var y := 6 * x - OfInt(15);
    assert x * y == 6 * (x * x) - 15 * (x * ONE);
    Factor(x);
    Quotient(x * y, ONE);
    ProductGrows(x, ONE, x);
  }

  /** A product of two factors, each a little too small, rounded down once more. */
  lemma ProductNear(c: int, f: int, e: int, g: int, q: int, p: int, z: int)
    requires 0 <= c <= ONE && ONE <= f && 0 <= e < 2 * (ONE * ONE) && 0 <= g < ONE && 0 <= q <= 10 * (ONE * ONE)
    requires p == ONE * ONE * c + e && q == ONE * f + g && z == c * f / ONE
    ensures 0 <= p * q - ONE * ONE * ONE * ONE * z < 22 * (ONE * ONE * ONE * ONE)
  {
    var k := c * f;
    Quotient(k, ONE);
    assert p * q == ONE * ONE * c * q + e * q;
    assert ONE * ONE * c * q == ONE * ONE * (c * q);
    assert c * q == ONE * k + c * g;
    Nonneg(c, g);
    ProductsGrow(c, g, ONE, ONE);
    Nonneg(e, q);
    ProductsGrow(e, q, 2 * (ONE * ONE), 10 * (ONE * ONE));
  }

  /** The curve as computed is at most 22 units of 2^-16 below 6 t^5 - 15 t^4 + 10 t^3, and never above. */
  lemma QuinticNear(x: Raw)
    requires 0 <= x <= ONE
    ensures 0 <= ExactQuintic(x) - ONE * ONE * ONE * ONE * Quintic(x) < 22 * (ONE * ONE * ONE * ONE)
  {
    var c := Mul(Mul(x, x), x);
    var f := Mul(x, Mul(x, OfInt(6)) - OfInt(15)) + OfInt(10);
    var p, q := x * x * x, 6 * (x * x) - 15 * (x * ONE) + 10 * (ONE * ONE);
    CubeNear(x);
    FactorNear(x);
    assert Quintic(x) == c * f / ONE;
    hide Mul, Quintic;
    ProductNear(c, f, p - ONE * ONE * c, q - ONE * f, q, p, Quintic(x));
  }
}
