/** What the noise is between the corners: interpolation in both directions, up to the rounding. */
module NoiseValues {
  import opened FixedPoint
  import opened SmoothNoise

  // ---------------------------------------------------------------- integer noise

  /** Truncation is off by less than one. */
  lemma TruncNear(a: int, n: int)
    requires n > 0
    ensures -n < n * Trunc(a, n) - a < n
  {
    if a >= 0 {
      Quotient(a, n);
      assert (a / n + 1) * n == a / n * n + n && a / n * n == n * (a / n);
    } else {
      Quotient(-a, n);
      assert (-a / n + 1) * n == -a / n * n + n && -a / n * n == n * (-a / n);
      assert n * -(-a / n) == -(n * (-a / n));
    }
  }

  /** One mix is within a unit of the straight line between its ends. */
  lemma MixNear(a: SignedChar, b: SignedChar, o: int, s: int)
    requires 0 <= o <= s && s > 0
    ensures -s < s * Mix(a, b, o, s) - ((s - o) * a + o * b) < s
  {
    MixBetween(a, b, o, s, -128, 127);
    TruncNear((b - a) * o, s);
    var t := Trunc((b - a) * o, s);
    assert s * (t + a) == s * t + s * a;
    assert (b - a) * o == o * b - o * a;
    assert (s - o) * a == s * a - o * a;
  }

  /** scale^2 times the value that lies at the distances o and p between four corners. */
  function Between(v00: int, v10: int, v01: int, v11: int, o: int, p: int, s: int): int {
    (s - p) * ((s - o) * v00 + o * v10) + p * ((s - o) * v01 + o * v11)
  }

  /** Errors of less than s in both lines, and of less than s between them, make less than 2 s^2. */
  lemma ErrorsAdd(q: int, p: int, s: int, a: int, b: int, c: int, x: int, y: int)
    requires 0 <= p && 0 <= q && p + q == s && s > 0
    requires -s < s * a - x < s && -s < s * b - y < s && -s < s * c - (q * a + p * b) < s
    ensures -2 * (s * s) < s * s * c - (q * x + p * y) < 2 * (s * s)
  {
    var e, f, g := s * a - x, s * b - y, s * c - (q * a + p * b);
    Rescaled(q, s, a, x, e);
    Rescaled(p, s, b, y, f);
    Factored(s, q, a, p, b, c, g);
    Weighted(q, p, s, e, f);
    ScaledError(s, g);
    SumOf(s * s * c, s * (q * a), s * (p * b), s * g, q * x, q * e, p * y, p * f, s * s);
  }

  lemma SumOf(c: int, a: int, b: int, g: int, x: int, e: int, y: int, f: int, m: int)
    requires c == a + b + g && a == x + e && b == y + f && -m <= e + f <= m && -m < g < m
    ensures -2 * m < c - (x + y) < 2 * m
  {}

  lemma Rescaled(q: int, s: int, a: int, x: int, e: int)
    requires s * a == x + e
    ensures s * (q * a) == q * x + q * e
  {
    assert s * (q * a) == q * (s * a);
    assert q * (x + e) == q * x + q * e;
  }

  lemma Factored(s: int, q: int, a: int, p: int, b: int, c: int, g: int)
    requires s * c == q * a + p * b + g
    ensures s * s * c == s * (q * a) + s * (p * b) + s * g
  {
    assert s * s * c == s * (s * c);
    assert s * (q * a + p * b + g) == s * (q * a) + s * (p * b) + s * g;
  }

  lemma Weighted(q: int, p: int, s: int, e: int, f: int)
    requires 0 <= p && 0 <= q && p + q == s && -s < e < s && -s < f < s
    ensures -(s * s) <= q * e + p * f <= s * s
  {
    ProductGrows(e, s, q);
    ProductGrows(f, s, p);
    ProductGrows(-s, e, q);
    ProductGrows(-s, f, p);
    assert s * q + s * p == s * s;
    assert e * q == q * e && f * p == p * f && -s * q == -(s * q) && -s * p == -(s * p);
  }

  lemma ScaledError(s: int, g: int)
    requires s > 0 && -s < g < s
    ensures -(s * s) < s * g < s * s
  {
    assert s * (s - g) > 0 && s * (s + g) > 0;
    assert s * (s - g) == s * s - s * g && s * (s + g) == s * s + s * g;
  }

  /** The integer noise lies within two units of the value between the four corners of the cell of the
      exact floor. */
  lemma Get0Is(n: Noise, x: Int64, y: Int64, scale: Int32)
    requires scale > 0 && CellFits(x, scale) && CellFits(y, scale)
    ensures Get0(n, x, y, scale).Value?
    ensures var i, j, s := x / scale, y / scale, scale as int;
            var exact := Between(n.valueAt(i, j), n.valueAt(i + 1, j), n.valueAt(i, j + 1), n.valueAt(i + 1, j + 1),
                                 x % scale, y % scale, s);
            -2 * (s * s) < s * s * Get0(n, x, y, scale).value - exact < 2 * (s * s)
  {
    Get0IsExact(n, x, y, scale);
    var i, j, o, p, s: int := x / scale, y / scale, x % scale, y % scale, scale;
    var v00: int, v10: int, v01: int, v11: int :=
      n.valueAt(i, j), n.valueAt(i + 1, j), n.valueAt(i, j + 1), n.valueAt(i + 1, j + 1);
    var a, b := Mix(v00, v10, o, s), Mix(v01, v11, o, s);
    MixNear(v00, v10, o, s);
    MixNear(v01, v11, o, s);
    MixNear(a, b, p, s);
    hide Mix, Get0;
    ErrorsAdd(s - p, p, s, a, b, Mix(a, b, p, s), (s - o) * v00 + o * v10, (s - o) * v01 + o * v11);
  }

  // ---------------------------------------------------------------- fixed-point noise

  /** The curve at the distance o from the start of the cell, as a fraction of the scale rounded down. */
  function CurveAt(n: Noise, o: int, s: int): int
    requires s > 0
  {
    n.curve(o * 0x1_0000 / s)
  }

  lemma WeightIs(n: Noise, o: int, s: int)
    requires s > 0 && o >= 0
    ensures Weight(n, o, s) == CurveAt(n, o, s)
  {
    var a := o * ONE;
    assert Div(OfInt(o), OfInt(s)) == a * ONE / (s * ONE);
    CancelFactor(a, s, ONE);
  }

  lemma CancelFactor(a: int, s: int, k: int)
    requires s > 0 && k > 0 && a >= 0
    ensures s * k > 0 && a * k / (s * k) == a / s
  {
    assert s * k > 0;
    Quotient(a, s);
    var q := a / s;
    assert q * (s * k) == q * s * k && (q + 1) * (s * k) == (q + 1) * s * k;
    ProductGrows(q * s, a, k);
    ProductGrows(a + 1, (q + 1) * s, k);
    assert (a + 1) * k == a * k + k;
    assert (q + 1) * (s * k) == q * (s * k) + s * k;
    FloorBetween(a * k, q, s * k);
  }

  /** Between two corners the interpolation is exact: the products are multiples of the unit. */
  lemma LerpCorners(v: int, w: int, t: Raw)
    ensures Lerp(OfInt(v), OfInt(w), t) == (ONE - t) * v + t * w
  {
    var d := w - v;
    assert OfInt(w) - OfInt(v) == d * ONE;
    assert d * ONE * t == d * t * ONE;
    DivBounds(d * t * ONE, d * t, d * t, ONE);
    assert d * t == t * w - t * v && (ONE - t) * v == ONE * v - t * v;
  }

  /** Between the lines it rounds down once. */
  lemma LerpNear(a: Raw, b: Raw, t: Raw)
    ensures 0 <= (ONE - t) * a + t * b - ONE * Lerp(a, b, t) < ONE
  {
    Quotient((b - a) * t, ONE);
    assert (b - a) * t == t * b - t * a && (ONE - t) * a == ONE * a - t * a;
  }

  /** With weights t and u from the curve, the fixed-point noise is the value between the corners divided
      by 127, up to the rounding of one product and one quotient: less than 128 units of 2^-16. */
  lemma Get1Is(n: Noise, x: Int64, y: Int64, scale: Int32)
    requires 0 < scale < 0x8000 && CellFits(x, scale) && CellFits(y, scale) && CurveEnds(n)
    ensures Get1(n, x, y, scale).Value?
    ensures var i, j := x / scale, y / scale;
            var t, u := CurveAt(n, x % scale, scale), CurveAt(n, y % scale, scale);
            var exact := Between(n.valueAt(i, j), n.valueAt(i + 1, j), n.valueAt(i, j + 1), n.valueAt(i + 1, j + 1),
                                 t, u, 0x1_0000);
            -128 * 0x1_0000 < 127 * 0x1_0000 * Get1(n, x, y, scale).value - exact < 128 * 0x1_0000
  {
    Get1IsExact(n, x, y, scale);
    var i, j, o, p := x / scale, y / scale, x % scale, y % scale;
    var v00: int, v10: int, v01: int, v11: int :=
      n.valueAt(i, j), n.valueAt(i + 1, j), n.valueAt(i, j + 1), n.valueAt(i + 1, j + 1);
    WeightIs(n, o, scale);
    WeightIs(n, p, scale);
    var t, u := CurveAt(n, o, scale), CurveAt(n, p, scale);
    LerpCorners(v00, v10, t);
    LerpCorners(v01, v11, t);
    var a, b := (ONE - t) * v00 + t * v10, (ONE - t) * v01 + t * v11;
    LerpNear(a, b, u);
    var c := Lerp(a, b, u);
    assert Smooth(n, LocateExactly(x, scale), LocateExactly(y, scale), scale) == Div(c, OfInt(127));
    TruncGrows(c, c);
    TruncNear(c, 127);
    hide Between, Lerp, Trunc, Get1;
    assert Between(v00, v10, v01, v11, t, u, ONE) == (ONE - u) * a + u * b;
  }

  // ---------------------------------------------------------------- octaves

  /** The scale of an octave is the exact quotient, rounded down. */
  lemma OctaveScaleIs(c: Settings, freq: int)
    requires c.scale > 0 && freq > 0
    ensures OctaveScale(c, freq) * freq <= c.scale < (OctaveScale(c, freq) + 1) * freq
  {
    Quotient(c.scale, freq);
  }

  /** The octave j is taken. */
  predicate IsTaken(c: Settings, j: nat)
    requires c.freqFactor >= 0
  {
    0 < Power(c.freqFactor, j) <= c.scale
  }

  /** Its amplitude: 1 divided by the scale factor j times. */
  function Amplitude(c: Settings, j: nat): nat
    requires c.scaleFactor > 0
  {
    PowerGrows(c.scaleFactor, j, j);
    0x1_0000 / Power(c.scaleFactor, j)
  }

  /** What it adds to the sum, and to the weights. */
  function Term(n: Noise, x: Int64, y: Int64, c: Settings, j: nat): int
    requires c.scale > 0 && c.freqFactor >= 0 && c.scaleFactor > 0
  {
    if !IsTaken(c, j) then 0
    else
      var g := Get1(n, x, y, OctaveScale(c, Power(c.freqFactor, j)));
      if g.Value? then g.value * Amplitude(c, j) / 0x1_0000 else 0
  }

  function Terms(n: Noise, x: Int64, y: Int64, c: Settings, i: nat, k: nat): int
    requires c.scale > 0 && c.freqFactor >= 0 && c.scaleFactor > 0
    decreases k - i
  {
    if i >= k then 0 else Term(n, x, y, c, i) + Terms(n, x, y, c, i + 1, k)
  }

  function Weights(c: Settings, i: nat, k: nat): nat
    requires c.scale > 0 && c.freqFactor >= 0 && c.scaleFactor > 0
    decreases k - i
  {
    if i >= k then 0 else (if IsTaken(c, i) then Amplitude(c, i) else 0) + Weights(c, i + 1, k)
  }

  lemma NestedDivision(a: nat, p: nat, q: nat)
    requires p > 0 && q > 0
    ensures p * q > 0 && a / p / q == a / (p * q)
  {
    var k := a / p;
    var m := k / q;
    Quotient(a, p);
    Quotient(k, q);
    Nested(a, p, q, k, m);
    FloorBetween(a, m, p * q);
  }

  lemma Nested(a: nat, p: nat, q: nat, k: int, m: int)
    requires p > 0 && q > 0 && k * p <= a < (k + 1) * p && m * q <= k < (m + 1) * q
    ensures p * q > 0 && m * (p * q) <= a < m * (p * q) + p * q
  {
    ProductGrows(m * q, k, p);
    ProductGrows(k + 1, (m + 1) * q, p);
    Regrouped(m, p, q);
    Regrouped(m + 1, p, q);
    assert (m + 1) * (p * q) == m * (p * q) + p * q;
  }

  lemma Regrouped(m: int, p: nat, q: nat)
    ensures m * q * p == m * (p * q)
  {}

  lemma NextAmplitude(c: Settings, j: nat)
    requires c.scaleFactor > 0
    ensures Div(Amplitude(c, j), OfInt(c.scaleFactor)) == Amplitude(c, j + 1)
  {
    var a, f := Amplitude(c, j), c.scaleFactor as nat;
    PowerGrows(f, j, j);
    assert Power(f, j + 1) == Power(f, j) * f;
    NestedDivision(0x1_0000, Power(f, j), f);
    CancelFactor(a, f, ONE);
  }

  /** Behind the last octave that is taken nothing is added. */
  lemma {:induction false} NothingAdded(n: Noise, x: Int64, y: Int64, c: Settings, i: nat, k: nat)
    requires c.scale > 0 && c.freqFactor > 0 && c.scaleFactor > 0 && c.scale < Power(c.freqFactor, i)
    ensures Terms(n, x, y, c, i, k) == 0 && Weights(c, i, k) == 0
    decreases k - i
  {
    if i < k {
      PowerGrows(c.freqFactor, i, i + 1);
      NothingAdded(n, x, y, c, i + 1, k);
    }
  }

  /** From the octave i on, the loop adds what the octaves add. */
  lemma {:induction false} OctavesAre(n: Noise, x: Int64, y: Int64, c: Settings, octaves: nat, i: nat, sum: Sum)
    requires c.scale > 0 && c.freqFactor >= 0 && c.scaleFactor > 0 && sum.Sum?
    ensures var r := Octaves(n, x, y, c, octaves, Power(c.freqFactor, i), Amplitude(c, i), sum);
            r.Sum? ==>
              r == Sum(sum.result + Terms(n, x, y, c, i, i + octaves), sum.weights + Weights(c, i, i + octaves))
    decreases octaves
  {
    hide Octaves, Get1, Div, OctaveScale, Convertible, Amplitude;
    var freq := Power(c.freqFactor, i);
    Unfold(n, x, y, c, octaves, freq, Amplitude(c, i), sum);
    if octaves > 0 && freq > c.scale {
      HasFactor(c.freqFactor, i);
      NothingAdded(n, x, y, c, i, i + octaves);
    } else if octaves > 0 && freq > 0 {
      var g := Get1(n, x, y, OctaveScale(c, freq));
      if g.Value? {
        NextAmplitude(c, i);
        OctavesAre(n, x, y, c, octaves - 1, i + 1, Plus(sum, g.value, Amplitude(c, i)));
      }
    }
  }

  lemma {:induction false} HasFactor(base: nat, i: nat)
    requires Power(base, i) > 1
    ensures base > 0
  {}

  /** The average is the sum of all that the octaves add, divided by the sum of their amplitudes. */
  lemma AverageIs(n: Noise, x: Int64, y: Int64, c: Settings, octaves: Int32)
    requires Average(n, x, y, c, octaves).Value?
    ensures c.scale > 0 && c.freqFactor >= 0 && c.scaleFactor > 0 && octaves > 0 && Weights(c, 0, octaves) > 0
    ensures Average(n, x, y, c, octaves) ==
            Value(Trunc(Terms(n, x, y, c, 0, octaves) * 0x1_0000, Weights(c, 0, octaves)))
  {
    AverageIsDefinedIff(n, x, y, c, octaves);
    hide Octaves;
    assert Power(c.freqFactor, 0) == 1 && Power(c.scaleFactor, 0) == 1;
    OctavesAre(n, x, y, c, octaves, 0, Sum(OfInt(0), OfInt(0)));
  }
}
