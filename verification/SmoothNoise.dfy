/** Value noise: corner values on a grid, interpolated in integers or in Q16, and summed over
    octaves. */
module SmoothNoise {
  import opened FixedPoint

  type SignedChar = v: int | -128 <= v < 128

  /** The value at a grid corner and the curve that bends the interpolation parameter. */
  datatype Noise = Noise(valueAt: (int, int) -> SignedChar, curve: Raw -> Raw)

  /** What a call comes to. An overflow of a signed integer leaves the rest undefined. */
  datatype Outcome = IllegalArgument | Overflow | DividedByZero | Value(value: int)

  /** The conversion to a signed byte, which wraps around. */
  function ToSignedChar(v: int): SignedChar {
    (v + 128) % 256 - 128
  }

  /** The division of the source: one too low at the negative multiples of the divisor. */
  function FloorDiv(num: int, denom: int): int
    requires denom > 0
  {
    var r := Trunc(num, denom);
    if num >= 0 then r else r - 1
  }

  lemma FloorDivIs(num: int, denom: int)
    requires denom > 0
    ensures FloorDiv(num, denom) == num / denom - if num < 0 && num % denom == 0 then 1 else 0
  {
    if num < 0 {
      var q, r := num / denom, num % denom;
      assert num == denom * q + r;
      assert denom * q == q * denom && -q * denom == -(q * denom);
      if r == 0 {
        DivBounds(-num, -q, -q, denom);
      } else {
        assert (-q - 1) * denom == -(q * denom) - denom;
        FloorBetween(-num, -q - 1, denom);
      }
    }
  }

  lemma FloorBetween(a: int, q: int, n: int)
    requires n > 0 && q * n <= a < q * n + n
    ensures a / n == q
  {
    Quotient(a, n);
    assert (q + 1) * n == q * n + n && (a / n + 1) * n == a / n * n + n;
    if a / n < q {
      ProductGrows(a / n + 1, q, n);
    }
    if a / n > q {
      ProductGrows(q + 1, a / n, n);
    }
  }

  // ---------------------------------------------------------------- the grid cell of a point

  /** A cell and the distance from its start. */
  datatype Place = Place(chunk: int, offset: int)

  function Locate(x: int, scale: int): Place
    requires scale > 0
  {
    var chunk := FloorDiv(x, scale);
    Place(chunk, x - chunk * scale)
  }

  /** The same with the exact floor. */
  function LocateExactly(x: int, scale: int): Place
    requires scale > 0
  {
    Place(x / scale, x % scale)
  }

  /** The two agree, or the point is at the end of the cell before instead of at the start of its own. */
  lemma PlacesAgree(x: int, scale: int)
    requires scale > 0
    ensures var p, q := Locate(x, scale), LocateExactly(x, scale);
            && 0 <= p.offset <= scale && 0 <= q.offset < scale
            && (p == q || (q.offset == 0 && p == Place(q.chunk - 1, scale)))
  {
    FloorDivIs(x, scale);
    assert x == scale * (x / scale) + x % scale;
    assert scale * (x / scale) == x / scale * scale;
    assert (x / scale - 1) * scale == x / scale * scale - scale;
  }

  /** All that is computed of the cell fits a long. */
  predicate CellFits(x: int, scale: int)
    requires scale > 0
  {
    var chunk := FloorDiv(x, scale);
    FitsLong(chunk) && FitsLong(chunk + 1) && FitsLong(chunk * scale)
  }

  /** The coordinate keeps a distance from the ends of its type: one cell below and 1 above. */
  predicate Reachable(x: int, scale: int) {
    FitsLong(x - scale) && FitsLong(x + 1)
  }

  lemma ReachableFits(x: int, scale: int)
    requires scale > 0 && Reachable(x, scale)
    ensures CellFits(x, scale)
  {
    PlacesAgree(x, scale);
    ChunkBounds(FloorDiv(x, scale), scale, x);
  }

  lemma ChunkBounds(chunk: int, scale: int, x: int)
    requires scale > 0 && x - scale <= chunk * scale <= x
    ensures chunk >= 0 ==> chunk <= x
    ensures chunk < 0 ==> x - 1 <= chunk
  {
    if chunk >= 0 {
      ProductGrows(1, scale, chunk);
      assert scale * chunk == chunk * scale;
    } else {
      ProductGrows(1, scale, -chunk - 1);
      assert scale * (-chunk - 1) == -(chunk * scale) - scale;
    }
  }

  /** Exactly which cells fit: a coordinate below zero must have the end of the cell, counted away from
      zero, in its type; the largest coordinate needs a scale above 1. */
  lemma CellFitsIff(x: int, scale: int)
    requires scale > 0 && FitsLong(x)
    ensures CellFits(x, scale) <==>
            if x < 0 then (-x / scale + 1) * scale <= LONG_LIMIT else scale > 1 || x < LONG_LIMIT - 1
  {
    PlacesAgree(x, scale);
    var chunk := FloorDiv(x, scale);
    ChunkBounds(chunk, scale, x);
    if x < 0 {
      var k := -x / scale + 1;
      assert chunk == -k;
      assert chunk * scale == -(k * scale);
      DivBounds(-x, 0, -x, scale) by {
        ProductGrows(1, scale, -x);
        assert scale * -x == -x * scale;
      }
      if k * scale <= LONG_LIMIT {
        ProductGrows(1, scale, k);
        assert scale * k == k * scale;
      }
    } else {
      LargestCell(x, scale);
    }
  }

  /** Only with a scale of 1 is a coordinate the number of its cell. */
  lemma LargestCell(x: int, scale: int)
    requires scale > 0 && x >= 0
    ensures 0 <= x / scale <= x && 0 <= x / scale * scale <= x
    ensures scale > 1 && x > 0 ==> x / scale < x
  {
    Quotient(x, scale);
    DivBounds(x, 0, x, scale) by {
      ProductGrows(1, scale, x);
      assert scale * x == x * scale;
    }
    Nonneg(x / scale, scale);
    if scale > 1 && x / scale == x {
      ProductGrows(2, scale, x);
      assert scale * x == x * scale;
    }
  }

  /** A concrete coordinate at the end of the type whose cell starts before it. */
  lemma LastCellOverflows()
    ensures !CellFits(-LONG_LIMIT, 3)
  {
    assert Trunc(-LONG_LIMIT, 3) == -3074457345618258602;
  }

  // ---------------------------------------------------------------- integer noise

  function Mix(a: SignedChar, b: SignedChar, offset: int, scale: int): SignedChar
    requires scale > 0
  {
    ToSignedChar(Trunc((b - a) * offset, scale) + a)
  }

  function Blend(n: Noise, p: Place, q: Place, scale: int): SignedChar
    requires scale > 0
  {
    var a := Mix(n.valueAt(p.chunk, q.chunk), n.valueAt(p.chunk + 1, q.chunk), p.offset, scale);
    var b := Mix(n.valueAt(p.chunk, q.chunk + 1), n.valueAt(p.chunk + 1, q.chunk + 1), p.offset, scale);
    Mix(a, b, q.offset, scale)
  }

  function Get0(n: Noise, x: Int64, y: Int64, scale: Int32): Outcome
    requires scale >= 0
  {
    if scale == 0 then Value(0)
    else if !CellFits(x, scale) || !CellFits(y, scale) then Overflow
    else Value(Blend(n, Locate(x, scale), Locate(y, scale), scale))
  }

  /** The conversion never wraps: the value stays between the two that are mixed. */
  lemma MixBetween(a: SignedChar, b: SignedChar, offset: int, scale: int, lo: int, hi: int)
    requires 0 <= offset <= scale && scale > 0 && lo <= a <= hi && lo <= b <= hi
    ensures Mix(a, b, offset, scale) == Trunc((b - a) * offset, scale) + a
    ensures lo <= Mix(a, b, offset, scale) <= hi
    ensures offset == 0 ==> Mix(a, b, offset, scale) == a
    ensures offset == scale ==> Mix(a, b, offset, scale) == b
  {
    TruncPart(b - a, offset, scale);
  }

  /** The corners of the cell stay within bounds. */
  ghost predicate CornersWithin(n: Noise, lo: int, hi: int) {
    forall i, j :: lo <= n.valueAt(i, j) <= hi
  }

  lemma MixEnds(a: SignedChar, b: SignedChar, scale: int)
    requires scale > 0
    ensures Mix(a, b, 0, scale) == a && Mix(a, b, scale, scale) == b
  {
    MixBetween(a, b, 0, scale, -128, 127);
    MixBetween(a, b, scale, scale, -128, 127);
  }

  /** The end of a cell is the start of the next one. */
  lemma BlendWraps(n: Noise, p: Place, q: Place, scale: int)
    requires scale > 0
    ensures p.offset == scale ==> Blend(n, p, q, scale) == Blend(n, Place(p.chunk + 1, 0), q, scale)
    ensures q.offset == scale ==> Blend(n, p, q, scale) == Blend(n, p, Place(q.chunk + 1, 0), scale)
  {
    if p.offset == scale {
      MixEnds(n.valueAt(p.chunk, q.chunk), n.valueAt(p.chunk + 1, q.chunk), scale);
      MixEnds(n.valueAt(p.chunk + 1, q.chunk), n.valueAt(p.chunk + 2, q.chunk), scale);
      MixEnds(n.valueAt(p.chunk, q.chunk + 1), n.valueAt(p.chunk + 1, q.chunk + 1), scale);
      MixEnds(n.valueAt(p.chunk + 1, q.chunk + 1), n.valueAt(p.chunk + 2, q.chunk + 1), scale);
    }
    if q.offset == scale {
      var a := Mix(n.valueAt(p.chunk, q.chunk), n.valueAt(p.chunk + 1, q.chunk), p.offset, scale);
      var b := Mix(n.valueAt(p.chunk, q.chunk + 1), n.valueAt(p.chunk + 1, q.chunk + 1), p.offset, scale);
      var c := Mix(n.valueAt(p.chunk, q.chunk + 2), n.valueAt(p.chunk + 1, q.chunk + 2), p.offset, scale);
      assert q.chunk + 1 + 1 == q.chunk + 2;
      MixEnds(a, b, scale);
      MixEnds(b, c, scale);
    }
  }

  /** The imprecise division makes no difference to the noise. */
  lemma Get0IsExact(n: Noise, x: Int64, y: Int64, scale: Int32)
    requires scale > 0 && CellFits(x, scale) && CellFits(y, scale)
    ensures Get0(n, x, y, scale) == Value(Blend(n, LocateExactly(x, scale), LocateExactly(y, scale), scale))
  {
    PlacesAgree(x, scale);
    PlacesAgree(y, scale);
    var p, q := Locate(x, scale), Locate(y, scale);
    BlendWraps(n, p, q, scale);
    BlendWraps(n, LocateExactly(x, scale), q, scale);
  }

  /** The noise stays between the smallest and the largest corner value. */
  lemma Get0Between(n: Noise, x: Int64, y: Int64, scale: Int32, lo: int, hi: int)
    requires scale > 0 && CornersWithin(n, lo, hi) && Get0(n, x, y, scale).Value?
    ensures lo <= Get0(n, x, y, scale).value <= hi
  {
    PlacesAgree(x, scale);
    PlacesAgree(y, scale);
    var p, q := Locate(x, scale), Locate(y, scale);
    var v0, v1 := n.valueAt(p.chunk, q.chunk), n.valueAt(p.chunk + 1, q.chunk);
    var v2, v3 := n.valueAt(p.chunk, q.chunk + 1), n.valueAt(p.chunk + 1, q.chunk + 1);
    MixBetween(v0, v1, p.offset, scale, lo, hi);
    MixBetween(v2, v3, p.offset, scale, lo, hi);
    MixBetween(Mix(v0, v1, p.offset, scale), Mix(v2, v3, p.offset, scale), q.offset, scale, lo, hi);
  }

  /** At a corner, on either side of zero, the noise is the corner's value. */
  lemma Get0AtCorner(n: Noise, i: int, j: int, scale: Int32)
    requires scale > 0 && FitsLong(i * scale) && FitsLong(j * scale)
    requires CellFits(i * scale, scale) && CellFits(j * scale, scale)
    ensures Get0(n, i * scale, j * scale, scale) == Value(n.valueAt(i, j))
  {
    Get0IsExact(n, i * scale, j * scale, scale);
    AtCorner(i, scale);
    AtCorner(j, scale);
    MixEnds(n.valueAt(i, j), n.valueAt(i + 1, j), scale);
    MixEnds(n.valueAt(i, j + 1), n.valueAt(i + 1, j + 1), scale);
    MixEnds(n.valueAt(i, j), n.valueAt(i, j + 1), scale);
  }

  lemma AtCorner(i: int, scale: int)
    requires scale > 0
    ensures LocateExactly(i * scale, scale) == Place(i, 0)
  {
    DivBounds(i * scale, i, i, scale);
    assert i * scale == scale * (i * scale / scale) + i * scale % scale;
    assert scale * i == i * scale;
  }

  // ---------------------------------------------------------------- fixed-point noise

  function Weight(n: Noise, offset: int, scale: int): Raw
    requires scale > 0
  {
    n.curve(Div(OfInt(offset), OfInt(scale)))
  }

  function Smooth(n: Noise, p: Place, q: Place, scale: int): Raw
    requires scale > 0
  {
    var tx, ty := Weight(n, p.offset, scale), Weight(n, q.offset, scale);
    var a := Lerp(OfInt(n.valueAt(p.chunk, q.chunk)), OfInt(n.valueAt(p.chunk + 1, q.chunk)), tx);
    var b := Lerp(OfInt(n.valueAt(p.chunk, q.chunk + 1)), OfInt(n.valueAt(p.chunk + 1, q.chunk + 1)), tx);
    Div(Lerp(a, b, ty), OfInt(127))
  }

  function Get1(n: Noise, x: Int64, y: Int64, scale: Int32): Outcome
    requires scale >= 0
  {
    if scale == 0 then Value(0)
    else if !CellFits(x, scale) || !CellFits(y, scale) || !Convertible(scale) then Overflow
    else Value(Smooth(n, Locate(x, scale), Locate(y, scale), scale))
  }

  /** The noise is defined exactly for scales below 32768 at points whose cell fits. */
  lemma Get1IsDefinedIff(n: Noise, x: Int64, y: Int64, scale: Int32)
    requires scale > 0
    ensures Get1(n, x, y, scale).Value? <==> scale < 0x8000 && CellFits(x, scale) && CellFits(y, scale)
    ensures Get1(n, x, y, scale) == Overflow <==> scale >= 0x8000 || !CellFits(x, scale) || !CellFits(y, scale)
    ensures Reachable(x, scale) && Reachable(y, scale) ==> (Get1(n, x, y, scale).Value? <==> scale < 0x8000)
  {
    ConvertibleIff(scale);
    if Reachable(x, scale) && Reachable(y, scale) {
      ReachableFits(x, scale);
      ReachableFits(y, scale);
    }
  }

  /** The curve leads from 0 to 1. */
  ghost predicate CurveEnds(n: Noise) {
    n.curve(0) == 0 && n.curve(ONE) == ONE
  }

  /** The curve does not leave the range from 0 to 1. */
  ghost predicate CurveStays(n: Noise) {
    forall t :: 0 <= t <= ONE ==> 0 <= n.curve(t) <= ONE
  }

  lemma WeightEnds(n: Noise, scale: int)
    requires scale > 0 && CurveEnds(n)
    ensures Weight(n, 0, scale) == 0 && Weight(n, scale, scale) == ONE
  {
    Fraction(0, scale);
    Fraction(scale, scale);
  }

  lemma LerpEnds(a: Raw, b: Raw)
    ensures Lerp(a, b, 0) == a && Lerp(a, b, ONE) == b
  {
    MulPart(b - a, 0);
    MulPart(b - a, ONE);
  }

  lemma SmoothWraps(n: Noise, p: Place, q: Place, scale: int)
    requires scale > 0 && CurveEnds(n)
    ensures p.offset == scale ==> Smooth(n, p, q, scale) == Smooth(n, Place(p.chunk + 1, 0), q, scale)
    ensures q.offset == scale ==> Smooth(n, p, q, scale) == Smooth(n, p, Place(q.chunk + 1, 0), scale)
  {
    WeightEnds(n, scale);
    if p.offset == scale {
      LerpEnds(OfInt(n.valueAt(p.chunk, q.chunk)), OfInt(n.valueAt(p.chunk + 1, q.chunk)));
      LerpEnds(OfInt(n.valueAt(p.chunk + 1, q.chunk)), OfInt(n.valueAt(p.chunk + 2, q.chunk)));
      LerpEnds(OfInt(n.valueAt(p.chunk, q.chunk + 1)), OfInt(n.valueAt(p.chunk + 1, q.chunk + 1)));
      LerpEnds(OfInt(n.valueAt(p.chunk + 1, q.chunk + 1)), OfInt(n.valueAt(p.chunk + 2, q.chunk + 1)));
    }
    if q.offset == scale {
      var tx := Weight(n, p.offset, scale);
      var a := Lerp(OfInt(n.valueAt(p.chunk, q.chunk)), OfInt(n.valueAt(p.chunk + 1, q.chunk)), tx);
      var b := Lerp(OfInt(n.valueAt(p.chunk, q.chunk + 1)), OfInt(n.valueAt(p.chunk + 1, q.chunk + 1)), tx);
      var c := Lerp(OfInt(n.valueAt(p.chunk, q.chunk + 2)), OfInt(n.valueAt(p.chunk + 1, q.chunk + 2)), tx);
      assert q.chunk + 1 + 1 == q.chunk + 2;
      LerpEnds(a, b);
      LerpEnds(b, c);
    }
  }

  /** The imprecise division makes no difference here either, for a curve that leads from 0 to 1. */
  lemma Get1IsExact(n: Noise, x: Int64, y: Int64, scale: Int32)
    requires 0 < scale < 0x8000 && CellFits(x, scale) && CellFits(y, scale) && CurveEnds(n)
    ensures Get1(n, x, y, scale) == Value(Smooth(n, LocateExactly(x, scale), LocateExactly(y, scale), scale))
  {
    Get1IsDefinedIff(n, x, y, scale);
    PlacesAgree(x, scale);
    PlacesAgree(y, scale);
    var p, q := Locate(x, scale), Locate(y, scale);
    SmoothWraps(n, p, q, scale);
    SmoothWraps(n, LocateExactly(x, scale), q, scale);
  }

  /** The noise, in units of 127, stays between the smallest and the largest corner value. */
  lemma Get1Between(n: Noise, x: Int64, y: Int64, scale: Int32, lo: int, hi: int)
    requires scale > 0 && CornersWithin(n, lo, hi) && CurveStays(n) && Get1(n, x, y, scale).Value?
    ensures Trunc(OfInt(lo), 127) <= Get1(n, x, y, scale).value <= Trunc(OfInt(hi), 127)
  {
    PlacesAgree(x, scale);
    PlacesAgree(y, scale);
    var p, q := Locate(x, scale), Locate(y, scale);
    Fraction(p.offset, scale);
    Fraction(q.offset, scale);
    var tx, ty := Weight(n, p.offset, scale), Weight(n, q.offset, scale);
    var v0, v1 := OfInt(n.valueAt(p.chunk, q.chunk)), OfInt(n.valueAt(p.chunk + 1, q.chunk));
    var v2, v3 := OfInt(n.valueAt(p.chunk, q.chunk + 1)), OfInt(n.valueAt(p.chunk + 1, q.chunk + 1));
    LerpBetween(v0, v1, tx, OfInt(lo), OfInt(hi));
    LerpBetween(v2, v3, tx, OfInt(lo), OfInt(hi));
    var a, b := Lerp(v0, v1, tx), Lerp(v2, v3, tx);
    LerpBetween(a, b, ty, OfInt(lo), OfInt(hi));
    TruncGrows(OfInt(lo), Lerp(a, b, ty));
    TruncGrows(Lerp(a, b, ty), OfInt(hi));
  }

  /** Dividing by 127 in fixed point, which is monotone. */
  lemma TruncGrows(a: int, b: int)
    requires a <= b
    ensures Div(a, OfInt(127)) == Trunc(a, 127) <= Trunc(b, 127) == Div(b, OfInt(127))
  {}

  /** Within the documented range of the curve, every product and shifted dividend fits a long. */
  lemma LongSuffices(n: Noise, offset: int, scale: int, a: Raw, b: Raw)
    requires 0 <= offset <= scale && 0 < scale < 0x8000 && CurveStays(n)
    requires OfInt(-128) <= a <= OfInt(127) && OfInt(-128) <= b <= OfInt(127)
    ensures FitsLong(OfInt(offset) * ONE) && FitsLong((b - a) * Weight(n, offset, scale)) && FitsLong(a * ONE)
  {
    Fraction(offset, scale);
    var t := Weight(n, offset, scale);
    if b >= a {
      ProductGrows(t, ONE, b - a);
      Nonneg(b - a, t);
    } else {
      ProductGrows(t, ONE, a - b);
      Nonneg(a - b, t);
      assert t * (a - b) == -((b - a) * t);
    }
    assert t * (b - a) == (b - a) * t;
  }

  // ---------------------------------------------------------------- octaves

  /** The weighted sum and the sum of the weights; or what has gone wrong on the way. */
  datatype Sum = Sum(result: Raw, weights: Raw) | ZeroDivisor | Overflowed

  datatype Settings = Settings(scale: Int32, scaleFactor: Int32, freqFactor: Int32)

  predicate Legal(c: Settings, octaves: int) {
    c.scale > 0 && octaves > 0 && c.scaleFactor >= 0 && c.freqFactor >= 0
  }

  /** The scale of an octave. */
  function OctaveScale(c: Settings, freq: int): (scale: Int32)
    requires c.scale > 0 && freq > 0
    ensures 0 <= scale <= c.scale && (scale != 0 <==> freq <= c.scale)
  {
    Dividing(c.scale, freq);
    c.scale / freq
  }

  lemma Dividing(a: int, b: int)
    requires a > 0 && b > 0
    ensures 0 <= a / b <= a && (a / b != 0 <==> b <= a)
  {
    Quotient(a, b);
    if b <= a {
      DivBounds(a, 1, a, b) by {
        ProductGrows(1, b, a);
        assert b * a == a * b;
      }
    } else {
      FloorBetween(a, 0, b);
    }
  }

  /** What the octaves from `freq` on add. */
  function Octaves(n: Noise, x: Int64, y: Int64, c: Settings, octaves: int, freq: int, amplitude: Raw, sum: Sum): Sum
    requires c.scale > 0 && c.scaleFactor >= 0 && c.freqFactor >= 0 && freq >= 0 && sum.Sum?
    decreases octaves
  {
    if octaves <= 0 then sum
    else if freq == 0 then ZeroDivisor
    else
      var scale := OctaveScale(c, freq);
      if scale == 0 then sum
      else
        var g := Get1(n, x, y, scale);
        Nonneg(freq, c.freqFactor);
        if !g.Value? || !Convertible(c.scaleFactor) then Overflowed
        else if c.scaleFactor == 0 then ZeroDivisor
        else if !FitsInt(freq * c.freqFactor) then Overflowed
        else Octaves(n, x, y, c, octaves - 1, freq * c.freqFactor, Div(amplitude, OfInt(c.scaleFactor)),
                     Plus(sum, g.value, amplitude))
  }

  function Plus(sum: Sum, g: Raw, amplitude: Raw): Sum
    requires sum.Sum?
  {
    Sum(sum.result + Mul(g, amplitude), sum.weights + amplitude)
  }

  /** One octave, and then the others. */
  lemma Unfold(n: Noise, x: Int64, y: Int64, c: Settings, octaves: int, freq: int, amplitude: Raw, sum: Sum)
    requires c.scale > 0 && c.scaleFactor >= 0 && c.freqFactor >= 0 && freq >= 0 && sum.Sum?
    ensures freq * c.freqFactor >= 0
    ensures Octaves(n, x, y, c, octaves, freq, amplitude, sum) ==
            if octaves <= 0 then sum
            else if freq == 0 then ZeroDivisor
            else if OctaveScale(c, freq) == 0 then sum
            else if !Get1(n, x, y, OctaveScale(c, freq)).Value? || !Convertible(c.scaleFactor) then Overflowed
            else if c.scaleFactor == 0 then ZeroDivisor
            else if !FitsInt(freq * c.freqFactor) then Overflowed
            else Octaves(n, x, y, c, octaves - 1, freq * c.freqFactor, Div(amplitude, OfInt(c.scaleFactor)),
                         Plus(sum, Get1(n, x, y, OctaveScale(c, freq)).value, amplitude))
  {
    Nonneg(freq, c.freqFactor);
  }

  /** The average over all octaves, weighted with the amplitudes. */
  function Average(n: Noise, x: Int64, y: Int64, c: Settings, octaves: Int32): Outcome {
    if !Legal(c, octaves) then IllegalArgument
    else
      match Octaves(n, x, y, c, octaves, 1, OfInt(1), Sum(OfInt(0), OfInt(0)))
      case ZeroDivisor => DividedByZero
      case Overflowed => Overflow
      case Sum(result, weights) => if weights <= 0 then DividedByZero else Value(Div(result, weights))
  }

  method Get(n: Noise, x: Int64, y: Int64, scale: Int32, octaves: Int32, scaleFactor: Int32, freqFactor: Int32)
    returns (r: Outcome)
    ensures r == Average(n, x, y, Settings(scale, scaleFactor, freqFactor), octaves)
    ensures r == IllegalArgument <==> scale <= 0 || octaves <= 0 || scaleFactor < 0 || freqFactor < 0
  {
    hide Octaves, Get1, Mul, Div, OctaveScale, Convertible;
    ghost var c := Settings(scale, scaleFactor, freqFactor);
    if scale <= 0 || octaves <= 0 || scaleFactor < 0 || freqFactor < 0 {
      return IllegalArgument;
    }
    var freq: int, left: int := 1, octaves;
    var result, amplitude, weights := OfInt(0), OfInt(1), OfInt(0);
    ghost var total := Octaves(n, x, y, c, octaves, 1, OfInt(1), Sum(OfInt(0), OfInt(0)));
    while left > 0
      invariant freq >= 0 && 0 <= left
      invariant total == Octaves(n, x, y, c, left, freq, amplitude, Sum(result, weights))
    {
      Unfold(n, x, y, c, left, freq, amplitude, Sum(result, weights));
      if freq == 0 {
        return DividedByZero;
      }
      var octaveScale := OctaveScale(Settings(scale, scaleFactor, freqFactor), freq);
      if octaveScale == 0 {
        break;
      }
      var g := Get1(n, x, y, octaveScale);
      if !g.Value? || !Convertible(scaleFactor) {
        return Overflow;
      }
      result := result + Mul(g.value, amplitude);
      weights := weights + amplitude;
      if scaleFactor == 0 {
        return DividedByZero;
      }
      amplitude := Div(amplitude, OfInt(scaleFactor));
      freq := freq * freqFactor;
      if !FitsInt(freq) {
        return Overflow;
      }
      left := left - 1;
    }
    Unfold(n, x, y, c, left, freq, amplitude, Sum(result, weights));
    if weights <= 0 {
      return DividedByZero;
    }
    return Value(Div(result, weights));
  }

  // ---------------------------------------------------------------- when the average is defined

  /** A frequency is 1, or a product of the factor and something. */
  predicate Frequency(freq: int, factor: int) {
    freq == 1 || (0 <= factor <= freq)
  }

  /** Below a scale of 32768 the next frequency always fits an int. */
  lemma FrequencyFits(freq: int, factor: Int32, scale: int)
    requires factor > 0 && freq > 0 && Frequency(freq, factor) && freq <= scale < 0x8000
    ensures FitsInt(freq * factor) && freq * factor > 0 && Frequency(freq * factor, factor)
  {
    ProductGrows(1, freq, factor);
    if freq > 1 {
      ProductGrows(factor, 0x8000, freq);
      assert factor * freq == freq * factor;
    }
  }

  /** The cells of the point in the octave of a frequency, if there is one, fit. */
  predicate OctaveFits(x: int, y: int, c: Settings, freq: nat)
    requires c.scale > 0
  {
    freq > 0 && OctaveScale(c, freq) > 0 ==>
      CellFits(x, OctaveScale(c, freq)) && CellFits(y, OctaveScale(c, freq))
  }

  function Power(base: nat, k: nat): nat {
    if k == 0 then 1 else Power(base, k - 1) * base
  }

  /** The cells of the point fit in the octaves from the i-th to the one before the k-th. */
  ghost predicate OctavesFit(x: int, y: int, c: Settings, i: nat, k: int)
    requires c.scale > 0 && c.freqFactor >= 0
  {
    forall j: nat :: i <= j < k ==> OctaveFits(x, y, c, Power(c.freqFactor, j))
  }

  /** The cells of the point fit in all octaves that are taken: with a scale factor of zero that is only
      the first one. */
  ghost predicate AllFit(x: int, y: int, c: Settings, octaves: int)
    requires c.scale > 0 && c.freqFactor >= 0
  {
    OctavesFit(x, y, c, 0, if c.scaleFactor == 0 then 1 else octaves)
  }

  lemma {:induction false} PowerGrows(base: nat, i: nat, j: nat)
    requires base > 0 && i <= j
    ensures 0 < Power(base, i) <= Power(base, j)
    decreases j
  {
    if i < j {
      PowerGrows(base, i, j - 1);
      ProductGrows(1, base, Power(base, j - 1));
      assert base * Power(base, j - 1) == Power(base, j);
    } else if i > 0 {
      PowerGrows(base, i - 1, i - 1);
      ProductGrows(1, base, Power(base, i - 1));
      assert base * Power(base, i - 1) == Power(base, i);
    }
  }

  /** Behind the last octave there are no cells to fit. */
  lemma NoMoreOctaves(x: int, y: int, c: Settings, i: nat, k: int)
    requires c.scale > 0 && c.freqFactor > 0 && c.scale < Power(c.freqFactor, i)
    ensures OctavesFit(x, y, c, i, k)
  {
    forall j: nat | i <= j < k ensures OctaveFits(x, y, c, Power(c.freqFactor, j)) {
      PowerGrows(c.freqFactor, i, j);
    }
  }

  lemma OneOctaveFirst(x: int, y: int, c: Settings, i: nat, k: int)
    requires c.scale > 0 && c.freqFactor >= 0 && i < k
    ensures OctavesFit(x, y, c, i, k) <==>
            OctaveFits(x, y, c, Power(c.freqFactor, i)) && OctavesFit(x, y, c, i + 1, k)
  {}

  /** With factors that are converted and not zero, all goes well exactly when the cells fit. */
  lemma {:induction false} OctavesDefined(n: Noise, x: Int64, y: Int64, c: Settings, octaves: int, i: nat,
                                          amplitude: Raw, sum: Sum)
    requires 0 < c.scale < 0x8000 && 0 < c.scaleFactor < 0x8000 && c.freqFactor > 0
    requires Power(c.freqFactor, i) > 0 && Frequency(Power(c.freqFactor, i), c.freqFactor)
    requires amplitude >= 0 && sum.Sum? && octaves >= 0
    ensures var r := Octaves(n, x, y, c, octaves, Power(c.freqFactor, i), amplitude, sum);
            if OctavesFit(x, y, c, i, i + octaves) then r.Sum? && r.weights >= sum.weights else r == Overflowed
    decreases octaves
  {
    hide Octaves, Get1, Mul, Div, OctaveScale, Convertible, OctavesFit, CellFits, Reachable;
    var freq := Power(c.freqFactor, i);
    Unfold(n, x, y, c, octaves, freq, amplitude, sum);
    if octaves == 0 {
      NoOctaves(x, y, c, i);
    } else if freq > c.scale {
      NoMoreOctaves(x, y, c, i, i + octaves);
    } else {
      var scale := OctaveScale(c, freq);
      Get1IsDefinedIff(n, x, y, scale);
      OneOctaveFirst(x, y, c, i, i + octaves);
      ConvertibleIff(c.scaleFactor);
      FrequencyFits(freq, c.freqFactor, c.scale);
      AmplitudeNotNegative(amplitude, c.scaleFactor);
      if Get1(n, x, y, scale).Value? {
        OctavesDefined(n, x, y, c, octaves - 1, i + 1, Div(amplitude, OfInt(c.scaleFactor)),
                       Plus(sum, Get1(n, x, y, scale).value, amplitude));
      }
    }
  }

  lemma NoOctaves(x: int, y: int, c: Settings, i: nat)
    requires c.scale > 0 && c.freqFactor >= 0
    ensures OctavesFit(x, y, c, i, i)
  {}

  lemma AmplitudeNotNegative(amplitude: Raw, factor: int)
    requires amplitude >= 0 && factor > 0
    ensures Div(amplitude, OfInt(factor)) >= 0
  {
    QuotientNotNegative(amplitude * ONE, OfInt(factor));
  }

  lemma QuotientNotNegative(a: int, b: int)
    requires a >= 0 && b > 0
    ensures a / b >= 0
  {}

  /** What the first octave does: it is always taken. */
  lemma FirstOctave(n: Noise, x: Int64, y: Int64, c: Settings, octaves: int)
    requires Legal(c, octaves)
    ensures var r, g := Octaves(n, x, y, c, octaves, 1, OfInt(1), Sum(OfInt(0), OfInt(0))), Get1(n, x, y, c.scale);
            r == if !g.Value? || !Convertible(c.scaleFactor) then Overflowed
                 else if c.scaleFactor == 0 then ZeroDivisor
                 else Octaves(n, x, y, c, octaves - 1, c.freqFactor, Div(ONE, OfInt(c.scaleFactor)), Sum(g.value, ONE))
  {
    hide Octaves, Get1, Div, Convertible;
    Unfold(n, x, y, c, octaves, 1, OfInt(1), Sum(OfInt(0), OfInt(0)));
    assert OctaveScale(c, 1) == c.scale;
    if Get1(n, x, y, c.scale).Value? {
      MulPart(Get1(n, x, y, c.scale).value, ONE);
    }
  }

  /** What the documented arguments come to, exactly: the conversion of the scale or of the scale
      factor overflows from 32768 on, and so does the cell of a point too near the ends of its type in
      an octave that is taken; otherwise a scale factor of zero divides the amplitude by zero, and a
      frequency factor of zero the scale of a second octave; all others give a value. */
  lemma AverageIsDefinedIff(n: Noise, x: Int64, y: Int64, c: Settings, octaves: Int32)
    requires Legal(c, octaves)
    ensures Average(n, x, y, c, octaves) == Overflow <==>
              c.scale >= 0x8000 || c.scaleFactor >= 0x8000 || !AllFit(x, y, c, octaves)
    ensures Average(n, x, y, c, octaves) == DividedByZero <==>
              && c.scale < 0x8000 && c.scaleFactor < 0x8000 && AllFit(x, y, c, octaves)
              && (c.scaleFactor == 0 || (c.freqFactor == 0 && octaves > 1))
    ensures Average(n, x, y, c, octaves) != IllegalArgument
  {
    hide Octaves, Get1, Mul, Div, Convertible, OctavesFit, CellFits, Reachable;
    FirstOctave(n, x, y, c, octaves);
    Get1IsDefinedIff(n, x, y, c.scale);
    ConvertibleIff(c.scaleFactor);
    FirstFits(x, y, c, octaves);
    if Get1(n, x, y, c.scale).Value? && 0 < c.scaleFactor < 0x8000 {
      var g, amplitude := Get1(n, x, y, c.scale).value, Div(ONE, OfInt(c.scaleFactor));
      AmplitudeNotNegative(ONE, c.scaleFactor);
      Unfold(n, x, y, c, octaves - 1, c.freqFactor, amplitude, Sum(g, ONE));
      if c.freqFactor > 0 {
        FirstPower(c.freqFactor);
        OctavesDefined(n, x, y, c, octaves - 1, 1, amplitude, Sum(g, ONE));
      }
    }
  }

  lemma FirstPower(base: nat)
    ensures Power(base, 0) == 1 && Power(base, 1) == base
  {}

  /** The cells of the first octave are those of the scale; without a frequency there are no others. */
  lemma FirstFits(x: int, y: int, c: Settings, octaves: int)
    requires Legal(c, octaves)
    ensures AllFit(x, y, c, octaves) <==>
            && CellFits(x, c.scale) && CellFits(y, c.scale)
            && (c.scaleFactor == 0 || c.freqFactor == 0 || OctavesFit(x, y, c, 1, octaves))
  {
    hide CellFits;
    assert Power(c.freqFactor, 0) == 1 && OctaveScale(c, 1) == c.scale;
    assert OctaveFits(x, y, c, 1) <==> CellFits(x, c.scale) && CellFits(y, c.scale);
    OneOctaveFirst(x, y, c, 0, if c.scaleFactor == 0 then 1 else octaves);
    if c.freqFactor == 0 {
      forall j: nat | 1 <= j < octaves ensures OctaveFits(x, y, c, Power(c.freqFactor, j)) {
        assert Power(c.freqFactor, j) == Power(c.freqFactor, j - 1) * 0;
      }
    }
  }

  /** A point that keeps a distance of one cell from the ends of its type fits in all octaves. */
  lemma ReachableFitsAll(x: int, y: int, c: Settings, octaves: int)
    requires Legal(c, octaves) && Reachable(x, c.scale) && Reachable(y, c.scale) && FitsLong(x) && FitsLong(y)
    ensures AllFit(x, y, c, octaves)
  {
    hide CellFits, OctaveScale;
    forall j: nat | 0 <= j < octaves ensures OctaveFits(x, y, c, Power(c.freqFactor, j)) {
      var freq := Power(c.freqFactor, j);
      if freq > 0 && OctaveScale(c, freq) > 0 {
        ReachableFits(x, OctaveScale(c, freq));
        ReachableFits(y, OctaveScale(c, freq));
      }
    }
  }

  /** Concrete arguments, all of them documented: a scale factor of zero, a frequency factor of zero,
      and a scale of 65536, whose conversion overflows and on a wrapping machine is a divisor of zero. */
  lemma DocumentedArgumentsFail(n: Noise)
    ensures Average(n, 0, 0, Settings(64, 0, 2), 1) == DividedByZero
    ensures Average(n, 0, 0, Settings(64, 2, 0), 2) == DividedByZero
    ensures Average(n, 0, 0, Settings(0x1_0000, 2, 2), 1) == Overflow && Wrapped(OfInt(0x1_0000)) == 0
  {
    hide Average, AllFit;
    WrappedToZero(0x1_0000);
    ReachableFitsAll(0, 0, Settings(64, 0, 2), 1);
    ReachableFitsAll(0, 0, Settings(64, 2, 0), 2);
    AverageIsDefinedIff(n, 0, 0, Settings(64, 0, 2), 1);
    AverageIsDefinedIff(n, 0, 0, Settings(64, 2, 0), 2);
    AverageIsDefinedIff(n, 0, 0, Settings(0x1_0000, 2, 2), 1);
  }

  // ---------------------------------------------------------------- the average stays in range

  /** The sum of the octaves does not exceed the sum of the weights. */
  ghost predicate Bounded(sum: Sum, lowest: int) {
    sum.Sum? && -sum.weights <= sum.result <= sum.weights && (lowest >= 0 ==> sum.result >= 0)
  }

  lemma OctaveTerm(g: Raw, amplitude: Raw, lowest: int)
    requires -ONE <= g <= ONE && amplitude >= 0 && (lowest >= 0 ==> g >= 0)
    ensures -amplitude <= Mul(g, amplitude) <= amplitude && (lowest >= 0 ==> Mul(g, amplitude) >= 0)
  {
    if g >= 0 {
      MulPart(amplitude, g);
      assert g * amplitude == amplitude * g;
    } else {
      ProductGrows(-g, ONE, amplitude);
      assert -g * amplitude == -(g * amplitude);
      Nonneg(-g, amplitude);
      DivBounds(g * amplitude, -amplitude, 0, ONE);
    }
  }

  lemma Get1InUnit(n: Noise, x: Int64, y: Int64, scale: Int32, lowest: int)
    requires scale > 0 && CurveStays(n) && CornersWithin(n, lowest, 127) && lowest >= -127
    requires Get1(n, x, y, scale).Value?
    ensures var g := Get1(n, x, y, scale).value; -ONE <= g <= ONE && (lowest >= 0 ==> g >= 0)
  {
    Get1Between(n, x, y, scale, lowest, 127);
  }

  lemma {:induction false} OctavesBounded(n: Noise, x: Int64, y: Int64, c: Settings, octaves: int, freq: int,
                                          amplitude: Raw, sum: Sum, lowest: int)
    requires c.scale > 0 && c.scaleFactor >= 0 && freq >= 0 && c.freqFactor >= 0
    requires CurveStays(n) && CornersWithin(n, lowest, 127) && lowest >= -127
    requires 0 <= amplitude <= ONE && Bounded(sum, lowest)
    ensures var r := Octaves(n, x, y, c, octaves, freq, amplitude, sum);
            r.Sum? ==> Bounded(r, lowest) && r.weights <= sum.weights + (if octaves > 0 then octaves * ONE else 0)
    decreases octaves
  {
    hide Octaves, Get1, Mul, Div, CurveStays, CornersWithin, OctaveScale, Convertible;
    Unfold(n, x, y, c, octaves, freq, amplitude, sum);
    if octaves > 0 && 0 < freq <= c.scale && c.scaleFactor > 0 {
      var scale := OctaveScale(c, freq);
      if Get1(n, x, y, scale).Value? {
        var g := Get1(n, x, y, scale).value;
        Get1InUnit(n, x, y, scale, lowest);
        OctaveTerm(g, amplitude, lowest);
        AmplitudeShrinks(amplitude, c.scaleFactor);
        OctavesBounded(n, x, y, c, octaves - 1, freq * c.freqFactor, Div(amplitude, OfInt(c.scaleFactor)),
                       Plus(sum, g, amplitude), lowest);
      }
    }
  }

  lemma AmplitudeShrinks(amplitude: Raw, factor: int)
    requires 0 <= amplitude && factor > 0
    ensures 0 <= Div(amplitude, OfInt(factor)) <= amplitude
  {
    ProductGrows(1, factor, ONE);
    ProductGrows(ONE, OfInt(factor), amplitude);
    assert amplitude * OfInt(factor) == OfInt(factor) * amplitude;
    TruncBounds(amplitude * ONE, 0, amplitude, OfInt(factor));
  }

  /** The average lies between -1 and 1, and between 0 and 1 when no corner value is negative. */
  lemma AverageInUnit(n: Noise, x: Int64, y: Int64, c: Settings, octaves: Int32, lowest: int)
    requires CurveStays(n) && CornersWithin(n, lowest, 127) && lowest >= -127
    requires Average(n, x, y, c, octaves).Value?
    ensures var v := Average(n, x, y, c, octaves).value;
            -ONE <= v <= ONE && (lowest >= 0 ==> v >= 0)
  {
    hide Octaves, Get1, CurveStays, CornersWithin;
    var zero := Sum(OfInt(0), OfInt(0));
    OctavesBounded(n, x, y, c, octaves, 1, OfInt(1), zero, lowest);
    var sum := Octaves(n, x, y, c, octaves, 1, OfInt(1), zero);
    TruncBounds(sum.result * ONE, if lowest >= 0 then 0 else -ONE, ONE, sum.weights);
  }

  /** The last division is defined too: its dividend fits a long for any number of octaves. */
  lemma AverageFits(n: Noise, x: Int64, y: Int64, c: Settings, octaves: Int32)
    requires Legal(c, octaves) && CurveStays(n) && CornersWithin(n, -127, 127)
    ensures var sum := Octaves(n, x, y, c, octaves, 1, OfInt(1), Sum(OfInt(0), OfInt(0)));
            sum.Sum? ==> FitsLong(sum.result * ONE) && FitsLong(sum.weights)
  {
    hide Octaves, CurveStays, CornersWithin;
    OctavesBounded(n, x, y, c, octaves, 1, OfInt(1), Sum(OfInt(0), OfInt(0)), -127);
  }

  /** One octave is the plain noise. */
  lemma OneOctave(n: Noise, x: Int64, y: Int64, c: Settings)
    requires Legal(c, 1) && 0 < c.scaleFactor < 0x8000
    ensures Average(n, x, y, c, 1) == Get1(n, x, y, c.scale)
  {
    hide Get1;
    FirstOctave(n, x, y, c, 1);
    ConvertibleIff(c.scaleFactor);
    if Get1(n, x, y, c.scale).Value? {
      TruncExact(Get1(n, x, y, c.scale).value, ONE);
    } else {
      OverflowOnly(n, x, y, c.scale);
    }
  }

  lemma OverflowOnly(n: Noise, x: Int64, y: Int64, scale: Int32)
    requires scale >= 0
    ensures Get1(n, x, y, scale).Value? || Get1(n, x, y, scale) == Overflow
  {}

  /** The curve that changes nothing and the quintic curve are both of the kind that is asked for. */
  lemma CurvesAreFine(valueAt: (int, int) -> SignedChar)
    ensures var n := Noise(valueAt, t => t); CurveEnds(n) && CurveStays(n)
    ensures var n := Noise(valueAt, Quintic); CurveEnds(n) && CurveStays(n)
  {
    QuinticEnds();
    forall t: Raw | 0 <= t <= ONE ensures 0 <= Quintic(t) <= ONE {
      QuinticStays(t);
    }
  }
}
