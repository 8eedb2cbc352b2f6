/** Rounding up to a power of two. */
module Alignment {

  ghost predicate PowerOfTwo(a: nat) {
    a == 1 || (a > 1 && a % 2 == 0 && PowerOfTwo(a / 2))
  }

  lemma EightIsAPower()
    ensures PowerOfTwo(8)
  {
    assert PowerOfTwo(1) && PowerOfTwo(2) && PowerOfTwo(4);
  }

  /** For a power of two this is (size + align - 1) & ~(align - 1). */
  function AlignUp(size: nat, align: nat): (r: nat)
    requires align > 0
    ensures size <= r < size + align && r % align == 0
  {
    var q := (size + align - 1) / align;
    AlignUpBounds(size, align, q);
    q * align
  }

  lemma AlignUpBounds(size: nat, align: nat, q: nat)
    requires align > 0 && q == (size + align - 1) / align
    ensures size <= q * align < size + align && (q * align) % align == 0
  {
    var n := size + align - 1;
    assert n == align * q + n % align;
    assert q * align == align * q;
    MultipleMod(q, align);
  }

  lemma {:induction false} MultipleMod(q: nat, align: nat)
    requires align > 0
    ensures (q * align) % align == 0
  {
    if q > 0 {
      MultipleMod(q - 1, align);
      assert q * align == (q - 1) * align + align;
      AddPeriod((q - 1) * align, align);
    } else {
      assert q * align == 0;
    }
  }

  lemma SelfMod(align: nat)
    requires align > 0
    ensures align % align == 0
  {
    MultipleMod(1, align);
  }

  lemma AddPeriod(n: nat, align: nat)
    requires align > 0
    ensures (n + align) % align == n % align
  {
    var k, r := n / align, n % align;
    assert n == align * k + r;
    assert n + align == align * (k + 1) + r;
    UniqueMod(n + align, align, k + 1, r);
  }

  lemma UniqueMod(n: nat, align: nat, k: nat, r: nat)
    requires align > 0 && n == align * k + r && r < align
    ensures n % align == r
  {
    var q, s := n / align, n % align;
    Distribute(align, k, q);
    if k - q >= 1 {
      AtLeastOnce(align, k - q);
    } else if q - k >= 1 {
      AtLeastOnce(align, q - k);
      Distribute(align, q, k);
    }
  }

  lemma Distribute(a: int, x: int, y: int)
    ensures a * (x - y) == a * x - a * y
  {}

  lemma {:induction false} AtLeastOnce(a: nat, d: nat)
    requires d >= 1
    ensures a * d >= a
  {
    if d > 1 {
      AtLeastOnce(a, d - 1);
      Distribute(a, d, 1);
    }
  }

  /** A multiple of a power of two is a multiple of every smaller one. */
  lemma {:induction false} DivisorsOfPowers(a: nat, b: nat, x: nat)
    requires PowerOfTwo(a) && PowerOfTwo(b) && a <= b && x % b == 0
    ensures x % a == 0
    decreases b
  {
    if a < b {
      HalfDivides(x, b);
      PowersGap(a, b);
      DivisorsOfPowers(a, b / 2, x);
    }
  }

  lemma {:induction false} PowersGap(a: nat, b: nat)
    requires PowerOfTwo(a) && PowerOfTwo(b) && a < b
    ensures 2 * a <= b
    decreases a
  {
    if a > 1 {
      PowersGap(a / 2, b / 2);
    }
  }

  lemma HalfDivides(x: nat, b: nat)
    requires b > 1 && b % 2 == 0 && x % b == 0
    ensures x % (b / 2) == 0
  {
    var k := x / b;
    assert x == b * k;
    var half := b / 2;
    assert b == 2 * half;
    assert x == (2 * k) * half by { assert (2 * half) * k == (2 * k) * half; }
    MultipleMod(2 * k, half);
  }

  // ---------------------------------------------------------------- the mask of the source

  /** Bitwise conjunction. */
  function And(a: nat, b: nat): nat {
    if a == 0 || b == 0 then 0 else 2 * And(a / 2, b / 2) + (if a % 2 == 1 && b % 2 == 1 then 1 else 0)
  }

  /** The number of values of a word of `width` bits. */
  function Values(width: nat): (r: nat)
    ensures r > 0
  {
    if width == 0 then 1 else 2 * Values(width - 1)
  }

  /** The complement of align - 1 in a word. */
  function Mask(align: nat, width: nat): nat
    requires 1 <= align <= Values(width)
  {
    Values(width) - 1 - (align - 1)
  }

  /** For a power of two the mask clears the remainder. */
  lemma {:induction false} MaskRoundsDown(n: nat, align: nat, width: nat)
    requires PowerOfTwo(align) && align <= Values(width) && n < Values(width)
    ensures And(n, Mask(align, width)) == n - n % align
    decreases width
  {
    if width > 0 {
      var half := if align == 1 then 1 else align / 2;
      MaskRoundsDown(n / 2, half, width - 1);
      if align > 1 {
        HalvedRemainder(n, half);
      }
    }
  }

  lemma HalvedRemainder(n: nat, half: nat)
    requires half > 0
    ensures n % (2 * half) == 2 * (n / 2 % half) + n % 2
  {
    var m := n / 2;
    var q, r := m / half, m % half;
    assert m == half * q + r;
    assert 2 * (half * q) == 2 * half * q;
    UniqueMod(n, 2 * half, q, 2 * r + n % 2);
  }

  /** The expression of the source, in words of any width, is rounding up. */
  lemma MaskIsAlignUp(size: nat, align: nat, width: nat)
    requires PowerOfTwo(align) && align <= Values(width) && size + align - 1 < Values(width)
    ensures And(size + align - 1, Mask(align, width)) == AlignUp(size, align)
  {
    var n := size + align - 1;
    MaskRoundsDown(n, align, width);
    hide And, Mask, Values;
    RoundedDown(n, align);
  }

  lemma RoundedDown(n: nat, align: nat)
    requires align > 0
    ensures n / align * align == n - n % align
  {
    assert n == align * (n / align) + n % align;
  }
}
