/** The IEEE 754-2008 binary32 interchange format (section 3.4 of the standard):
    one sign bit, an 8-bit biased exponent and a 23-bit trailing significand.
    Every operand of the Zfinx emulation layer is such a 32-bit pattern; the C
    `float` and `uint32_t` views of it are the same bits. */
module Binary32 {

  const SIGN_MASK: bv32 := 0x8000_0000
  const EXP_MASK: bv32 := 0x7F80_0000
  const FRAC_MASK: bv32 := 0x007F_FFFF
  const MAG_MASK: bv32 := 0x7FFF_FFFF
  /** Most significant bit of the trailing significand (bit 22). */
  const QUIET_BIT: bv32 := 0x0040_0000

  const POS_ZERO: bv32 := 0x0000_0000
  const NEG_ZERO: bv32 := 0x8000_0000
  const POS_INF: bv32 := 0x7F80_0000
  const NEG_INF: bv32 := 0xFF80_0000

  /** The five categories that C's `fpclassify` distinguishes. */
  datatype Category = Nan | Infinite | Zero | Subnormal | Normal

  predicate IsNegative(x: bv32) { x & SIGN_MASK != 0 }

  predicate IsNaN(x: bv32) { x & EXP_MASK == EXP_MASK && x & FRAC_MASK != 0 }
  predicate IsInf(x: bv32) { x & EXP_MASK == EXP_MASK && x & FRAC_MASK == 0 }
  predicate IsZero(x: bv32) { x & MAG_MASK == 0 }
  predicate IsSubnormal(x: bv32) { x & EXP_MASK == 0 && x & FRAC_MASK != 0 }
  predicate IsNormal(x: bv32) { x & EXP_MASK != 0 && x & EXP_MASK != EXP_MASK }
  predicate IsFinite(x: bv32) { x & EXP_MASK != EXP_MASK }
  predicate IsQuietNaN(x: bv32) { IsNaN(x) && x & QUIET_BIT != 0 }

  /** The category of a pattern, read off its exponent and significand fields. */
  function CategoryOf(x: bv32): (c: Category)
    ensures c == Nan <==> IsNaN(x)
    ensures c == Infinite <==> IsInf(x)
    ensures c == Zero <==> IsZero(x)
    ensures c == Subnormal <==> IsSubnormal(x)
    ensures c == Normal <==> IsNormal(x)
  {
    if x & EXP_MASK == EXP_MASK then
      (if x & FRAC_MASK == 0 then Infinite else Nan)
    else if x & EXP_MASK == 0 then
      (if x & FRAC_MASK == 0 then Zero else Subnormal)
    else
      Normal
  }

  // ---------------------------------------------------------------------------
  // The exact value of a finite pattern, scaled by 2^149 so that it is an
  // integer: a subnormal is fraction * 2^-149 and a normal number is
  // (2^23 + fraction) * 2^(exponent - 150).
  // ---------------------------------------------------------------------------

  function Pow2(n: nat): (p: nat)
    ensures p >= 1
  {
    if n == 0 then 1 else 2 * Pow2(n - 1)
  }

  lemma {:induction false} Pow2Monotone(m: nat, n: nat)
    requires m <= n
    ensures Pow2(m) <= Pow2(n)
  {
    if m < n {
      Pow2Monotone(m, n - 1);
    }
  }

  /** Bit 0 of `u`, as a number. */
  function Bit(u: bv32): nat {
    if u & 1 == 0 then 0 else 1
  }

  /** The number held in the low `n` bits of `u`. */
  function BitsValue(u: bv32, n: nat): nat {
    if n == 0 then 0 else BitsValue(u >> 1, n - 1) * 2 + Bit(u)
  }

  /** The number held in the low eight bits of `u`. */
  function ByteValue(u: bv32): (n: nat)
    ensures n < 256
    ensures u & 0x80 == 0 ==> n < 128
  {
    ByteValueSum(u);
    BitsValue(u, 8)
  }

  /** The low eight bits of `u`, weighted bit by bit. */
  lemma ByteValueSum(u: bv32)
    ensures BitsValue(u, 8) ==
            (if u & 0x80 != 0 then 0x80 else 0) + (if u & 0x40 != 0 then 0x40 else 0) +
            (if u & 0x20 != 0 then 0x20 else 0) + (if u & 0x10 != 0 then 0x10 else 0) +
            (if u & 0x08 != 0 then 0x08 else 0) + (if u & 0x04 != 0 then 0x04 else 0) +
            (if u & 0x02 != 0 then 0x02 else 0) + (if u & 0x01 != 0 then 0x01 else 0)
  {
    ByteValueSteps(u);
    ShiftedBits(u);
  }

  /** `BitsValue(u, 8)` unfolded: bit k of `u` weighs 2^k. */
  lemma ByteValueSteps(u: bv32)
    ensures BitsValue(u, 8) ==
            Bit(u >> 7) * 0x80 + Bit(u >> 6) * 0x40 + Bit(u >> 5) * 0x20 + Bit(u >> 4) * 0x10 +
            Bit(u >> 3) * 0x08 + Bit(u >> 2) * 0x04 + Bit(u >> 1) * 0x02 + Bit(u)
  {
    var u1, u2, u3, u4 := u >> 1, u >> 2, u >> 3, u >> 4;
    var u5, u6, u7 := u >> 5, u >> 6, u >> 7;
    ShiftedBits(u);
    assert BitsValue(u7, 1) == Bit(u7);
    assert BitsValue(u6, 2) == BitsValue(u7, 1) * 2 + Bit(u6);
    assert BitsValue(u5, 3) == BitsValue(u6, 2) * 2 + Bit(u5);
    assert BitsValue(u4, 4) == BitsValue(u5, 3) * 2 + Bit(u4);
    assert BitsValue(u3, 5) == BitsValue(u4, 4) * 2 + Bit(u3);
    assert BitsValue(u2, 6) == BitsValue(u3, 5) * 2 + Bit(u2);
    assert BitsValue(u1, 7) == BitsValue(u2, 6) * 2 + Bit(u1);
    assert BitsValue(u, 8) == BitsValue(u1, 7) * 2 + Bit(u);
  }

  /** Shifting `u` right one place at a time walks its low bits down to bit 0. */
  lemma ShiftedBits(u: bv32)
    ensures u >> 1 >> 1 == u >> 2 && u >> 2 >> 1 == u >> 3 && u >> 3 >> 1 == u >> 4
    ensures u >> 4 >> 1 == u >> 5 && u >> 5 >> 1 == u >> 6 && u >> 6 >> 1 == u >> 7
    ensures ((u >> 1) & 1 == 0) == (u & 0x02 == 0) && ((u >> 2) & 1 == 0) == (u & 0x04 == 0)
    ensures ((u >> 3) & 1 == 0) == (u & 0x08 == 0) && ((u >> 4) & 1 == 0) == (u & 0x10 == 0)
    ensures ((u >> 5) & 1 == 0) == (u & 0x20 == 0) && ((u >> 6) & 1 == 0) == (u & 0x40 == 0)
    ensures ((u >> 7) & 1 == 0) == (u & 0x80 == 0)
  {
  }

  /** The biased exponent field, bits 30..23. */
  function Exponent(x: bv32): nat {
    ByteValue((x >> 23) & 0xFF)
  }

  /** Bits 15..0, read in two bytes. */
  function LowHalf(x: bv32): (n: nat)
    ensures n < 0x1_0000
  {
    ByteValue((x >> 8) & 0xFF) * 0x100 + ByteValue(x & 0xFF)
  }

  /** The trailing significand, bits 22..0: seven high bits above `LowHalf`. */
  function Fraction(x: bv32): (f: nat)
    ensures f < 0x80_0000
  {
    ByteValue((x >> 16) & 0x7F) * 0x1_0000 + LowHalf(x)
  }

  /** |value| * 2^149 of the number with biased exponent `e` and fraction `f`. */
  function ScaledMagnitude(e: nat, f: nat): nat {
    if e == 0 then f else (f + 0x80_0000) * Pow2(e - 1)
  }

  /** |value| * 2^149 of a finite pattern. */
  function Magnitude(x: bv32): nat
    requires IsFinite(x)
  {
    ScaledMagnitude(Exponent(x), Fraction(x))
  }

  /** value * 2^149 of a finite pattern. */
  function Value(x: bv32): int
    requires IsFinite(x)
  {
    if IsNegative(x) then -(Magnitude(x) as int) else Magnitude(x)
  }

  /** The order of the extended reals on the values of two non-NaN patterns. */
  predicate ValueLess(a: bv32, b: bv32)
    requires !IsNaN(a) && !IsNaN(b)
  {
    if IsInf(a) then IsNegative(a) && !(IsInf(b) && IsNegative(b))
    else if IsInf(b) then !IsNegative(b)
    else Value(a) < Value(b)
  }

  /** Equality of the extended reals on the values of two non-NaN patterns;
      each infinity has a single encoding. */
  predicate ValueEqual(a: bv32, b: bv32)
    requires !IsNaN(a) && !IsNaN(b)
  {
    if IsInf(a) || IsInf(b) then a == b else Value(a) == Value(b)
  }

  /** The magnitude field, bits 30..0, read as an unsigned number. */
  function MagnitudeBits(x: bv32): (n: nat)
    ensures n < 0x8000_0000
  {
    Exponent(x) * 0x80_0000 + Fraction(x)
  }

  /** The order read off the bits: sign first, then the magnitude field as an
      unsigned number, with the two zeros equal. */
  predicate SignMagnitudeLess(a: bv32, b: bv32) {
    if IsZero(a) && IsZero(b) then false
    else if IsNegative(a) != IsNegative(b) then IsNegative(a)
    else if IsNegative(a) then (b & MAG_MASK) < (a & MAG_MASK)
    else (a & MAG_MASK) < (b & MAG_MASK)
  }

  /** The non-strict sign-magnitude order. */
  predicate SignMagnitudeLessEq(a: bv32, b: bv32) {
    SignMagnitudeLess(a, b) || a == b || (IsZero(a) && IsZero(b))
  }

  // ---------------------------------------------------------------------------
  // From the bit fields to the numbers read off them. The lemmas in this and
  // the next three sections are solver-sized steps: each states one fact about
  // the masks and shifts, so that every proof obligation stays small.
  // ---------------------------------------------------------------------------

  lemma ByteValueZero(u: bv32)
    ensures ByteValue(u) == 0 <==> u & 0xFF == 0
  {
    ByteValueSum(u);
  }

  lemma ByteValueFull(u: bv32)
    ensures ByteValue(u) == 255 <==> u & 0xFF == 0xFF
  {
    ByteValueSum(u);
  }

  lemma ExponentBits(x: bv32)
    ensures (x >> 23) & 0xFF == 0xFF <==> x & EXP_MASK == EXP_MASK
    ensures (x >> 23) & 0xFF == 0 <==> x & EXP_MASK == 0
  {
  }

  lemma FractionBits(x: bv32)
    ensures ((x >> 16) & 0x7F == 0 && (x >> 8) & 0xFF == 0 && x & 0xFF == 0) <==> x & FRAC_MASK == 0
  {
  }

  /** The exponent field is all ones exactly when `Exponent` is 255, and all
      zeros exactly when it is 0. */
  lemma ExponentExtremes(x: bv32)
    ensures Exponent(x) == 255 <==> x & EXP_MASK == EXP_MASK
    ensures Exponent(x) == 0 <==> x & EXP_MASK == 0
  {
    ByteValueFull((x >> 23) & 0xFF);
    ByteValueZero((x >> 23) & 0xFF);
    ExponentBits(x);
  }

  /** The fraction field is zero exactly when `Fraction` is 0. */
  lemma FractionZero(x: bv32)
    ensures Fraction(x) == 0 <==> x & FRAC_MASK == 0
  {
    ByteValueZero((x >> 16) & 0x7F);
    ByteValueZero((x >> 8) & 0xFF);
    ByteValueZero(x & 0xFF);
    FractionBits(x);
  }

  /** A pattern is finite exactly when its exponent is below 255. */
  lemma FiniteExponent(x: bv32)
    ensures IsFinite(x) <==> Exponent(x) < 255
  {
    ExponentExtremes(x);
  }

  /** Only the two zeros have a zero magnitude field. */
  lemma MagnitudeBitsZero(x: bv32)
    ensures MagnitudeBits(x) == 0 <==> IsZero(x)
  {
    ExponentExtremes(x);
    FractionZero(x);
  }

  /** Among non-NaN patterns the infinities have the largest magnitude field. */
  lemma MagnitudeBitsOfInfinity(x: bv32)
    requires !IsNaN(x)
    ensures MagnitudeBits(x) <= 0x7F80_0000
    ensures MagnitudeBits(x) == 0x7F80_0000 <==> IsInf(x)
  {
    ExponentExtremes(x);
    FractionZero(x);
  }

  /** Equal magnitude numbers come from equal magnitude fields. */
  lemma MagnitudeBitsInjective(a: bv32, b: bv32)
    requires MagnitudeBits(a) == MagnitudeBits(b)
    ensures (a & MAG_MASK) == (b & MAG_MASK)
  {
    PlaceValueInjective(Exponent(a), Fraction(a), Exponent(b), Fraction(b), 0x80_0000);
    ByteValueInjective((a >> 23) & 0xFF, (b >> 23) & 0xFF);
    FractionInjective(a, b);
    JoinMagnitude(a, b);
  }

  /** A pattern is its sign bit together with its magnitude field. */
  lemma SignAndMagnitude(a: bv32, b: bv32)
    requires (a & MAG_MASK) == (b & MAG_MASK) && IsNegative(a) == IsNegative(b)
    ensures a == b
  {
  }

  // ---------------------------------------------------------------------------
  // Comparing magnitude fields as unsigned numbers compares their bytes, most
  // significant first.
  // ---------------------------------------------------------------------------

  lemma ExponentThenFraction(x: bv32, y: bv32)
    ensures x & MAG_MASK < y & MAG_MASK <==>
            || (x >> 23) & 0xFF < (y >> 23) & 0xFF
            || ((x >> 23) & 0xFF == (y >> 23) & 0xFF && x & FRAC_MASK < y & FRAC_MASK)
  {
  }

  lemma HighThenLow(x: bv32, y: bv32)
    ensures x & FRAC_MASK < y & FRAC_MASK <==>
            || (x >> 16) & 0x7F < (y >> 16) & 0x7F
            || ((x >> 16) & 0x7F == (y >> 16) & 0x7F && x & 0xFFFF < y & 0xFFFF)
  {
  }

  lemma MiddleThenLow(x: bv32, y: bv32)
    ensures x & 0xFFFF < y & 0xFFFF <==>
            || (x >> 8) & 0xFF < (y >> 8) & 0xFF
            || ((x >> 8) & 0xFF == (y >> 8) & 0xFF && x & 0xFF < y & 0xFF)
  {
  }

  lemma ByteOrder(u: bv32, v: bv32)
    requires u < 256 && v < 256
    ensures u < v <==> ByteValue(u) < ByteValue(v)
    ensures u == v <==> ByteValue(u) == ByteValue(v)
  {
    ByteOrderStrict(u, v);
    ByteOrderEqual(u, v);
  }

  lemma ByteOrderStrict(u: bv32, v: bv32)
    requires u < 256 && v < 256
    ensures u < v <==> ByteValue(u) < ByteValue(v)
  {
    ByteValueSum(u);
    ByteValueSum(v);
  }

  lemma ByteOrderEqual(u: bv32, v: bv32)
    requires u < 256 && v < 256
    ensures u == v <==> ByteValue(u) == ByteValue(v)
  {
    ByteValueSum(u);
    ByteValueSum(v);
  }

  /** A number written as a high digit above a low digit of base `base`
      compares high digit first. */
  lemma PlaceValue(h1: nat, l1: nat, h2: nat, l2: nat, base: nat)
    requires l1 < base && l2 < base
    ensures h1 * base + l1 < h2 * base + l2 <==> h1 < h2 || (h1 == h2 && l1 < l2)
  {
    if h1 < h2 {
      MulLessEq(h1 + 1, h2, base);
    } else if h2 < h1 {
      MulLessEq(h2 + 1, h1, base);
    }
  }

  lemma LowHalfOrder(x: bv32, y: bv32)
    ensures x & 0xFFFF < y & 0xFFFF <==> LowHalf(x) < LowHalf(y)
  {
    LowHalfDigits(x, y);
    PlaceValue(ByteValue((x >> 8) & 0xFF), ByteValue(x & 0xFF), ByteValue((y >> 8) & 0xFF), ByteValue(y & 0xFF), 0x100);
  }

  lemma LowHalfDigits(x: bv32, y: bv32)
    ensures x & 0xFFFF < y & 0xFFFF <==>
            || ByteValue((x >> 8) & 0xFF) < ByteValue((y >> 8) & 0xFF)
            || (ByteValue((x >> 8) & 0xFF) == ByteValue((y >> 8) & 0xFF) && ByteValue(x & 0xFF) < ByteValue(y & 0xFF))
  {
    MiddleDigit(x, y);
    ByteOrderStrict(x & 0xFF, y & 0xFF);
  }

  lemma MiddleDigit(x: bv32, y: bv32)
    ensures x & 0xFFFF < y & 0xFFFF <==>
            || ByteValue((x >> 8) & 0xFF) < ByteValue((y >> 8) & 0xFF)
            || (ByteValue((x >> 8) & 0xFF) == ByteValue((y >> 8) & 0xFF) && x & 0xFF < y & 0xFF)
  {
    MiddleThenLow(x, y);
    ByteOrder((x >> 8) & 0xFF, (y >> 8) & 0xFF);
  }

  /** The fraction field compared as a bit-vector and as the number `Fraction`. */
  lemma FractionOrder(x: bv32, y: bv32)
    ensures x & FRAC_MASK < y & FRAC_MASK <==> Fraction(x) < Fraction(y)
  {
    HighThenLow(x, y);
    ByteOrder((x >> 16) & 0x7F, (y >> 16) & 0x7F);
    LowHalfOrder(x, y);
    PlaceValue(ByteValue((x >> 16) & 0x7F), LowHalf(x), ByteValue((y >> 16) & 0x7F), LowHalf(y), 0x1_0000);
  }

  /** The bit-level order of magnitude fields is the order of the numbers
      they hold. */
  lemma MagnitudeFieldOrder(x: bv32, y: bv32)
    ensures (x & MAG_MASK) < (y & MAG_MASK) <==> MagnitudeBits(x) < MagnitudeBits(y)
  {
    ExponentThenFraction(x, y);
    ByteOrder((x >> 23) & 0xFF, (y >> 23) & 0xFF);
    FractionOrder(x, y);
    PlaceValue(Exponent(x), Fraction(x), Exponent(y), Fraction(y), 0x80_0000);
  }

  // ---------------------------------------------------------------------------
  // Equal numbers come from equal fields, byte by byte. Join* put two equal
  // parts of a field back together, one mask at a time.
  // ---------------------------------------------------------------------------

  lemma JoinMagnitude(x: bv32, y: bv32)
    requires (x >> 23) & 0xFF == (y >> 23) & 0xFF && x & FRAC_MASK == y & FRAC_MASK
    ensures x & MAG_MASK == y & MAG_MASK
  {
  }

  lemma JoinFraction(x: bv32, y: bv32)
    requires (x >> 16) & 0x7F == (y >> 16) & 0x7F && x & 0xFFFF == y & 0xFFFF
    ensures x & FRAC_MASK == y & FRAC_MASK
  {
  }

  lemma JoinLowHalf(x: bv32, y: bv32)
    requires (x >> 8) & 0xFF == (y >> 8) & 0xFF && x & 0xFF == y & 0xFF
    ensures x & 0xFFFF == y & 0xFFFF
  {
  }

  /** A number written as a high digit above a low digit has one such
      representation. */
  lemma PlaceValueInjective(h1: nat, l1: nat, h2: nat, l2: nat, base: nat)
    requires l1 < base && l2 < base
    requires h1 * base + l1 == h2 * base + l2
    ensures h1 == h2 && l1 == l2
  {
    PlaceValue(h1, l1, h2, l2, base);
    PlaceValue(h2, l2, h1, l1, base);
  }

  /** Equal bytes when they hold equal numbers. */
  lemma ByteValueInjective(u: bv32, v: bv32)
    requires u < 256 && v < 256 && ByteValue(u) == ByteValue(v)
    ensures u == v
  {
    ByteOrderEqual(u, v);
  }

  lemma LowHalfInjective(x: bv32, y: bv32)
    requires LowHalf(x) == LowHalf(y)
    ensures x & 0xFFFF == y & 0xFFFF
  {
    LowHalfBytesEqual(x, y);
    MiddleByteEqual(x, y);
    LowByteEqual(x, y);
    JoinLowHalf(x, y);
  }

  lemma LowHalfBytesEqual(x: bv32, y: bv32)
    requires LowHalf(x) == LowHalf(y)
    ensures ByteValue((x >> 8) & 0xFF) == ByteValue((y >> 8) & 0xFF)
    ensures ByteValue(x & 0xFF) == ByteValue(y & 0xFF)
  {
    PlaceValueInjective(ByteValue((x >> 8) & 0xFF), ByteValue(x & 0xFF), ByteValue((y >> 8) & 0xFF), ByteValue(y & 0xFF), 0x100);
  }

  lemma MiddleByteEqual(x: bv32, y: bv32)
    requires ByteValue((x >> 8) & 0xFF) == ByteValue((y >> 8) & 0xFF)
    ensures (x >> 8) & 0xFF == (y >> 8) & 0xFF
  {
    ByteValueInjective((x >> 8) & 0xFF, (y >> 8) & 0xFF);
  }

  lemma LowByteEqual(x: bv32, y: bv32)
    requires ByteValue(x & 0xFF) == ByteValue(y & 0xFF)
    ensures x & 0xFF == y & 0xFF
  {
    ByteValueInjective(x & 0xFF, y & 0xFF);
  }

  lemma FractionInjective(x: bv32, y: bv32)
    requires Fraction(x) == Fraction(y)
    ensures x & FRAC_MASK == y & FRAC_MASK
  {
    PlaceValueInjective(ByteValue((x >> 16) & 0x7F), LowHalf(x), ByteValue((y >> 16) & 0x7F), LowHalf(y), 0x1_0000);
    ByteValueInjective((x >> 16) & 0x7F, (y >> 16) & 0x7F);
    LowHalfInjective(x, y);
    JoinFraction(x, y);
  }

  // ---------------------------------------------------------------------------
  // The magnitude field, read as an unsigned number, orders finite values.
  // MulLess and MulLessEq are the two steps of integer monotonicity the
  // proofs below need, kept apart from the bit-vector facts.
  // ---------------------------------------------------------------------------

  lemma MulLess(a: int, b: int, c: int)
    requires a < b && c > 0
    ensures a * c < b * c
  {
  }

  lemma MulLessEq(a: int, b: int, c: int)
    requires a <= b && c >= 0
    ensures a * c <= b * c
  {
  }

  /** Exponent first, then fraction: the encoding orders magnitudes. */
  lemma ScaledMagnitudeMonotone(ex: nat, fx: nat, ey: nat, fy: nat)
    requires fx < 0x80_0000 && fy < 0x80_0000
    requires ex < ey || (ex == ey && fx < fy)
    ensures ScaledMagnitude(ex, fx) < ScaledMagnitude(ey, fy)
  {
    if ex == ey {
      if ex > 0 {
        MulLess(fx + 0x80_0000, fy + 0x80_0000, Pow2(ex - 1));
      }
    } else if ex == 0 {
      MulLessEq(1, Pow2(ey - 1), 0x80_0000);
      MulLessEq(0x80_0000, fy + 0x80_0000, Pow2(ey - 1));
    } else {
      calc {
        ScaledMagnitude(ex, fx);
        (fx + 0x80_0000) * Pow2(ex - 1);
      < { MulLess(fx + 0x80_0000, 0x100_0000, Pow2(ex - 1)); }
        0x100_0000 * Pow2(ex - 1);
        0x80_0000 * Pow2(ex);
      <= { Pow2Monotone(ex, ey - 1); MulLessEq(Pow2(ex), Pow2(ey - 1), 0x80_0000); }
        0x80_0000 * Pow2(ey - 1);
      <= { MulLessEq(0x80_0000, fy + 0x80_0000, Pow2(ey - 1)); }
        ScaledMagnitude(ey, fy);
      }
    }
  }

  /** A larger magnitude field encodes a strictly larger magnitude. */
  lemma MagnitudeMonotone(x: bv32, y: bv32)
    requires IsFinite(y) && MagnitudeBits(x) < MagnitudeBits(y)
    ensures IsFinite(x) && Magnitude(x) < Magnitude(y)
  {
    FiniteExponent(x);
    FiniteExponent(y);
    assert Exponent(x) < Exponent(y) || (Exponent(x) == Exponent(y) && Fraction(x) < Fraction(y));
    ScaledMagnitudeMonotone(Exponent(x), Fraction(x), Exponent(y), Fraction(y));
  }

  /** Only the two zeros have magnitude 0. */
  lemma MagnitudeZero(x: bv32)
    requires IsFinite(x)
    ensures Magnitude(x) == 0 <==> IsZero(x)
  {
    MagnitudeBitsZero(x);
    if !IsZero(x) {
      MagnitudeMonotone(POS_ZERO, x);
    }
  }

  /** Equal magnitude fields encode equal magnitudes. */
  lemma MagnitudeOfEqualBits(a: bv32, b: bv32)
    requires IsFinite(a) && MagnitudeBits(a) == MagnitudeBits(b)
    ensures IsFinite(b) && Magnitude(a) == Magnitude(b)
  {
    FiniteExponent(a);
    FiniteExponent(b);
    assert Exponent(a) == Exponent(b) && Fraction(a) == Fraction(b);
  }

  /** Equal magnitudes come from equal magnitude fields. */
  lemma MagnitudeInjective(a: bv32, b: bv32)
    requires IsFinite(a) && IsFinite(b) && Magnitude(a) == Magnitude(b)
    ensures (a & MAG_MASK) == (b & MAG_MASK)
  {
    if MagnitudeBits(a) < MagnitudeBits(b) {
      MagnitudeMonotone(a, b);
    } else if MagnitudeBits(b) < MagnitudeBits(a) {
      MagnitudeMonotone(b, a);
    } else {
      MagnitudeBitsInjective(a, b);
    }
  }

  /** Two finite patterns have the same value exactly when they are the same
      pattern or are both zeros. */
  lemma ValueInjective(a: bv32, b: bv32)
    requires IsFinite(a) && IsFinite(b)
    ensures Value(a) == Value(b) <==> a == b || (IsZero(a) && IsZero(b))
  {
    MagnitudeZero(a);
    MagnitudeZero(b);
    if Value(a) == Value(b) && !(IsZero(a) && IsZero(b)) {
      assert Magnitude(a) == Magnitude(b) && IsNegative(a) == IsNegative(b);
      MagnitudeInjective(a, b);
      SignAndMagnitude(a, b);
    }
  }

  /** On finite patterns the magnitude field orders the magnitudes, both ways. */
  lemma MagnitudeOrder(a: bv32, b: bv32)
    requires IsFinite(a) && IsFinite(b)
    ensures Magnitude(a) < Magnitude(b) <==> MagnitudeBits(a) < MagnitudeBits(b)
  {
    if MagnitudeBits(a) < MagnitudeBits(b) {
      MagnitudeMonotone(a, b);
    } else if MagnitudeBits(b) < MagnitudeBits(a) {
      MagnitudeMonotone(b, a);
    } else {
      MagnitudeOfEqualBits(a, b);
    }
  }

  /** On finite patterns the numeric order is the sign-magnitude order. */
  lemma FiniteValueLess(a: bv32, b: bv32)
    requires IsFinite(a) && IsFinite(b)
    ensures Value(a) < Value(b) <==> SignMagnitudeLess(a, b)
  {
    var na, nb := IsNegative(a), IsNegative(b);
    if !na && !nb {
      FiniteMagnitudeLess(a, b);
    } else if na && nb {
      FiniteMagnitudeLess(b, a);
    } else if na {
      MagnitudeZero(a);
      MagnitudeZero(b);
    }
  }

  /** On finite patterns the magnitudes compare as the magnitude fields do. */
  lemma FiniteMagnitudeLess(a: bv32, b: bv32)
    requires IsFinite(a) && IsFinite(b)
    ensures Magnitude(a) < Magnitude(b) <==> (a & MAG_MASK) < (b & MAG_MASK)
  {
    MagnitudeOrder(a, b);
    MagnitudeFieldOrder(a, b);
  }

  /** The numeric order of non-NaN values is the sign-magnitude order of their
      bits. */
  lemma ValueLessIsSignMagnitude(a: bv32, b: bv32)
    requires !IsNaN(a) && !IsNaN(b)
    ensures ValueLess(a, b) <==> SignMagnitudeLess(a, b)
  {
    if IsFinite(a) && IsFinite(b) {
      FiniteValueLess(a, b);
    } else {
      MagnitudeBitsOfInfinity(a);
      MagnitudeBitsOfInfinity(b);
      MagnitudeBitsZero(a);
      MagnitudeBitsZero(b);
      MagnitudeFieldOrder(a, b);
      MagnitudeFieldOrder(b, a);
    }
  }

  /** An infinity is determined by its sign. */
  lemma InfinityBySign(a: bv32, b: bv32)
    requires IsInf(a) && IsInf(b) && IsNegative(a) == IsNegative(b)
    ensures a == b
  {
  }

  /** Two non-NaN values are equal exactly when they are the same pattern or
      both zeros. */
  lemma ValueEqualIsSameOrZeros(a: bv32, b: bv32)
    requires !IsNaN(a) && !IsNaN(b)
    ensures ValueEqual(a, b) <==> a == b || (IsZero(a) && IsZero(b))
  {
    if IsFinite(a) && IsFinite(b) {
      ValueInjective(a, b);
    }
  }

  /** The extended reals are totally ordered: of `a < b`, `b < a` and `a == b`
      exactly one holds. */
  lemma ValueTrichotomy(a: bv32, b: bv32)
    requires !IsNaN(a) && !IsNaN(b)
    ensures ValueLess(a, b) || ValueLess(b, a) || ValueEqual(a, b)
    ensures !(ValueLess(a, b) && ValueLess(b, a))
    ensures ValueEqual(a, b) ==> !ValueLess(a, b) && !ValueLess(b, a)
  {
    if IsInf(a) && IsInf(b) && IsNegative(a) == IsNegative(b) {
      InfinityBySign(a, b);
    }
  }

  // ---------------------------------------------------------------------------
  // The sign-magnitude order on its own: a strict total order on the non-NaN
  // patterns once the two zeros are identified.
  // ---------------------------------------------------------------------------

  lemma SignMagnitudeTrichotomy(a: bv32, b: bv32)
    ensures SignMagnitudeLess(a, b) || SignMagnitudeLess(b, a) || a == b || (IsZero(a) && IsZero(b))
  {
    if !((a & MAG_MASK) < (b & MAG_MASK)) && !((b & MAG_MASK) < (a & MAG_MASK)) {
      MagnitudeFieldOrder(a, b);
      MagnitudeFieldOrder(b, a);
      MagnitudeBitsInjective(a, b);
    }
    if (a & MAG_MASK) == (b & MAG_MASK) && IsNegative(a) == IsNegative(b) {
      SignAndMagnitude(a, b);
    }
  }

  lemma SignMagnitudeAsymmetric(a: bv32, b: bv32)
    ensures !(SignMagnitudeLess(a, b) && SignMagnitudeLess(b, a))
  {
  }

  lemma SignMagnitudeTransitive(a: bv32, b: bv32, c: bv32)
    requires SignMagnitudeLess(a, b) && SignMagnitudeLess(b, c)
    ensures SignMagnitudeLess(a, c)
  {
    var na, nb, nc := IsNegative(a), IsNegative(b), IsNegative(c);
    if na && nb && nc {
      MagnitudeFieldTransitive(c, b, a);
    } else if !na && !nb && !nc {
      MagnitudeFieldTransitive(a, b, c);
    } else if na && nb && !nc {
      if IsZero(a) { NothingBelowZero(b, a); }
    } else if na && !nb && !nc {
      if IsZero(c) { NothingBelowZero(b, c); }
    }
  }

  lemma MagnitudeFieldTransitive(a: bv32, b: bv32, c: bv32)
    requires (a & MAG_MASK) < (b & MAG_MASK) && (b & MAG_MASK) < (c & MAG_MASK)
    ensures (a & MAG_MASK) < (c & MAG_MASK)
  {
  }

  lemma NothingBelowZero(a: bv32, z: bv32)
    requires IsZero(z)
    ensures !((a & MAG_MASK) < (z & MAG_MASK))
  {
  }

  lemma SignMagnitudeLessEqTransitive(a: bv32, b: bv32, c: bv32)
    requires SignMagnitudeLessEq(a, b) && SignMagnitudeLessEq(b, c)
    ensures SignMagnitudeLessEq(a, c)
  {
    if SignMagnitudeLess(a, b) && SignMagnitudeLess(b, c) {
      SignMagnitudeTransitive(a, b, c);
    }
  }
}
