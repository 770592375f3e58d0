/** The operations on `float` that the emulation layer builds on, stated on
    binary32 patterns: the C unary minus operator, which the compiler
    translates into a sign-bit flip, and the calls into the C library
    (`<math.h>`, as newlib provides it).

    `fpclassify` is `Binary32.CategoryOf` and `signbit` is `Binary32.IsNegative`;
    the remaining calls are defined here. `fmin` and `fmax` are the `double`
    versions, but a `float` widens to `double` exactly and the result is one of
    the two arguments, so narrowing it back gives the same pattern: they are
    stated on binary32 directly. */
module MathH {
  import opened Binary32

  /** What `nanf("")` returns: some quiet NaN. Its sign and payload are left
      open; the emulation layer receives it as a parameter. */
  type QuietNaN = x: bv32 | IsQuietNaN(x) witness 0x7FC0_0000

  /** The C operator `-` on a `float` (not a library call): the sign bit
      flips, everything else stays, NaNs included. */
  function Negate(x: bv32): (r: bv32)
    ensures (r & MAG_MASK) == (x & MAG_MASK)
    ensures IsNegative(r) == !IsNegative(x)
  {
    x ^ SIGN_MASK
  }

  /** Negating twice gives back the pattern. */
  lemma NegateInvolutive(x: bv32)
    ensures Negate(Negate(x)) == x
  {
  }

  /** `isless(x, y)`: `x < y` without raising an exception; false when either
      argument is a NaN. On numbers it is the sign-magnitude order of the
      bits. */
  predicate IsLess(x: bv32, y: bv32): (r: bool)
    ensures r <==> !IsNaN(x) && !IsNaN(y) && SignMagnitudeLess(x, y)
  {
    if IsNaN(x) || IsNaN(y) then false
    else
      ValueLessIsSignMagnitude(x, y);
      ValueLess(x, y)
  }

  /** `isgreater(x, y)`: `x > y`, false when either argument is a NaN. */
  predicate IsGreater(x: bv32, y: bv32): (r: bool)
    ensures r <==> !IsNaN(x) && !IsNaN(y) && SignMagnitudeLess(y, x)
  {
    if IsNaN(x) || IsNaN(y) then false
    else
      ValueLessIsSignMagnitude(y, x);
      ValueLess(y, x)
  }

  /** `islessequal(x, y)`: `x <= y`, false when either argument is a NaN. On
      numbers it is "below, the same pattern, or both zeros". */
  predicate IsLessEqual(x: bv32, y: bv32): (r: bool)
    ensures r <==> !IsNaN(x) && !IsNaN(y) && SignMagnitudeLessEq(x, y)
  {
    if IsNaN(x) || IsNaN(y) then false
    else
      ValueLessIsSignMagnitude(x, y);
      ValueEqualIsSameOrZeros(x, y);
      ValueLess(x, y) || ValueEqual(x, y)
  }

  /** newlib's `fmin`: a NaN argument yields the other argument, otherwise
      `x < y ? x : y`. */
  function Fmin(x: bv32, y: bv32): (r: bv32)
    ensures r == x || r == y
    ensures IsNaN(x) ==> r == y
    ensures !IsNaN(x) && IsNaN(y) ==> r == x
    ensures !IsNaN(x) && !IsNaN(y) ==> IsLessEqual(r, x) && IsLessEqual(r, y)
  {
    if IsNaN(x) then y
    else if IsNaN(y) then x
    else
      ValueTrichotomy(x, y);
      ValueEqualIsSameOrZeros(x, x);
      ValueEqualIsSameOrZeros(y, y);
      if IsLess(x, y) then x else y
  }

  /** newlib's `fmax`: a NaN argument yields the other argument, otherwise
      `x > y ? x : y`. */
  function Fmax(x: bv32, y: bv32): (r: bv32)
    ensures r == x || r == y
    ensures IsNaN(x) ==> r == y
    ensures !IsNaN(x) && IsNaN(y) ==> r == x
    ensures !IsNaN(x) && !IsNaN(y) ==> IsLessEqual(x, r) && IsLessEqual(y, r)
  {
    if IsNaN(x) then y
    else if IsNaN(y) then x
    else
      ValueTrichotomy(x, y);
      ValueEqualIsSameOrZeros(x, x);
      ValueEqualIsSameOrZeros(y, y);
      if IsGreater(x, y) then x else y
  }

  /** On non-NaN arguments `fmin` picks an argument not above the other in
      the sign-magnitude order of the bits, and `fmax` one not below it. */
  lemma FminBits(x: bv32, y: bv32)
    requires !IsNaN(x) && !IsNaN(y)
    ensures || (Fmin(x, y) == x && SignMagnitudeLessEq(x, y))
            || (Fmin(x, y) == y && SignMagnitudeLessEq(y, x))
  {
  }

  lemma FmaxBits(x: bv32, y: bv32)
    requires !IsNaN(x) && !IsNaN(y)
    ensures || (Fmax(x, y) == x && SignMagnitudeLessEq(y, x))
            || (Fmax(x, y) == y && SignMagnitudeLessEq(x, y))
  {
  }
}
