/** The software emulation of the RISC-V single-precision instructions that
    the Zfinx test program checks the hardware against: minimum and maximum,
    the three comparisons, the three sign injections and the classification,
    together with the flush of subnormal results.

    Every operand and result is the 32-bit pattern of a `float`. The core FPU
    does not support subnormal numbers, so the emulation flushes the results
    that pass through `subnormal_flush` to a zero of the same sign. */
module ZfinxEmulation {
  import opened Binary32
  import opened MathH

  // ---------------------------------------------------------------------------
  // subnormal_flush
  // ---------------------------------------------------------------------------

  /** A subnormal becomes the zero of the same sign; every other pattern is
      kept bit for bit. */
  function SubnormalFlush(x: bv32): (r: bv32)
    ensures IsSubnormal(x) ==> IsZero(r) && IsNegative(r) == IsNegative(x)
    ensures !IsSubnormal(x) ==> r == x
    ensures !IsSubnormal(r)
  {
    if CategoryOf(x) == Subnormal then
      (if IsNegative(x) then NEG_ZERO else POS_ZERO)
    else
      x
  }

  /** Flushing never makes or removes a NaN. */
  lemma FlushKeepsNaN(x: bv32)
    ensures IsNaN(SubnormalFlush(x)) == IsNaN(x)
  {
  }

  /** Flushing twice is flushing once. */
  lemma SubnormalFlushIdempotent(x: bv32)
    ensures SubnormalFlush(SubnormalFlush(x)) == SubnormalFlush(x)
  {
  }

  /** Flushing keeps the non-strict order of patterns: a subnormal moves to
      the zero of its own sign, which is on the same side of every other
      operand. */
  lemma SubnormalFlushMonotone(a: bv32, b: bv32)
    requires SignMagnitudeLessEq(a, b)
    ensures SignMagnitudeLessEq(SubnormalFlush(a), SubnormalFlush(b))
  {
    if SignMagnitudeLess(a, b) && (IsSubnormal(a) || IsSubnormal(b)) {
      if IsSubnormal(a) && IsSubnormal(b) {
        FlushBothSubnormal(a, b);
      } else if IsSubnormal(a) {
        FlushLeftSubnormal(a, b);
      } else {
        FlushRightSubnormal(a, b);
      }
    }
  }

  // Solver-sized steps for SubnormalFlushMonotone: each lemma below states one
  // case of the monotonicity proof (which operands are subnormal, and their
  // signs), so that every proof obligation stays small.

  lemma FlushBothSubnormal(a: bv32, b: bv32)
    requires SignMagnitudeLess(a, b) && IsSubnormal(a) && IsSubnormal(b)
    ensures SignMagnitudeLessEq(SubnormalFlush(a), SubnormalFlush(b))
  {
  }

  lemma FlushLeftSubnormal(a: bv32, b: bv32)
    requires SignMagnitudeLess(a, b) && IsSubnormal(a) && !IsSubnormal(b)
    ensures SignMagnitudeLessEq(SubnormalFlush(a), SubnormalFlush(b))
  {
    if IsNegative(a) {
      BelowNegativeSubnormal(a, b);
    } else {
      AbovePositiveSubnormal(a, b);
    }
  }

  lemma BelowNegativeSubnormal(a: bv32, b: bv32)
    requires SignMagnitudeLess(a, b) && IsSubnormal(a) && !IsSubnormal(b) && IsNegative(a)
    ensures SignMagnitudeLessEq(NEG_ZERO, b)
  {
  }

  lemma AbovePositiveSubnormal(a: bv32, b: bv32)
    requires SignMagnitudeLess(a, b) && IsSubnormal(a) && !IsSubnormal(b) && !IsNegative(a)
    ensures SignMagnitudeLessEq(POS_ZERO, b)
  {
  }

  lemma FlushRightSubnormal(a: bv32, b: bv32)
    requires SignMagnitudeLess(a, b) && !IsSubnormal(a) && IsSubnormal(b)
    ensures SignMagnitudeLessEq(SubnormalFlush(a), SubnormalFlush(b))
  {
    if IsNegative(b) {
      BelowNegativeSubnormalRight(a, b);
    } else {
      BelowPositiveSubnormal(a, b);
    }
  }

  lemma BelowPositiveSubnormal(a: bv32, b: bv32)
    requires SignMagnitudeLess(a, b) && !IsSubnormal(a) && IsSubnormal(b) && !IsNegative(b)
    ensures SignMagnitudeLessEq(a, POS_ZERO)
  {
  }

  lemma BelowNegativeSubnormalRight(a: bv32, b: bv32)
    requires SignMagnitudeLess(a, b) && !IsSubnormal(a) && IsSubnormal(b) && IsNegative(b)
    ensures SignMagnitudeLessEq(a, NEG_ZERO)
  {
  }

  // ---------------------------------------------------------------------------
  // riscv_emulate_fmins / riscv_emulate_fmaxs
  // ---------------------------------------------------------------------------

  /** The two zeros in either order; the emulation tests the two patterns
      0x80000000 and 0x00000000 directly, which is exactly "two zeros with
      different signs". */
  predicate OppositeZeros(a: bv32, b: bv32): (r: bool)
    ensures r <==> IsZero(a) && IsZero(b) && a != b
  {
    (a == NEG_ZERO && b == POS_ZERO) || (a == POS_ZERO && b == NEG_ZERO)
  }

  /** FMIN.S. `nan` is the value of `nanf("")`. */
  function FMinS(rs1: bv32, rs2: bv32, nan: QuietNaN): (r: bv32)
    ensures IsNaN(rs1) && IsNaN(rs2) ==> r == nan
    ensures IsNaN(rs1) && !IsNaN(rs2) ==> r == rs2
    ensures !IsNaN(rs1) && IsNaN(rs2) ==> r == rs1
    ensures IsZero(rs1) && IsZero(rs2) && rs1 != rs2 ==> r == NEG_ZERO
    ensures !IsNaN(rs1) && !IsNaN(rs2) && !(IsZero(rs1) && IsZero(rs2) && rs1 != rs2) ==>
              || (r == SubnormalFlush(rs1) && SignMagnitudeLessEq(rs1, rs2))
              || (r == SubnormalFlush(rs2) && SignMagnitudeLessEq(rs2, rs1))
  {
    if CategoryOf(rs1) == Nan && CategoryOf(rs2) == Nan then nan
    else if CategoryOf(rs1) == Nan then rs2
    else if CategoryOf(rs2) == Nan then rs1
    else if OppositeZeros(rs1, rs2) then NEG_ZERO
    else
      FminBits(rs1, rs2);
      SubnormalFlush(Fmin(rs1, rs2))
  }

  /** FMAX.S. `nan` is the value of `nanf("")`. */
  function FMaxS(rs1: bv32, rs2: bv32, nan: QuietNaN): (r: bv32)
    ensures IsNaN(rs1) && IsNaN(rs2) ==> r == nan
    ensures IsNaN(rs1) && !IsNaN(rs2) ==> r == rs2
    ensures !IsNaN(rs1) && IsNaN(rs2) ==> r == rs1
    ensures IsZero(rs1) && IsZero(rs2) && rs1 != rs2 ==> r == POS_ZERO
    ensures !IsNaN(rs1) && !IsNaN(rs2) && !(IsZero(rs1) && IsZero(rs2) && rs1 != rs2) ==>
              || (r == SubnormalFlush(rs1) && SignMagnitudeLessEq(rs2, rs1))
              || (r == SubnormalFlush(rs2) && SignMagnitudeLessEq(rs1, rs2))
  {
    if CategoryOf(rs1) == Nan && CategoryOf(rs2) == Nan then nan
    else if CategoryOf(rs1) == Nan then rs2
    else if CategoryOf(rs2) == Nan then rs1
    else if OppositeZeros(rs1, rs2) then POS_ZERO
    else
      FmaxBits(rs1, rs2);
      SubnormalFlush(Fmax(rs1, rs2))
  }

  /** With one NaN operand the other operand is returned before the flush, so
      a subnormal comes back as it is. */
  lemma NaNOperandNotFlushed(nan: QuietNaN)
    ensures IsSubnormal(0x0000_0001)
    ensures FMinS(0x7FC0_0000, 0x0000_0001, nan) == 0x0000_0001
    ensures FMaxS(0x8000_0001, 0xFF80_0001, nan) == 0x8000_0001
  {
  }

  /** Two operands each not above the other are the same pattern, unless they
      are the two zeros. */
  lemma LessEqBothWays(a: bv32, b: bv32)
    requires SignMagnitudeLessEq(a, b) && SignMagnitudeLessEq(b, a)
    ensures a == b || (IsZero(a) && IsZero(b) && a != b)
  {
    SignMagnitudeAsymmetric(a, b);
  }

  /** The order of the operands does not matter to FMIN.S. */
  lemma FMinSCommutative(a: bv32, b: bv32, nan: QuietNaN)
    ensures FMinS(a, b, nan) == FMinS(b, a, nan)
  {
    if !IsNaN(a) && !IsNaN(b) && !(IsZero(a) && IsZero(b) && a != b) {
      var r1, r2 := FMinS(a, b, nan), FMinS(b, a, nan);
      if r1 != r2 {
        LessEqBothWays(a, b);
      }
    }
  }

  /** The order of the operands does not matter to FMAX.S. */
  lemma FMaxSCommutative(a: bv32, b: bv32, nan: QuietNaN)
    ensures FMaxS(a, b, nan) == FMaxS(b, a, nan)
  {
    if !IsNaN(a) && !IsNaN(b) && !(IsZero(a) && IsZero(b) && a != b) {
      var r1, r2 := FMaxS(a, b, nan), FMaxS(b, a, nan);
      if r1 != r2 {
        LessEqBothWays(a, b);
      }
    }
  }

  /** For ordered operands other than the two zeros, FMIN.S flushes the lower
      one and FMAX.S the upper one. */
  lemma MinMaxOfOrdered(a: bv32, b: bv32, nan: QuietNaN)
    requires !IsNaN(a) && !IsNaN(b) && !(IsZero(a) && IsZero(b) && a != b)
    requires SignMagnitudeLessEq(a, b)
    ensures FMinS(a, b, nan) == SubnormalFlush(a)
    ensures FMaxS(a, b, nan) == SubnormalFlush(b)
  {
    if SignMagnitudeLessEq(b, a) {
      LessEqBothWays(a, b);
    }
  }

  /** Unless both operands are NaN, the minimum is not above the maximum. */
  lemma FMinSNotAboveFMaxS(a: bv32, b: bv32, nan: QuietNaN)
    requires !(IsNaN(a) && IsNaN(b))
    ensures FLeS(FMinS(a, b, nan), FMaxS(a, b, nan)) == 1
  {
    if IsNaN(a) {
      FLeSReflexive(b);
    } else if IsNaN(b) {
      FLeSReflexive(a);
    } else if !(IsZero(a) && IsZero(b) && a != b) {
      if SignMagnitudeLessEq(a, b) {
        MinNotAboveMaxOrdered(a, b, nan);
      } else {
        SignMagnitudeTrichotomy(a, b);
        MinNotAboveMaxOrdered(b, a, nan);
        FMinSCommutative(a, b, nan);
        FMaxSCommutative(a, b, nan);
      }
    }
  }

  lemma MinNotAboveMaxOrdered(a: bv32, b: bv32, nan: QuietNaN)
    requires !IsNaN(a) && !IsNaN(b) && !(IsZero(a) && IsZero(b) && a != b)
    requires SignMagnitudeLessEq(a, b)
    ensures FLeS(FMinS(a, b, nan), FMaxS(a, b, nan)) == 1
  {
    MinMaxOfOrdered(a, b, nan);
    SubnormalFlushMonotone(a, b);
    FlushKeepsNaN(a);
    FlushKeepsNaN(b);
  }

  // ---------------------------------------------------------------------------
  // riscv_emulate_feqs / riscv_emulate_flts / riscv_emulate_fles
  // ---------------------------------------------------------------------------

  /** FEQ.S: 1 for equal values, the two zeros included; 0 on a NaN. */
  function FEqS(rs1: bv32, rs2: bv32): (r: bv32)
    ensures r == 0 || r == 1
    ensures r == 1 <==> !IsNaN(rs1) && !IsNaN(rs2) && (rs1 == rs2 || (IsZero(rs1) && IsZero(rs2)))
  {
    SignMagnitudeTrichotomy(rs1, rs2);
    if CategoryOf(rs1) == Nan || CategoryOf(rs2) == Nan then 0
    else if IsLess(rs1, rs2) then 0
    else if IsGreater(rs1, rs2) then 0
    else 1
  }

  /** FLT.S: 1 when `rs1` is below `rs2`; 0 on a NaN. */
  function FLtS(rs1: bv32, rs2: bv32): (r: bv32)
    ensures r == 0 || r == 1
    ensures r == 1 <==> !IsNaN(rs1) && !IsNaN(rs2) && SignMagnitudeLess(rs1, rs2)
  {
    if CategoryOf(rs1) == Nan || CategoryOf(rs2) == Nan then 0
    else if IsLess(rs1, rs2) then 1
    else 0
  }

  /** FLE.S: 1 when `rs1` is not above `rs2`; 0 on a NaN. */
  function FLeS(rs1: bv32, rs2: bv32): (r: bv32)
    ensures r == 0 || r == 1
    ensures r == 1 <==> !IsNaN(rs1) && !IsNaN(rs2) && SignMagnitudeLessEq(rs1, rs2)
  {
    if CategoryOf(rs1) == Nan || CategoryOf(rs2) == Nan then 0
    else if IsLessEqual(rs1, rs2) then 1
    else 0
  }

  /** Every operand other than a NaN is not above itself. */
  lemma FLeSReflexive(a: bv32)
    ensures FLeS(a, a) == 1 <==> !IsNaN(a)
  {
  }

  /** `fle` is `flt` or `feq`. */
  lemma FLeSIsFLtSOrFEqS(a: bv32, b: bv32)
    ensures FLeS(a, b) == 1 <==> FLtS(a, b) == 1 || FEqS(a, b) == 1
  {
  }

  lemma FEqSSymmetric(a: bv32, b: bv32)
    ensures FEqS(a, b) == FEqS(b, a)
  {
  }

  lemma FLtSAsymmetric(a: bv32, b: bv32)
    ensures !(FLtS(a, b) == 1 && FLtS(b, a) == 1)
  {
    SignMagnitudeAsymmetric(a, b);
  }

  lemma FLtSTransitive(a: bv32, b: bv32, c: bv32)
    requires FLtS(a, b) == 1 && FLtS(b, c) == 1
    ensures FLtS(a, c) == 1
  {
    SignMagnitudeTransitive(a, b, c);
  }

  /** For non-NaN operands exactly one of `flt(a, b)`, `flt(b, a)` and
      `feq(a, b)` is 1. */
  lemma ComparisonTrichotomy(a: bv32, b: bv32)
    requires !IsNaN(a) && !IsNaN(b)
    ensures FLtS(a, b) + FLtS(b, a) + FEqS(a, b) == 1
  {
    SignMagnitudeTrichotomy(a, b);
    SignMagnitudeAsymmetric(a, b);
  }

  /** The two zeros compare equal. */
  lemma ZerosCompareEqual()
    ensures FEqS(POS_ZERO, NEG_ZERO) == 1
    ensures FLtS(NEG_ZERO, POS_ZERO) == 0
  {
  }

  /** Comparisons read subnormal operands as they are: the smallest positive
      subnormal is above +0 although it flushes to +0. */
  lemma SubnormalsNotFlushedInComparison()
    ensures SubnormalFlush(0x0000_0001) == POS_ZERO
    ensures FLtS(POS_ZERO, 0x0000_0001) == 1
    ensures FEqS(POS_ZERO, 0x0000_0001) == 0
  {
  }

  // ---------------------------------------------------------------------------
  // riscv_emulate_fsgnjs / riscv_emulate_fsgnjns / riscv_emulate_fsgnjxs
  // ---------------------------------------------------------------------------

  // Solver-sized steps for the sign injections: each lemma below states one
  // bit-level identity about the sign and magnitude masks, so that every proof
  // obligation stays small. KeepSign .. XorNegative equate one branch of the C
  // code with the instruction's formula; Injected* read the sign and the
  // magnitude back off that formula.

  lemma KeepSign(x: bv32, s: bv32)
    requires IsNegative(x) == IsNegative(s)
    ensures x == (x & MAG_MASK) | (s & SIGN_MASK)
  {
  }

  lemma FlipSign(x: bv32, s: bv32)
    requires IsNegative(x) != IsNegative(s)
    ensures Negate(x) == (x & MAG_MASK) | (s & SIGN_MASK)
  {
  }

  lemma KeepOppositeSign(x: bv32, s: bv32)
    requires IsNegative(x) != IsNegative(s)
    ensures x == (x & MAG_MASK) | ((s & SIGN_MASK) ^ SIGN_MASK)
  {
  }

  lemma FlipOppositeSign(x: bv32, s: bv32)
    requires IsNegative(x) == IsNegative(s)
    ensures Negate(x) == (x & MAG_MASK) | ((s & SIGN_MASK) ^ SIGN_MASK)
  {
  }

  lemma XorPositive(x: bv32, s: bv32)
    requires !IsNegative(s)
    ensures x == x ^ (s & SIGN_MASK)
  {
  }

  lemma XorNegative(x: bv32, s: bv32)
    requires IsNegative(s)
    ensures Negate(x) == x ^ (s & SIGN_MASK)
  {
  }

  /** The branches of `riscv_emulate_fsgnjs` compute the magnitude of `rs1`
      with the sign of `rs2`. */
  lemma FSgnjSBranches(rs1: bv32, rs2: bv32)
    ensures (if IsNegative(rs2) then (if !IsNegative(rs1) then Negate(rs1) else rs1)
             else (if !IsNegative(rs1) then rs1 else Negate(rs1)))
            == (rs1 & MAG_MASK) | (rs2 & SIGN_MASK)
  {
    if IsNegative(rs1) == IsNegative(rs2) {
      KeepSign(rs1, rs2);
    } else {
      FlipSign(rs1, rs2);
    }
  }

  /** The branches of `riscv_emulate_fsgnjns` compute the magnitude of `rs1`
      with the inverted sign of `rs2`. */
  lemma FSgnjnSBranches(rs1: bv32, rs2: bv32)
    ensures (if IsNegative(rs2) then (if !IsNegative(rs1) then rs1 else Negate(rs1))
             else (if !IsNegative(rs1) then Negate(rs1) else rs1))
            == (rs1 & MAG_MASK) | ((rs2 & SIGN_MASK) ^ SIGN_MASK)
  {
    if IsNegative(rs1) == IsNegative(rs2) {
      FlipOppositeSign(rs1, rs2);
    } else {
      KeepOppositeSign(rs1, rs2);
    }
  }

  /** The branches of `riscv_emulate_fsgnjxs` xor the sign of `rs2` into
      `rs1`. */
  lemma FSgnjxSBranches(rs1: bv32, rs2: bv32)
    ensures (if IsNegative(rs1) != IsNegative(rs2) then (if !IsNegative(rs1) then Negate(rs1) else rs1)
             else (if !IsNegative(rs1) then rs1 else Negate(rs1)))
            == rs1 ^ (rs2 & SIGN_MASK)
  {
    if IsNegative(rs2) {
      XorNegative(rs1, rs2);
    } else {
      XorPositive(rs1, rs2);
    }
  }

  // The assembled patterns carry the intended sign and keep the magnitude
  // field of `x`.

  lemma InjectedSign(x: bv32, s: bv32)
    ensures IsNegative((x & MAG_MASK) | (s & SIGN_MASK)) == IsNegative(s)
  {
  }

  lemma InjectedOppositeSign(x: bv32, s: bv32)
    ensures IsNegative((x & MAG_MASK) | ((s & SIGN_MASK) ^ SIGN_MASK)) == !IsNegative(s)
  {
  }

  lemma InjectedXorSign(x: bv32, s: bv32)
    ensures IsNegative(x ^ (s & SIGN_MASK)) == (IsNegative(x) != IsNegative(s))
  {
    if IsNegative(s) {
      XorNegative(x, s);
    } else {
      XorPositive(x, s);
    }
  }

  lemma InjectedMagnitude(x: bv32, s: bv32)
    ensures (((x & MAG_MASK) | (s & SIGN_MASK)) & MAG_MASK) == (x & MAG_MASK)
  {
  }

  lemma InjectedOppositeMagnitude(x: bv32, s: bv32)
    ensures (((x & MAG_MASK) | ((s & SIGN_MASK) ^ SIGN_MASK)) & MAG_MASK) == (x & MAG_MASK)
  {
  }

  lemma InjectedXorMagnitude(x: bv32, s: bv32)
    ensures ((x ^ (s & SIGN_MASK)) & MAG_MASK) == (x & MAG_MASK)
  {
  }

  /** Flushing keeps the sign. */
  lemma FlushSign(x: bv32)
    ensures IsNegative(SubnormalFlush(x)) == IsNegative(x)
  {
  }

  /** FSGNJ.S: the magnitude of `rs1` with the sign of `rs2`, flushed. */
  function FSgnjS(rs1: bv32, rs2: bv32): (r: bv32)
    ensures r == SubnormalFlush((rs1 & MAG_MASK) | (rs2 & SIGN_MASK))
    ensures IsNegative(r) == IsNegative(rs2)
  {
    FSgnjSBranches(rs1, rs2);
    InjectedSign(rs1, rs2);
    FlushSign((rs1 & MAG_MASK) | (rs2 & SIGN_MASK));
    var res :=
      if IsNegative(rs2) then (if !IsNegative(rs1) then Negate(rs1) else rs1)
      else (if !IsNegative(rs1) then rs1 else Negate(rs1));
    SubnormalFlush(res)
  }

  /** FSGNJN.S: the magnitude of `rs1` with the inverted sign of `rs2`,
      flushed. */
  function FSgnjnS(rs1: bv32, rs2: bv32): (r: bv32)
    ensures r == SubnormalFlush((rs1 & MAG_MASK) | ((rs2 & SIGN_MASK) ^ SIGN_MASK))
    ensures IsNegative(r) == !IsNegative(rs2)
  {
    FSgnjnSBranches(rs1, rs2);
    InjectedOppositeSign(rs1, rs2);
    FlushSign((rs1 & MAG_MASK) | ((rs2 & SIGN_MASK) ^ SIGN_MASK));
    var res :=
      if IsNegative(rs2) then (if !IsNegative(rs1) then rs1 else Negate(rs1))
      else (if !IsNegative(rs1) then Negate(rs1) else rs1);
    SubnormalFlush(res)
  }

  /** FSGNJX.S: the magnitude of `rs1` with the exclusive or of the two
      signs, flushed. */
  function FSgnjxS(rs1: bv32, rs2: bv32): (r: bv32)
    ensures r == SubnormalFlush(rs1 ^ (rs2 & SIGN_MASK))
    ensures IsNegative(r) == (IsNegative(rs1) != IsNegative(rs2))
  {
    FSgnjxSBranches(rs1, rs2);
    InjectedXorSign(rs1, rs2);
    FlushSign(rs1 ^ (rs2 & SIGN_MASK));
    var res :=
      if IsNegative(rs1) != IsNegative(rs2) then (if !IsNegative(rs1) then Negate(rs1) else rs1)
      else (if !IsNegative(rs1) then rs1 else Negate(rs1));
    SubnormalFlush(res)
  }

  /** Flushing a pattern with the magnitude field of `x` keeps that field,
      unless `x` is subnormal, which gives a zero. */
  lemma FlushWithMagnitudeOf(x: bv32, p: bv32, r: bv32)
    requires (p & MAG_MASK) == (x & MAG_MASK) && r == SubnormalFlush(p)
    ensures !IsSubnormal(x) ==> (r & MAG_MASK) == (x & MAG_MASK)
    ensures IsSubnormal(x) ==> IsZero(r)
  {
    SameMagnitudeField(x, p);
  }

  lemma SameMagnitudeField(x: bv32, p: bv32)
    requires (p & MAG_MASK) == (x & MAG_MASK)
    ensures p & EXP_MASK == x & EXP_MASK && p & FRAC_MASK == x & FRAC_MASK
  {
  }

  /** The sign injections keep the magnitude field of `rs1` unless `rs1` is
      subnormal, which gives a zero. */
  lemma FSgnjSMagnitude(rs1: bv32, rs2: bv32)
    ensures !IsSubnormal(rs1) ==> (FSgnjS(rs1, rs2) & MAG_MASK) == (rs1 & MAG_MASK)
    ensures IsSubnormal(rs1) ==> IsZero(FSgnjS(rs1, rs2))
  {
    InjectedMagnitude(rs1, rs2);
    FlushWithMagnitudeOf(rs1, (rs1 & MAG_MASK) | (rs2 & SIGN_MASK), FSgnjS(rs1, rs2));
  }

  lemma FSgnjnSMagnitude(rs1: bv32, rs2: bv32)
    ensures !IsSubnormal(rs1) ==> (FSgnjnS(rs1, rs2) & MAG_MASK) == (rs1 & MAG_MASK)
    ensures IsSubnormal(rs1) ==> IsZero(FSgnjnS(rs1, rs2))
  {
    InjectedOppositeMagnitude(rs1, rs2);
    FlushWithMagnitudeOf(rs1, (rs1 & MAG_MASK) | ((rs2 & SIGN_MASK) ^ SIGN_MASK), FSgnjnS(rs1, rs2));
  }

  lemma FSgnjxSMagnitude(rs1: bv32, rs2: bv32)
    ensures !IsSubnormal(rs1) ==> (FSgnjxS(rs1, rs2) & MAG_MASK) == (rs1 & MAG_MASK)
    ensures IsSubnormal(rs1) ==> IsZero(FSgnjxS(rs1, rs2))
  {
    InjectedXorMagnitude(rs1, rs2);
    FlushWithMagnitudeOf(rs1, rs1 ^ (rs2 & SIGN_MASK), FSgnjxS(rs1, rs2));
  }

  /** `fsgnjn` with `rs2` is `fsgnj` with the negation of `rs2`. */
  lemma FSgnjnSIsFSgnjSOfNegation(a: bv32, b: bv32)
    ensures FSgnjnS(a, b) == FSgnjS(a, Negate(b))
  {
  }

  /** `fsgnjx` keeps the sign of `rs1` for a positive `rs2` and flips it for a
      negative one. */
  lemma FSgnjxSBySign(a: bv32, b: bv32)
    ensures FSgnjxS(a, b) == if IsNegative(b) then SubnormalFlush(Negate(a)) else SubnormalFlush(a)
  {
  }

  /** The assembler idioms built on sign injection: `fmv.s`, `fneg.s` and
      `fabs.s` repeat the source register. */
  lemma SignInjectionIdioms(x: bv32)
    ensures FSgnjS(x, x) == SubnormalFlush(x)
    ensures FSgnjnS(x, x) == SubnormalFlush(Negate(x))
    ensures FSgnjxS(x, x) == SubnormalFlush((x & MAG_MASK))
  {
  }

  // ---------------------------------------------------------------------------
  // riscv_emulate_fclasss
  // ---------------------------------------------------------------------------

  const CLASS_NEG_INF: bv32 := 1 << 0
  const CLASS_NEG_NORM: bv32 := 1 << 1
  const CLASS_NEG_DENORM: bv32 := 1 << 2
  const CLASS_NEG_ZERO: bv32 := 1 << 3
  const CLASS_POS_ZERO: bv32 := 1 << 4
  const CLASS_POS_DENORM: bv32 := 1 << 5
  const CLASS_POS_NORM: bv32 := 1 << 6
  const CLASS_POS_INF: bv32 := 1 << 7
  const CLASS_SNAN: bv32 := 1 << 8
  const CLASS_QNAN: bv32 := 1 << 9

  /** The FCLASS.S table: the one bit that stands for a category, a sign and,
      for a NaN, whether it is quiet. Exactly one of bits 0 to 9 is set; bits
      8 and 9 are the NaNs and bits 0 to 3 the negative numbers. */
  function ClassBit(c: Category, negative: bool, quiet: bool): (r: bv32)
    ensures r != 0 && r & (r - 1) == 0 && r >> 10 == 0
    ensures r & 0x300 != 0 <==> c == Nan
    ensures r & 0x00F != 0 <==> c != Nan && negative
  {
    match c
    case Infinite => if negative then CLASS_NEG_INF else CLASS_POS_INF
    case Normal => if negative then CLASS_NEG_NORM else CLASS_POS_NORM
    case Subnormal => if negative then CLASS_NEG_DENORM else CLASS_POS_DENORM
    case Zero => if negative then CLASS_NEG_ZERO else CLASS_POS_ZERO
    case Nan => if quiet then CLASS_QNAN else CLASS_SNAN
  }

  /** Bit 22 shifted down is the quiet bit. */
  lemma QuietBitTest(x: bv32)
    ensures (x >> 22) & 1 != 0 <==> x & QUIET_BIT != 0
  {
  }

  /** The or-ing sequence of FCLASS.S for an operand of category `tmp`, sign
      `sgn` and quiet bit `quiet`: one test per category, each or-ing in the
      bit for the sign. The tests are exclusive, so one bit is set. */
  function OrClassBits(tmp: Category, sgn: bool, quiet: bool): (r: bv32)
    ensures r == ClassBit(tmp, sgn, quiet)
  {
    var res: bv32 := 0;
    var res := if tmp == Infinite then res | (if sgn then CLASS_NEG_INF else CLASS_POS_INF) else res;
    var res := if tmp == Zero then res | (if sgn then CLASS_NEG_ZERO else CLASS_POS_ZERO) else res;
    var res := if tmp == Normal then res | (if sgn then CLASS_NEG_NORM else CLASS_POS_NORM) else res;
    var res := if tmp == Subnormal then res | (if sgn then CLASS_NEG_DENORM else CLASS_POS_DENORM) else res;
    var res := if tmp == Nan then res | (if quiet then CLASS_QNAN else CLASS_SNAN) else res;
    res
  }

  /** FCLASS.S: the category from `fpclassify`, the sign from `signbit`, and
      for a NaN bit 22 of the pattern. */
  function FClassS(rs1: bv32): (r: bv32)
    ensures r == ClassBit(CategoryOf(rs1), IsNegative(rs1), rs1 & QUIET_BIT != 0)
  {
    QuietBitTest(rs1);
    OrClassBits(CategoryOf(rs1), IsNegative(rs1), (rs1 >> 22) & 1 != 0)
  }


  /** Each class bit stands for exactly its category and sign. */
  lemma FClassSMeaning(x: bv32)
    ensures FClassS(x) == CLASS_NEG_INF <==> IsInf(x) && IsNegative(x)
    ensures FClassS(x) == CLASS_NEG_NORM <==> IsNormal(x) && IsNegative(x)
    ensures FClassS(x) == CLASS_NEG_DENORM <==> IsSubnormal(x) && IsNegative(x)
    ensures FClassS(x) == CLASS_NEG_ZERO <==> IsZero(x) && IsNegative(x)
    ensures FClassS(x) == CLASS_POS_ZERO <==> IsZero(x) && !IsNegative(x)
    ensures FClassS(x) == CLASS_POS_DENORM <==> IsSubnormal(x) && !IsNegative(x)
    ensures FClassS(x) == CLASS_POS_NORM <==> IsNormal(x) && !IsNegative(x)
    ensures FClassS(x) == CLASS_POS_INF <==> IsInf(x) && !IsNegative(x)
    ensures FClassS(x) == CLASS_SNAN <==> IsNaN(x) && x & QUIET_BIT == 0
    ensures FClassS(x) == CLASS_QNAN <==> IsQuietNaN(x)
  {
    ClassBitMeaning(CategoryOf(x), IsNegative(x), x & QUIET_BIT != 0);
  }

  /** The ten entries of the table are distinct. */
  lemma ClassBitMeaning(c: Category, neg: bool, quiet: bool)
    ensures ClassBit(c, neg, quiet) == CLASS_NEG_INF <==> c == Infinite && neg
    ensures ClassBit(c, neg, quiet) == CLASS_NEG_NORM <==> c == Normal && neg
    ensures ClassBit(c, neg, quiet) == CLASS_NEG_DENORM <==> c == Subnormal && neg
    ensures ClassBit(c, neg, quiet) == CLASS_NEG_ZERO <==> c == Zero && neg
    ensures ClassBit(c, neg, quiet) == CLASS_POS_ZERO <==> c == Zero && !neg
    ensures ClassBit(c, neg, quiet) == CLASS_POS_DENORM <==> c == Subnormal && !neg
    ensures ClassBit(c, neg, quiet) == CLASS_POS_NORM <==> c == Normal && !neg
    ensures ClassBit(c, neg, quiet) == CLASS_POS_INF <==> c == Infinite && !neg
    ensures ClassBit(c, neg, quiet) == CLASS_SNAN <==> c == Nan && !quiet
    ensures ClassBit(c, neg, quiet) == CLASS_QNAN <==> c == Nan && quiet
  {
  }

  /** Exactly one of the ten class bits is set. */
  lemma FClassSOneHot(x: bv32)
    ensures FClassS(x) != 0 && FClassS(x) & (FClassS(x) - 1) == 0
    ensures FClassS(x) >> 10 == 0
  {
  }

  /** The mask can be decoded: bits 8 and 9 are the NaNs, bits 0 to 3 the
      negative numbers and bits 3 and 4 the zeros. */
  lemma FClassSDecode(x: bv32)
    ensures FClassS(x) & 0x300 != 0 <==> IsNaN(x)
    ensures FClassS(x) & 0x00F != 0 <==> !IsNaN(x) && IsNegative(x)
    ensures FClassS(x) & 0x018 != 0 <==> IsZero(x)
  {
  }

  /** Bits 0 to 7 list the classes in increasing order of value: a lower class
      bit means a smaller number, except that -0 and +0 are equal. */
  lemma FClassSOrder(a: bv32, b: bv32)
    requires !IsNaN(a) && !IsNaN(b)
    requires FClassS(a) < FClassS(b)
    ensures FLeS(a, b) == 1
    ensures FLtS(a, b) == 1 <==> !(IsZero(a) && IsZero(b))
  {
    ClassBitsLess(a, b);
    ClassSides(a, b);
    RankOrder(a, b);
  }

  /** Sign first, then the distance of the category from zero, orders the
      numbers. */
  lemma RankOrder(a: bv32, b: bv32)
    requires !IsNaN(a) && !IsNaN(b)
    requires || (IsNegative(a) && !IsNegative(b))
             || (IsNegative(a) && IsNegative(b) && MagnitudeRank(CategoryOf(b)) < MagnitudeRank(CategoryOf(a)))
             || (!IsNegative(a) && !IsNegative(b) && MagnitudeRank(CategoryOf(a)) < MagnitudeRank(CategoryOf(b)))
    ensures SignMagnitudeLessEq(a, b)
    ensures SignMagnitudeLess(a, b) <==> !(IsZero(a) && IsZero(b))
  {
    if IsNegative(a) && IsNegative(b) {
      CategoryBelow(b, a);
      if IsZero(a) { NothingBelowZero(b, a); }
    } else if !IsNegative(a) && !IsNegative(b) {
      CategoryBelow(a, b);
      if IsZero(b) { NothingBelowZero(a, b); }
    }
  }

  /** The table order of the classes of two numbers, read as signs and
      distances from zero. */
  lemma ClassSides(a: bv32, b: bv32)
    requires !IsNaN(a) && !IsNaN(b)
    requires ClassBit(CategoryOf(a), IsNegative(a), a & QUIET_BIT != 0) < ClassBit(CategoryOf(b), IsNegative(b), b & QUIET_BIT != 0)
    ensures || (IsNegative(a) && !IsNegative(b))
            || (IsNegative(a) && IsNegative(b) && MagnitudeRank(CategoryOf(b)) < MagnitudeRank(CategoryOf(a)))
            || (!IsNegative(a) && !IsNegative(b) && MagnitudeRank(CategoryOf(a)) < MagnitudeRank(CategoryOf(b)))
  {
    ClassBitOrder(CategoryOf(a), IsNegative(a), a & QUIET_BIT != 0, CategoryOf(b), IsNegative(b), b & QUIET_BIT != 0);
  }

  lemma ClassBitsLess(a: bv32, b: bv32)
    requires FClassS(a) < FClassS(b)
    ensures ClassBit(CategoryOf(a), IsNegative(a), a & QUIET_BIT != 0) < ClassBit(CategoryOf(b), IsNegative(b), b & QUIET_BIT != 0)
  {
  }

  /** How far a category lies from zero. */
  function MagnitudeRank(c: Category): nat {
    match c
    case Zero => 0
    case Subnormal => 1
    case Normal => 2
    case Infinite => 3
    case Nan => 4
  }

  /** For numbers, the table lists the negative classes first, from the
      farthest from zero inwards, then the positive ones outwards. */
  lemma ClassBitOrder(c1: Category, n1: bool, q1: bool, c2: Category, n2: bool, q2: bool)
    requires c1 != Nan && c2 != Nan
    requires ClassBit(c1, n1, q1) < ClassBit(c2, n2, q2)
    ensures || (n1 && !n2)
            || (n1 && n2 && MagnitudeRank(c2) < MagnitudeRank(c1))
            || (!n1 && !n2 && MagnitudeRank(c1) < MagnitudeRank(c2))
  {
  }

  /** A category farther from zero has a larger magnitude field. */
  lemma CategoryBelow(x: bv32, y: bv32)
    requires !IsNaN(x) && !IsNaN(y)
    requires MagnitudeRank(CategoryOf(x)) < MagnitudeRank(CategoryOf(y))
    ensures (x & MAG_MASK) < (y & MAG_MASK)
  {
    if IsZero(x) {
      ZeroBelowNonZero(x, y);
    } else if IsSubnormal(x) {
      SubnormalBelowNormalOrInfinite(x, y);
    } else {
      FiniteBelowInfinite(x, y);
    }
  }

  lemma ZeroBelowNonZero(x: bv32, y: bv32)
    requires IsZero(x) && !IsZero(y)
    ensures (x & MAG_MASK) < (y & MAG_MASK)
  {
  }

  lemma SubnormalBelowNormalOrInfinite(x: bv32, y: bv32)
    requires x & EXP_MASK == 0 && y & EXP_MASK != 0
    ensures (x & MAG_MASK) < (y & MAG_MASK)
  {
  }

  lemma FiniteBelowInfinite(x: bv32, y: bv32)
    requires x & EXP_MASK != EXP_MASK && y & EXP_MASK == EXP_MASK
    ensures (x & MAG_MASK) < (y & MAG_MASK)
  {
  }

  /** Concrete classifications. */
  lemma FClassSExamples()
    ensures FClassS(POS_INF) == CLASS_POS_INF
    ensures FClassS(NEG_ZERO) == CLASS_NEG_ZERO
    ensures FClassS(0x7FC0_0000) == CLASS_QNAN
    ensures FClassS(0xFF80_0001) == CLASS_SNAN
    ensures FClassS(0x8000_0001) == CLASS_NEG_DENORM
  {
  }
}
