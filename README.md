# Zfinx emulation layer, bit-level model

The NEORV32 floating-point test program checks the core's Zfinx FPU against a
software emulation of each RISC-V single-precision instruction. The emulation
lives in `neorv32_zfinx_extension_intrinsics.h`. This project models the part
of it that is pure bit-pattern logic:

- `subnormal_flush`: the core does not support subnormals, so a subnormal
  becomes the zero of the same sign.
- `riscv_emulate_fmins` / `riscv_emulate_fmaxs`: NaN handling, with
  `-0 < +0`.
- `riscv_emulate_feqs` / `riscv_emulate_flts` / `riscv_emulate_fles`: the
  quiet comparisons.
- `riscv_emulate_fsgnjs` / `riscv_emulate_fsgnjns` / `riscv_emulate_fsgnjxs`:
  the sign injections.
- `riscv_emulate_fclasss`: the ten-bit FCLASS.S mask.

The rules follow chapter 11 of the RISC-V Unprivileged ISA: section 11.6 for
FMIN/FMAX, 11.7 for sign injection, 11.8 for comparison and 11.9 for
classification. Operands are IEEE 754-2008 binary32 patterns (section 3.4 of
the standard).

Every operand and result is a `bv32`. The C `float` and its `uint32_t` union
view are the same bits.

The project has three modules:

- **`Binary32`** covers the encoding:
  - the field predicates and `CategoryOf`, which is C's `fpclassify`;
  - the exact value of a finite pattern, as an integer scaled by 2^149;
  - the sign-magnitude order of the bits (`SignMagnitudeLess`);
  - the proof that this order *is* the numeric order of the extended reals on
    non-NaN patterns, with the two zeros equal. The fields are read as
    numbers bit by bit (`BitsValue`, `ByteValue`), and bit-vector order is
    tied to integer order one byte at a time.
- **`MathH`** covers the operations on `float` that the emulation builds
  on. One is the C operator unary minus, which the compiler turns into a flip
  of the sign bit. The others are the calls into newlib's `<math.h>`:
  `isless`, `isgreater`, `islessequal`, `fmin` and `fmax`. The module also
  has the type of what `nanf("")` may return: some quiet NaN.
- **`ZfinxEmulation`** holds the ten emulation functions and the properties
  proved about them.

Each C function becomes a Dafny function with the same branch order. It
carries a contract stating its result in terms of the encoding. Lemmas relate
the functions to each other: commutativity, trichotomy, transitivity, the
sign-injection identities and the ordering of the class bits.

## Model

Every source cell points into `sw/example/floating_point_test/neorv32_zfinx_extension_intrinsics.h`; the line numbers in "Left out" refer to the same file.

| member | source | states |
|---|---|---|
| Binary32.CategoryOf | sw/example/floating_point_test/neorv32_zfinx_extension_intrinsics.h:1091 | `fpclassify` on the bits: NaN, infinite, zero, subnormal or normal, each exactly when its exponent/fraction condition holds |
| Binary32.ValueLessIsSignMagnitude | sw/example/floating_point_test/neorv32_zfinx_extension_intrinsics.h:908-914 | on non-NaN patterns, "less than" on the extended real values is exactly the sign-magnitude order of the bits, with +0 and -0 equal |
| Binary32.FiniteValueLess | sw/example/floating_point_test/neorv32_zfinx_extension_intrinsics.h:908-914 | for finite patterns, the scaled exact values compare as the sign-magnitude order does |
| Binary32.MagnitudeFieldOrder | sw/example/floating_point_test/neorv32_zfinx_extension_intrinsics.h:908-914 | the magnitude field compared as a bit-vector and as the number exponent·2^23 + fraction give the same order |
| Binary32.ValueEqualIsSameOrZeros | sw/example/floating_point_test/neorv32_zfinx_extension_intrinsics.h:908-916 | two non-NaN values are equal exactly when they are the same pattern or both zeros |
| Binary32.ValueInjective | sw/example/floating_point_test/neorv32_zfinx_extension_intrinsics.h:908-916 | finite patterns with the same value are the same pattern or the two zeros, and conversely |
| Binary32.ValueTrichotomy | sw/example/floating_point_test/neorv32_zfinx_extension_intrinsics.h:908-916 | of `a < b`, `b < a` and `a == b` on non-NaN values exactly one holds |
| Binary32.SignMagnitudeTrichotomy | sw/example/floating_point_test/neorv32_zfinx_extension_intrinsics.h:927-939 | any two patterns are ordered one way or the other, or are the same pattern, or are both zeros |
| Binary32.SignMagnitudeAsymmetric | sw/example/floating_point_test/neorv32_zfinx_extension_intrinsics.h:927-939 | the bit order never holds both ways |
| Binary32.SignMagnitudeTransitive | sw/example/floating_point_test/neorv32_zfinx_extension_intrinsics.h:927-939 | the strict bit order is transitive |
| Binary32.SignMagnitudeLessEqTransitive | sw/example/floating_point_test/neorv32_zfinx_extension_intrinsics.h:949-961 | the non-strict bit order is transitive |
| MathH.Negate | sw/example/floating_point_test/neorv32_zfinx_extension_intrinsics.h:979 | unary minus flips the sign bit and keeps the magnitude field, NaNs included |
| MathH.NegateInvolutive | sw/example/floating_point_test/neorv32_zfinx_extension_intrinsics.h:979 | negating twice gives the pattern back |
| MathH.QuietNaN | sw/example/floating_point_test/neorv32_zfinx_extension_intrinsics.h:783 | what `nanf("")` returns is a quiet NaN: exponent all ones and bit 22 set, with sign and payload left open |
| MathH.IsLess | sw/example/floating_point_test/neorv32_zfinx_extension_intrinsics.h:908 | `isless(x, y)` is false on a NaN and otherwise holds exactly when `x` is below `y` in the sign-magnitude order |
| MathH.IsGreater | sw/example/floating_point_test/neorv32_zfinx_extension_intrinsics.h:911 | `isgreater(x, y)` is false on a NaN and otherwise holds exactly when `y` is below `x` in the sign-magnitude order |
| MathH.IsLessEqual | sw/example/floating_point_test/neorv32_zfinx_extension_intrinsics.h:955 | `islessequal(x, y)` is false on a NaN and otherwise holds exactly when `x` is below `y`, is the same pattern, or both are zeros |
| MathH.Fmin | sw/example/floating_point_test/neorv32_zfinx_extension_intrinsics.h:802 | `fmin` returns one of its arguments, the other one when an argument is NaN, and otherwise one not above either argument |
| MathH.Fmax | sw/example/floating_point_test/neorv32_zfinx_extension_intrinsics.h:841 | `fmax` returns one of its arguments, the other one when an argument is NaN, and otherwise one not below either argument |
| MathH.FminBits | sw/example/floating_point_test/neorv32_zfinx_extension_intrinsics.h:802 | on non-NaN arguments `fmin` picks an argument that is not above the other in the bit order |
| MathH.FmaxBits | sw/example/floating_point_test/neorv32_zfinx_extension_intrinsics.h:841 | on non-NaN arguments `fmax` picks an argument that is not below the other in the bit order |
| ZfinxEmulation.SubnormalFlush | sw/example/floating_point_test/neorv32_zfinx_extension_intrinsics.h:86-100 | a subnormal becomes a zero with the same sign bit; every other pattern is returned bit for bit; the result is never subnormal |
| ZfinxEmulation.SubnormalFlushIdempotent | sw/example/floating_point_test/neorv32_zfinx_extension_intrinsics.h:86-100 | flushing twice is flushing once |
| ZfinxEmulation.FlushKeepsNaN | sw/example/floating_point_test/neorv32_zfinx_extension_intrinsics.h:86-100 | the flush neither makes nor removes a NaN |
| ZfinxEmulation.FlushSign | sw/example/floating_point_test/neorv32_zfinx_extension_intrinsics.h:90-96 | the flush keeps the sign bit |
| ZfinxEmulation.SubnormalFlushMonotone | sw/example/floating_point_test/neorv32_zfinx_extension_intrinsics.h:86-100 | the flush preserves the non-strict order of patterns |
| ZfinxEmulation.OppositeZeros | sw/example/floating_point_test/neorv32_zfinx_extension_intrinsics.h:797-798 | the test on 0x80000000 / 0x00000000 holds exactly for two zeros with different signs |
| ZfinxEmulation.FMinS | sw/example/floating_point_test/neorv32_zfinx_extension_intrinsics.h:775-803 | two NaNs give `nan`, the value of `nanf("")`, whatever their payloads; one NaN gives the other operand unflushed; opposite zeros give -0; otherwise the flush of an operand not above the other |
| ZfinxEmulation.FMaxS | sw/example/floating_point_test/neorv32_zfinx_extension_intrinsics.h:813-842 | two NaNs give `nan`, the value of `nanf("")`, whatever their payloads; one NaN gives the other operand unflushed; opposite zeros give +0; otherwise the flush of an operand not below the other |
| ZfinxEmulation.NaNOperandNotFlushed | sw/example/floating_point_test/neorv32_zfinx_extension_intrinsics.h:786-792 | next to a NaN a subnormal operand is returned as it is, by both min and max |
| ZfinxEmulation.FMinSCommutative | sw/example/floating_point_test/neorv32_zfinx_extension_intrinsics.h:775-803 | swapping the operands does not change FMIN.S |
| ZfinxEmulation.FMaxSCommutative | sw/example/floating_point_test/neorv32_zfinx_extension_intrinsics.h:813-842 | swapping the operands does not change FMAX.S |
| ZfinxEmulation.LessEqBothWays | sw/example/floating_point_test/neorv32_zfinx_extension_intrinsics.h:795-802 | operands each not above the other are one pattern or the two opposite zeros, which the special case catches |
| ZfinxEmulation.MinMaxOfOrdered | sw/example/floating_point_test/neorv32_zfinx_extension_intrinsics.h:795-841 | for ordered non-NaN operands other than opposite zeros, min is the flushed lower one and max the flushed upper one |
| ZfinxEmulation.FMinSNotAboveFMaxS | sw/example/floating_point_test/neorv32_zfinx_extension_intrinsics.h:775-842 | unless both operands are NaN, `fle(fmin(a, b), fmax(a, b)) == 1` |
| ZfinxEmulation.FEqS | sw/example/floating_point_test/neorv32_zfinx_extension_intrinsics.h:902-917 | returns 0 or 1; 1 exactly for non-NaN operands that are the same pattern or both zeros |
| ZfinxEmulation.FLtS | sw/example/floating_point_test/neorv32_zfinx_extension_intrinsics.h:927-939 | returns 0 or 1; 1 exactly for non-NaN operands with `rs1` below `rs2` |
| ZfinxEmulation.FLeS | sw/example/floating_point_test/neorv32_zfinx_extension_intrinsics.h:949-961 | returns 0 or 1; 1 exactly for non-NaN operands with `rs1` not above `rs2` |
| ZfinxEmulation.FLeSReflexive | sw/example/floating_point_test/neorv32_zfinx_extension_intrinsics.h:949-961 | `fle(a, a)` is 1 exactly when `a` is not NaN |
| ZfinxEmulation.FLeSIsFLtSOrFEqS | sw/example/floating_point_test/neorv32_zfinx_extension_intrinsics.h:902-961 | `fle` is 1 exactly when `flt` or `feq` is 1 |
| ZfinxEmulation.FEqSSymmetric | sw/example/floating_point_test/neorv32_zfinx_extension_intrinsics.h:902-917 | `feq` does not depend on the operand order |
| ZfinxEmulation.FLtSAsymmetric | sw/example/floating_point_test/neorv32_zfinx_extension_intrinsics.h:927-939 | `flt(a, b)` and `flt(b, a)` are never both 1 |
| ZfinxEmulation.FLtSTransitive | sw/example/floating_point_test/neorv32_zfinx_extension_intrinsics.h:927-939 | `flt` is transitive |
| ZfinxEmulation.ComparisonTrichotomy | sw/example/floating_point_test/neorv32_zfinx_extension_intrinsics.h:902-939 | for non-NaN operands exactly one of `flt(a, b)`, `flt(b, a)`, `feq(a, b)` is 1 |
| ZfinxEmulation.ZerosCompareEqual | sw/example/floating_point_test/neorv32_zfinx_extension_intrinsics.h:902-939 | `feq(+0, -0) == 1` and `flt(-0, +0) == 0` |
| ZfinxEmulation.SubnormalsNotFlushedInComparison | sw/example/floating_point_test/neorv32_zfinx_extension_intrinsics.h:927-939 | comparisons read subnormals unflushed: the least positive subnormal flushes to +0 yet compares above +0 |
| ZfinxEmulation.FSgnjSBranches | sw/example/floating_point_test/neorv32_zfinx_extension_intrinsics.h:973-992 | the four branches build the magnitude of `rs1` with the sign bit of `rs2` |
| ZfinxEmulation.FSgnjnSBranches | sw/example/floating_point_test/neorv32_zfinx_extension_intrinsics.h:1007-1026 | the four branches build the magnitude of `rs1` with the inverted sign bit of `rs2` |
| ZfinxEmulation.FSgnjxSBranches | sw/example/floating_point_test/neorv32_zfinx_extension_intrinsics.h:1041-1060 | the four branches xor the sign bit of `rs2` into `rs1` |
| ZfinxEmulation.FSgnjS | sw/example/floating_point_test/neorv32_zfinx_extension_intrinsics.h:971-995 | the flush of (magnitude of `rs1`, sign of `rs2`); the result has the sign of `rs2` |
| ZfinxEmulation.FSgnjnS | sw/example/floating_point_test/neorv32_zfinx_extension_intrinsics.h:1005-1029 | the flush of (magnitude of `rs1`, inverted sign of `rs2`); the result has the opposite sign of `rs2` |
| ZfinxEmulation.FSgnjxS | sw/example/floating_point_test/neorv32_zfinx_extension_intrinsics.h:1039-1063 | the flush of `rs1` with the sign of `rs2` xored in; the result's sign is the xor of the two signs |
| ZfinxEmulation.FSgnjSMagnitude | sw/example/floating_point_test/neorv32_zfinx_extension_intrinsics.h:971-995 | the result keeps the low 31 bits of `rs1`, except that a subnormal `rs1` gives a zero |
| ZfinxEmulation.FSgnjnSMagnitude | sw/example/floating_point_test/neorv32_zfinx_extension_intrinsics.h:1005-1029 | the same for FSGNJN.S |
| ZfinxEmulation.FSgnjxSMagnitude | sw/example/floating_point_test/neorv32_zfinx_extension_intrinsics.h:1039-1063 | the same for FSGNJX.S |
| ZfinxEmulation.FSgnjnSIsFSgnjSOfNegation | sw/example/floating_point_test/neorv32_zfinx_extension_intrinsics.h:971-1029 | `fsgnjn(a, b) == fsgnj(a, -b)` |
| ZfinxEmulation.FSgnjxSBySign | sw/example/floating_point_test/neorv32_zfinx_extension_intrinsics.h:1039-1063 | `fsgnjx(a, b)` is the flush of `a` for a positive `b` and of `-a` for a negative `b` |
| ZfinxEmulation.SignInjectionIdioms | sw/example/floating_point_test/neorv32_zfinx_extension_intrinsics.h:971-1063 | with `rs1 == rs2`: FSGNJ is a flushed move, FSGNJN a flushed negation and FSGNJX a flushed absolute value |
| ZfinxEmulation.QuietBitTest | sw/example/floating_point_test/neorv32_zfinx_extension_intrinsics.h:1123 | `(x >> 22) & 1` is set exactly when the quiet bit (bit 22) is set |
| ZfinxEmulation.ClassBit | sw/example/floating_point_test/neorv32_zfinx_extension_intrinsics.h:1080-1089 | the CLASS_* table: each entry has exactly one of bits 0..9 set; bits 8-9 are set exactly for a NaN, bits 0-3 exactly for a negative number |
| ZfinxEmulation.OrClassBits | sw/example/floating_point_test/neorv32_zfinx_extension_intrinsics.h:1094-1129 | the five exclusive or-assignment tests leave exactly the table entry for the category, sign and quiet bit |
| ZfinxEmulation.FClassS | sw/example/floating_point_test/neorv32_zfinx_extension_intrinsics.h:1072-1132 | the mask is the table entry for `fpclassify`, `signbit` and bit 22 of the operand |
| ZfinxEmulation.ClassBitMeaning | sw/example/floating_point_test/neorv32_zfinx_extension_intrinsics.h:1080-1089 | the ten table entries are distinct: each value stands for exactly one category and sign (or NaN kind) |
| ZfinxEmulation.FClassSMeaning | sw/example/floating_point_test/neorv32_zfinx_extension_intrinsics.h:1080-1129 | each of the ten bits is returned exactly for its class: the sign picks the negative or positive class, and for NaNs bit 22 alone picks quiet or signalling |
| ZfinxEmulation.FClassSOneHot | sw/example/floating_point_test/neorv32_zfinx_extension_intrinsics.h:1080-1129 | exactly one bit is set, and it lies in bits 0..9 |
| ZfinxEmulation.FClassSDecode | sw/example/floating_point_test/neorv32_zfinx_extension_intrinsics.h:1080-1089 | bits 8-9 mean NaN, bits 0-3 a negative number, bits 3-4 a zero |
| ZfinxEmulation.FClassSOrder | sw/example/floating_point_test/neorv32_zfinx_extension_intrinsics.h:1080-1087 | for numbers, a lower class bit means a value not above, and strictly below unless both are zeros |
| ZfinxEmulation.ClassBitOrder | sw/example/floating_point_test/neorv32_zfinx_extension_intrinsics.h:1080-1087 | the table lists the negative classes from farthest to nearest zero, then the positive ones outwards |
| ZfinxEmulation.CategoryBelow | sw/example/floating_point_test/neorv32_zfinx_extension_intrinsics.h:1080-1087 | a category farther from zero has a larger magnitude field |
| ZfinxEmulation.FClassSExamples | sw/example/floating_point_test/neorv32_zfinx_extension_intrinsics.h:1072-1132 | +inf, -0, the canonical quiet NaN, a signalling NaN and a negative subnormal get the expected bits |

## Left out

- The `riscv_intrinsic_*` functions (lines 166-719) are left out. They bind registers in inline assembly and emit custom instruction encodings; they are foreign calls into the hardware.
- `get_hw_exceptions` and `get_sw_exceptions` (lines 112-150) are left out. They read and clear the `fflags` CSR and the C runtime's `fenv` flags, which is process-wide state. The exception flags that the emulated operations raise, such as "invalid" on a signalling NaN, are not modelled either.
- The arithmetic emulations are left out: `fadds`, `fsubs`, `fmuls`, `fdivs`, `fsqrts` and the fused forms (lines 733-765, 1142-1223). Their results come from native IEEE rounding, which is floating-point numerics rather than bit rules.
- The conversions `fcvt_wus`, `fcvt_ws`, `fcvt_swu` and `fcvt_sw` (lines 851-892) are left out. They depend on `roundf`, native int/float rounding and C's undefined out-of-range casts.
- `nanf("")` is not modelled as a fixed pattern. It is a parameter of type `QuietNaN`, and its sign and payload are left open.
- Newlib's library functions are taken at their specification, not at their source. `fmin` and `fmax` return the other argument for one NaN and otherwise `x < y ? x : y` / `x > y ? x : y`. `isless`, `isgreater` and `islessequal` are exact comparisons that are false on a NaN. The library's source is not part of this model.
- `fmin` and `fmax` are the `double` versions in the source; the model states them on binary32 directly. Widening a `float` to `double` is exact, and the result is one of the arguments, so narrowing it back gives the same bits.
- The model assumes the compiler implements `float` as IEEE binary32 with no flush-to-zero of its own, so that `fpclassify` sees subnormals.
- `sw/example/newlib_demo/main.c` (a UART and heap demo) and `tasks/examples.py` (build tooling) are not part of this model.
