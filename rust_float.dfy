/**
 * Rust's `f64`, kept as the fields of its IEEE 754 binary64 encoding. The
 * model computes only what the formatter decides from those fields (zero,
 * NaN, infinity, sign, absolute value) and the saturating `as` casts to
 * integer types; the rounding of a finite value toward zero is a parameter.
 */
module RustFloat {
  import opened RustText

  /**
   * The three fields of an IEEE 754 binary64 value: the sign bit, the 11-bit
   * biased exponent and the 52-bit fraction.
   */
  datatype Binary64 = Binary64(negative: bool, exponent: nat, fraction: nat)

  const EXPONENT_ALL_ONES: nat := 0x7FF
  const FRACTION_LIMIT: nat := 0x10_0000_0000_0000

  type F64 = f: Binary64 | f.exponent <= EXPONENT_ALL_ONES && f.fraction < FRACTION_LIMIT
    witness Binary64(false, 0, 0)

  /** The literals `0.0` and `1.0`. */
  const ZERO: F64 := Binary64(false, 0, 0)
  const ONE: F64 := Binary64(false, 0x3FF, 0)

  predicate IsNegative(f: F64) {
    f.negative
  }

  /** `f == 0.0`, which holds for both signed zeros. */
  predicate IsZero(f: F64) {
    f.exponent == 0 && f.fraction == 0
  }

  predicate IsNaN(f: F64) {
    f.exponent == EXPONENT_ALL_ONES && f.fraction != 0
  }

  predicate IsInfinite(f: F64) {
    f.exponent == EXPONENT_ALL_ONES && f.fraction == 0
  }

  predicate IsFinite(f: F64) {
    f.exponent < EXPONENT_ALL_ONES
  }

  /** `f.abs()`: the sign bit cleared. */
  function Abs(f: F64): (r: F64)
    ensures !IsNegative(r)
    ensures IsZero(r) <==> IsZero(f)
    ensures IsNaN(r) <==> IsNaN(f)
    ensures IsInfinite(r) <==> IsInfinite(f)
    ensures r.exponent == f.exponent && r.fraction == f.fraction
  {
    f.(negative := false)
  }

  /**
   * `f as T` for an integer type T with range [lo, hi]: NaN becomes 0, an
   * infinity or a value out of range saturates at the nearer bound, and a
   * finite value in range is rounded toward zero by `trunc`.
   */
  function SaturatingCast(trunc: F64 -> int, f: F64, lo: int, hi: int): (r: int)
    requires lo <= 0 <= hi
    ensures lo <= r <= hi
    ensures IsNaN(f) ==> r == 0
    ensures IsInfinite(f) ==> r == (if IsNegative(f) then lo else hi)
    ensures IsFinite(f) && lo <= trunc(f) <= hi ==> r == trunc(f)
    ensures IsFinite(f) && trunc(f) < lo ==> r == lo
    ensures IsFinite(f) && trunc(f) > hi ==> r == hi
  {
    if IsNaN(f) then 0
    else if IsInfinite(f) then (if IsNegative(f) then lo else hi)
    else if trunc(f) < lo then lo
    else if trunc(f) > hi then hi
    else trunc(f)
  }

  const I32_MIN: int := -0x8000_0000
  const I32_MAX: int := 0x7FFF_FFFF
  const TWO_TO_32: int := 0x1_0000_0000

  /** `n as i32` for an unsigned `n`: the low 32 bits read as a signed number. */
  function WrapI32(n: nat): (r: int)
    ensures I32_MIN <= r <= I32_MAX
    ensures (r - n) % TWO_TO_32 == 0
    ensures n <= I32_MAX ==> r == n
  {
    var low := n % TWO_TO_32;
    if low > I32_MAX then low - TWO_TO_32 else low
  }

  /** `a.saturating_sub(b)` on `usize`. */
  function SaturatingSub(a: nat, b: nat): (r: nat)
    ensures r == a - b || (r == 0 && a < b)
    ensures r <= a
  {
    if a >= b then a - b else 0
  }
}
