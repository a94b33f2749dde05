/**
 * The conversion helpers of `format_python_string`: one function per
 * conversion family that renders a `FinderType` value or fails. Floating
 * point digit output, float parsing, `log10` and the `Display` of a value are
 * not modelled; they are the fields of `Collaborators`, passed in. What the
 * helpers decide themselves (which values are accepted, integer parsing and
 * rendering, radix digits, code points, the precision read from the
 * specifier, the `%g` switch between fixed and scientific form and its
 * trimming) is modelled exactly.
 */
module Conversions {
  import opened Wrappers
  import opened RustText
  import opened RustFloat
  import opened SpecifierScan

  /**
   * The values a `%` argument can hold at this point. `Other` stands for the
   * remaining variants of the finder's value type, which every helper except
   * `%s` rejects; `id` tells them apart for `Display`.
   */
  datatype FinderType =
    | Int(text: string)
    | Float(f: F64)
    | Bool(b: bool)
    | Str(s: string)
    | Other(id: nat)

  /** Everything the helpers use but do not define. */
  datatype Collaborators = Collaborators(
    /** Unicode properties used by the scan and by `extract_precision`. */
    unicode: UnicodeTables,
    /** `value.to_string()` through `Display` (`%s`). */
    display: FinderType -> string,
    /** `s.parse::<f64>().ok()`. */
    parseF64: string -> Option<F64>,
    /** `x.log10().floor()` for a non-negative `x`. */
    log10Floor: F64 -> F64,
    /** Rounding a finite float toward zero, before an `as` cast saturates it. */
    trunc: F64 -> int,
    /** `format!("{:.prec$}", f)`. */
    fixed: (F64, nat) -> string,
    /** `format!("{:.prec$e}", f)`, or `{:.prec$E}` when the flag is set. */
    scientific: (F64, nat, bool) -> string)

  /** `"1"` for true and `"0"` for false, as every integer helper renders a `Bool`. */
  function BoolDigit(b: bool): (s: string)
    ensures |s| == 1 && ParseI64(s) == Some(if b then 1 else 0)
  {
    if b then "1" else "0"
  }

  // ---------------------------------------------------------------------------
  // %d, %i and %u

  /** `format_value_as_int`. */
  function FormatAsInt(env: Collaborators, value: FinderType): (r: Option<string>)
    ensures r.Some? <==> !value.Other? && (value.Str? ==> ParseI64(value.s).Some?)
    ensures value.Int? ==> r == Some(value.text)
    ensures value.Bool? ==> r == Some(BoolDigit(value.b))
    ensures value.Str? && r.Some? ==> IsCanonicalDecimal(r.value) && ParseI64(r.value) == ParseI64(value.s)
    ensures value.Float? ==>
      IsCanonicalDecimal(r.value) && ParseI64(r.value) == Some(SaturatingCast(env.trunc, value.f, I64_MIN, I64_MAX))
  {
    match value
    case Int(text) => Some(text)
    case Float(f) => Some(CanonicalInteger(SaturatingCast(env.trunc, f, I64_MIN, I64_MAX), true, I64_MIN, I64_MAX))
    case Bool(b) => Some(BoolDigit(b))
    case Str(s) =>
      if ParseI64(s).None? then None
      else Some(CanonicalInteger(ParseI64(s).value, true, I64_MIN, I64_MAX))
    case Other(_) => None
  }

  /** `v.to_string()` for a value of an integer type with range [lo, hi]. */
  function CanonicalInteger(v: int, signed: bool, lo: int, hi: int): (s: string)
    requires lo <= v <= hi && (signed || v >= 0)
    ensures IsCanonicalDecimal(s) && ParseInteger(s, signed, lo, hi) == Some(v)
  {
    DecimalIsCanonical(v);
    ParseDecimalRoundTrip(v, signed, lo, hi);
    Decimal(v)
  }

  /** `format_value_as_unsigned`: as `%d`, but every integer goes through `u64`. */
  function FormatAsUnsigned(env: Collaborators, value: FinderType): (r: Option<string>)
    ensures r.Some? <==> match value
      case Int(text) => ParseU64(text).Some?
      case Str(s) => ParseU64(s).Some?
      case Other(_) => false
      case _ => true
    ensures r.Some? ==> IsCanonicalDecimal(r.value) && ParseU64(r.value).Some?
    ensures value.Int? && r.Some? ==> ParseU64(r.value) == ParseU64(value.text)
    ensures value.Str? && r.Some? ==> ParseU64(r.value) == ParseU64(value.s)
    ensures value.Bool? ==> r == Some(BoolDigit(value.b))
    ensures value.Float? ==> ParseU64(r.value) == Some(SaturatingCast(env.trunc, value.f, 0, U64_MAX))
  {
    match value
    case Int(text) => UnsignedText(text)
    case Float(f) => Some(CanonicalInteger(SaturatingCast(env.trunc, f, 0, U64_MAX), false, 0, U64_MAX))
    case Bool(b) => Some(BoolDigit(b))
    case Str(s) => UnsignedText(s)
    case Other(_) => None
  }

  /** `s.parse::<u64>().ok().map(|i| i.to_string())`. */
  function UnsignedText(s: string): (r: Option<string>)
    ensures r.Some? <==> ParseU64(s).Some?
    ensures r.Some? ==> IsCanonicalDecimal(r.value) && ParseU64(r.value) == ParseU64(s)
  {
    match ParseU64(s)
    case None => None
    case Some(v) => Some(CanonicalInteger(v, false, 0, U64_MAX))
  }

  // ---------------------------------------------------------------------------
  // %b, %o, %x, %X and %p

  /** `format!("{:b}")`, `{:o}`, `{:x}` or `{:X}` of an `i64`: the digits of its two's complement. */
  function RadixOfI64(v: int, base: nat, upper: bool): (s: string)
    requires I64_MIN <= v <= I64_MAX && 2 <= base <= 16
    ensures DigitsValue(s, base) == TwosComplement64(v)
    ensures DigitsValue(s, base) == if v < 0 then v + TWO_TO_64 else v
    ensures |s| > 0 && forall i :: 0 <= i < |s| ==> IsRadixDigit(s[i], base, upper)
    ensures |s| > 1 ==> s[0] != '0'
  {
    DigitsRoundTrip(TwosComplement64(v), base, upper);
    Digits(TwosComplement64(v), base, upper)
  }

  /**
   * `format_value_as_binary`, `format_value_as_octal` and `format_value_as_hex`,
   * which differ only in the base and the letter case: an `Int` must parse as
   * `i64`, a `Float` is cast to `i64`, a `Bool` is `1` or `0`, anything else fails.
   */
  function FormatInRadix(env: Collaborators, value: FinderType, base: nat, upper: bool): (r: Option<string>)
    requires base == 2 || base == 8 || base == 16
    ensures r.Some? <==> (value.Int? && ParseI64(value.text).Some?) || value.Float? || value.Bool?
    ensures r.Some? ==> forall i :: 0 <= i < |r.value| ==> IsRadixDigit(r.value[i], base, upper)
    ensures r.Some? ==> |r.value| > 0 && (|r.value| > 1 ==> r.value[0] != '0')
    ensures value.Int? && r.Some? ==> DigitsValue(r.value, base) == TwosComplement64(ParseI64(value.text).value)
    ensures value.Float? ==>
      DigitsValue(r.value, base) == TwosComplement64(SaturatingCast(env.trunc, value.f, I64_MIN, I64_MAX))
    ensures value.Bool? ==> r == Some(BoolDigit(value.b))
  {
    match value
    case Int(text) =>
      if ParseI64(text).None? then None
      else Some(RadixOfI64(ParseI64(text).value, base, upper))
    case Float(f) => Some(RadixOfI64(SaturatingCast(env.trunc, f, I64_MIN, I64_MAX), base, upper))
    case Bool(b) =>
      assert IsRadixDigit(BoolDigit(b)[0], base, upper);
      Some(BoolDigit(b))
    case _ => None
  }

  /** `format_value_as_pointer`: `0x` and the lower-case hex digits of a `usize`. */
  function FormatAsPointer(env: Collaborators, value: FinderType): (r: Option<string>)
    ensures r.Some? <==> (value.Int? && ParseUsize(value.text).Some?) || value.Float?
    ensures r.Some? ==> |r.value| > 2 && r.value[..2] == "0x"
    ensures r.Some? ==> forall i :: 2 <= i < |r.value| ==> IsRadixDigit(r.value[i], 16, false)
    ensures r.Some? ==> (|r.value| > 3 ==> r.value[2] != '0')
    ensures value.Int? && r.Some? ==> DigitsValue(r.value[2..], 16) == ParseUsize(value.text).value
    ensures value.Float? ==> DigitsValue(r.value[2..], 16) == SaturatingCast(env.trunc, value.f, 0, USIZE_MAX)
  {
    match value
    case Int(text) =>
      if ParseUsize(text).None? then None
      else Some(HexPointer(ParseUsize(text).value))
    case Float(f) => Some(HexPointer(SaturatingCast(env.trunc, f, 0, USIZE_MAX)))
    case _ => None
  }

  /** `format!("0x{n:x}")`. */
  function HexPointer(n: nat): (s: string)
    ensures |s| > 2 && s[..2] == "0x"
    ensures forall i :: 2 <= i < |s| ==> IsRadixDigit(s[i], 16, false)
    ensures DigitsValue(s[2..], 16) == n
    ensures |s| > 3 ==> s[2] != '0'
  {
    var digits := Digits(n, 16, false);
    DigitsRoundTrip(n, 16, false);
    assert ("0x" + digits)[2..] == digits;
    "0x" + digits
  }

  // ---------------------------------------------------------------------------
  // %c

  /**
   * `format_value_as_char`: an `Int` must parse as `u32` and be a Unicode
   * scalar value; a `Str` is passed through when it is one *byte* long, so
   * only a single ASCII character gets through.
   */
  function FormatAsChar(value: FinderType): (r: Option<string>)
    ensures r.Some? <==> match value
      case Int(text) => ParseU32(text).Some? && IsScalarValue(ParseU32(text).value)
      case Str(s) => |s| == 1 && IsAscii(s[0])
      case _ => false
    ensures value.Int? && r.Some? ==> |r.value| == 1 && r.value[0] as int == ParseU32(value.text).value
    ensures value.Str? && r.Some? ==> r.value == value.s
  {
    match value
    case Int(text) =>
      if ParseU32(text).None? then None
      else
        var ch := CharFromU32(ParseU32(text).value);
        if ch.None? then None else Some([ch.value])
    case Str(s) =>
      Utf8LengthOne(s);
      if Utf8Length(s) == 1 then Some(s) else None
    case _ => None
  }

  // ---------------------------------------------------------------------------
  // Precision and the float conversions

  /**
   * `extract_precision`: the text between the first `.` anywhere in the
   * specifier and the first alphabetic character after it, parsed as `usize`.
   */
  function ExtractPrecision(u: UnicodeTables, spec: string): (r: Option<nat>)
    ensures r.Some? ==> '.' in spec && r.value <= USIZE_MAX
  {
    match IndexOf(spec, '.')
    case None => None
    case Some(dot) => CountBeforeLetter(u, spec[dot + 1..])
  }

  /** The text before the first alphabetic character of `s`, parsed as `usize`; None without such a character. */
  function CountBeforeLetter(u: UnicodeTables, s: string): (r: Option<nat>)
    ensures r.Some? ==> r.value <= USIZE_MAX
  {
    match FirstAlphabetic(u, s)
    case None => None
    case Some(end) =>
      match ParseUsize(s[..end])
      case None => None
      case Some(n) => Some(n)
  }

  /** The precision the float helpers use: the extracted one, else 6. */
  function Precision(u: UnicodeTables, spec: string): nat {
    ExtractPrecision(u, spec).GetOr(6)
  }

  /** `s.contains(c)`. */
  predicate Contains(s: string, c: char) {
    c in s
  }

  /** The float a value stands for under `%f`, `%e` and `%g`, parsing text with `parse::<f64>`. */
  function AsFloat(env: Collaborators, value: FinderType): (r: Option<F64>)
    ensures r.None? <==> match value
      case Int(text) => env.parseF64(text).None?
      case Str(s) => env.parseF64(s).None?
      case Other(_) => true
      case _ => false
    ensures value.Float? ==> r == Some(value.f)
    ensures value.Bool? ==> r == Some(if value.b then ONE else ZERO)
  {
    match value
    case Float(f) => Some(f)
    case Int(text) => env.parseF64(text)
    case Bool(b) => Some(if b then ONE else ZERO)
    case Str(s) => env.parseF64(s)
    case Other(_) => None
  }

  /** `format_value_as_float`. */
  function FormatAsFloat(env: Collaborators, value: FinderType, spec: string): (r: Option<string>)
    ensures r.Some? <==> AsFloat(env, value).Some?
    ensures r.Some? ==> r.value == env.fixed(AsFloat(env, value).value, Precision(env.unicode, spec))
  {
    match AsFloat(env, value)
    case None => None
    case Some(f) => Some(env.fixed(f, Precision(env.unicode, spec)))
  }

  /** `format_value_as_scientific`: upper case whenever the specifier contains an `E` anywhere. */
  function FormatAsScientific(env: Collaborators, value: FinderType, spec: string): (r: Option<string>)
    ensures r.Some? <==> AsFloat(env, value).Some?
    ensures r.Some? ==>
      r.value == env.scientific(AsFloat(env, value).value, Precision(env.unicode, spec), Contains(spec, 'E'))
  {
    match AsFloat(env, value)
    case None => None
    case Some(f) => Some(env.scientific(f, Precision(env.unicode, spec), Contains(spec, 'E')))
  }

  /** `format_value_as_general`: upper case whenever the specifier contains a `G` anywhere. */
  function FormatAsGeneral(env: Collaborators, value: FinderType, spec: string): (r: Option<string>)
    ensures r.Some? <==> AsFloat(env, value).Some?
    ensures r.Some? ==>
      r.value == FormatGeneralFloat(env, AsFloat(env, value).value, Precision(env.unicode, spec), Contains(spec, 'G'))
  {
    match AsFloat(env, value)
    case None => None
    case Some(f) => Some(FormatGeneralFloat(env, f, Precision(env.unicode, spec), Contains(spec, 'G')))
  }

  // ---------------------------------------------------------------------------
  // %g

  /** The decimal exponent `%g` works with: 0 for a zero, else `floor(log10(|f|))` cast to `i32`. */
  function Exponent(env: Collaborators, f: F64): (e: int)
    ensures I32_MIN <= e <= I32_MAX
    ensures IsZero(f) ==> e == 0
    ensures IsNaN(f) ==> IsNaN(env.log10Floor(Abs(f))) ==> e == 0
  {
    if IsZero(f) then 0 else SaturatingCast(env.trunc, env.log10Floor(Abs(f)), I32_MIN, I32_MAX)
  }

  /** `%g` chooses scientific form when this holds; the precision is cast with `as i32`. */
  predicate UseScientific(exponent: int, precision: nat) {
    exponent < -4 || exponent >= WrapI32(precision)
  }

  /**
   * The number of fraction digits of the fixed form: `precision - 1 - max(exponent, 0)`,
   * saturating, so that the integral digits and the fraction digits add up to the precision.
   */
  function FixedFractionDigits(exponent: int, precision: nat): (d: nat)
    ensures 0 <= exponent < precision ==> exponent + 1 + d == precision
    ensures exponent <= 0 ==> d == SaturatingSub(precision, 1)
    ensures exponent >= precision ==> d == 0
  {
    SaturatingSub(SaturatingSub(precision, 1), if exponent > 0 then exponent else 0)
  }

  /** `s.trim_end_matches(c)`: the longest prefix of `s` that does not end in `c`. */
  function TrimEnd(s: string, c: char): (r: string)
    ensures |r| <= |s| && r == s[..|r|]
    ensures forall i :: |r| <= i < |s| ==> s[i] == c
    ensures |r| > 0 ==> r[|r| - 1] != c
    decreases |s|
  {
    if |s| > 0 && s[|s| - 1] == c then TrimEnd(s[..|s| - 1], c) else s
  }

  /** The trimming of the fixed form: trailing zeros and then the point, but only when there is a point. */
  function TrimFixed(s: string): (r: string)
    ensures '.' !in s ==> r == s
    ensures '.' in s ==> |r| <= |s| && r == s[..|r|]
    ensures '.' in s ==> forall i :: |r| <= i < |s| ==> s[i] == '0' || s[i] == '.'
    ensures '.' in s && |r| > 0 ==> r[|r| - 1] != '.'
  {
    if '.' in s then TrimEnd(TrimEnd(s, '0'), '.') else s
  }

  /** `format_general_float`. */
  function FormatGeneralFloat(env: Collaborators, f: F64, precision: nat, upper: bool): (r: string)
    ensures var e := Exponent(env, f);
      precision <= I32_MAX && (e < -4 || e >= precision) ==> r == env.scientific(f, SaturatingSub(precision, 1), upper)
    ensures var e := Exponent(env, f);
      precision <= I32_MAX && 0 <= e < precision ==> r == TrimFixed(env.fixed(f, precision - 1 - e))
    ensures var e := Exponent(env, f);
      precision <= I32_MAX && -4 <= e < 0 ==> r == TrimFixed(env.fixed(f, SaturatingSub(precision, 1)))
  {
    var exponent := Exponent(env, f);
    if UseScientific(exponent, precision) then
      env.scientific(f, SaturatingSub(precision, 1), upper)
    else
      TrimFixed(env.fixed(f, FixedFractionDigits(exponent, precision)))
  }

  // ---------------------------------------------------------------------------
  // Dispatch on the conversion character

  /**
   * The `match conv` of `format_python_string`: the replacement text for one
   * specifier with conversion `conv` and argument `value`, or None. `%` (from a
   * specifier longer than `%%`) has no arm and fails.
   */
  function Replacement(env: Collaborators, spec: string, conv: char, value: FinderType): (r: Option<string>)
    ensures conv == '%' ==> r.None?
    ensures !IsConversion(conv) && conv != 'F' ==> r.None?
    ensures conv == 's' ==> r == Some(env.display(value))
  {
    match conv
    case 's' => Some(env.display(value))
    case 'd' => FormatAsInt(env, value)
    case 'i' => FormatAsInt(env, value)
    case 'u' => FormatAsUnsigned(env, value)
    case 'b' => FormatInRadix(env, value, 2, false)
    case 'f' => FormatAsFloat(env, value, spec)
    case 'F' => FormatAsFloat(env, value, spec)
    case 'g' => FormatAsGeneral(env, value, spec)
    case 'G' => FormatAsGeneral(env, value, spec)
    case 'e' => FormatAsScientific(env, value, spec)
    case 'E' => FormatAsScientific(env, value, spec)
    case 'o' => FormatInRadix(env, value, 8, false)
    case 'x' => FormatInRadix(env, value, 16, false)
    case 'X' => FormatInRadix(env, value, 16, true)
    case 'c' => FormatAsChar(value)
    case 'p' => FormatAsPointer(env, value)
    case _ => None
  }

  // ---------------------------------------------------------------------------
  // Properties

  function Pow(base: nat, k: nat): (n: nat)
    ensures base >= 1 ==> n >= 1
  {
    if k == 0 then 1 else base * Pow(base, k - 1)
  }

  lemma {:induction false} DigitsValueBelow(s: string, base: nat)
    requires 2 <= base
    requires forall i :: 0 <= i < |s| ==> DigitValue(s[i]) < base
    ensures DigitsValue(s, base) < Pow(base, |s|)
    decreases |s|
  {
    if s != [] {
      var init := s[..|s| - 1];
      assert forall i :: 0 <= i < |init| ==> init[i] == s[i];
      DigitsValueBelow(init, base);
      AppendDigitBound(DigitsValue(init, base), DigitValue(s[|s| - 1]), Pow(base, |init|), base);
      assert DigitsValue(s, base) == DigitsValue(init, base) * base + DigitValue(s[|s| - 1]);
      assert Pow(base, |s|) == base * Pow(base, |init|);
    }
  }

  lemma AppendDigitBound(x: nat, d: nat, p: nat, base: nat)
    requires x < p && d < base
    ensures x * base + d < base * p
  {
    MulMonotone(x + 1, p, base);
    assert (x + 1) * base == x * base + base;
    assert p * base == base * p;
  }

  lemma {:induction false} DigitsValueAtLeast(s: string, base: nat)
    requires 2 <= base && |s| > 0 && DigitValue(s[0]) >= 1
    ensures DigitsValue(s, base) >= Pow(base, |s| - 1)
    decreases |s|
  {
    if |s| > 1 {
      var init := s[..|s| - 1];
      assert init[0] == s[0];
      DigitsValueAtLeast(init, base);
      MulMonotone(Pow(base, |init| - 1), DigitsValue(init, base), base);
    }
  }

  lemma MulMonotone(a: nat, b: nat, c: nat)
    requires a <= b
    ensures a * c <= b * c
  {
  }

  lemma {:induction false} PowMonotone(base: nat, j: nat, k: nat)
    requires 2 <= base && j <= k
    ensures Pow(base, j) <= Pow(base, k)
    decreases k - j
  {
    if j < k {
      PowMonotone(base, j, k - 1);
      MulMonotone(1, base, Pow(base, k - 1));
    }
  }

  lemma PowBounds(base: nat)
    requires base == 2 || base == 8 || base == 16
    ensures Pow(base, NegativeWidth(base) - 1) <= 0x8000_0000_0000_0000
    ensures TWO_TO_64 <= Pow(base, NegativeWidth(base))
  {
    if base == 2 {
      PowOfTwo();
    } else if base == 8 {
      PowOfEight();
    } else {
      PowOfSixteen();
    }
  }

  lemma PowOfTwo()
    ensures Pow(2, 63) == 0x8000_0000_0000_0000 && Pow(2, 64) == TWO_TO_64
  {
    var p8 := Pow(2, 8);
    assert p8 == 0x100;
    PowAdd(2, 8, 8);
    var p16 := Pow(2, 16);
    assert p16 == 0x1_0000;
    PowAdd(2, 16, 16);
    var p32 := Pow(2, 32);
    assert p32 == 0x1_0000_0000;
    PowAdd(2, 32, 32);
  }

  lemma PowOfEight()
    ensures Pow(8, 21) == 0x8000_0000_0000_0000 && Pow(8, 22) == 4 * TWO_TO_64
  {
    var p3, p4 := Pow(8, 3), Pow(8, 4);
    assert p3 == 0x200 && p4 == 0x1000;
    PowAdd(8, 4, 4);
    var p8 := Pow(8, 8);
    assert p8 == 0x100_0000;
    PowAdd(8, 8, 3);
    var p11 := Pow(8, 11);
    assert p11 == 0x2_0000_0000;
    PowAdd(8, 11, 11);
  }

  lemma PowOfSixteen()
    ensures Pow(16, 15) == 0x1000_0000_0000_0000 && Pow(16, 16) == TWO_TO_64
  {
    var p4 := Pow(16, 4);
    assert p4 == 0x1_0000;
    PowAdd(16, 4, 4);
    var p8 := Pow(16, 8);
    assert p8 == 0x1_0000_0000;
    PowAdd(16, 8, 8);
  }

  lemma {:induction false} PowAdd(base: nat, j: nat, k: nat)
    ensures Pow(base, j + k) == Pow(base, j) * Pow(base, k)
    decreases j
  {
    if j > 0 {
      PowAdd(base, j - 1, k);
      assert Pow(base, j + k) == base * Pow(base, j - 1 + k);
    }
  }

  /** The number of digits the radix formatters print for every negative `i64`. */
  function NegativeWidth(base: nat): nat
    requires base == 2 || base == 8 || base == 16
  {
    if base == 2 then 64 else if base == 8 then 22 else 16
  }

  /**
   * A negative `i64` under `%b`, `%o`, `%x` or `%X` is printed as its 64-bit
   * two's complement: always the full width of 64 bits in that base (64
   * binary, 22 octal or 16 hex digits), and never with a minus sign.
   */
  lemma RadixOfNegative(v: int, base: nat, upper: bool)
    requires I64_MIN <= v < 0 && (base == 2 || base == 8 || base == 16)
    ensures |RadixOfI64(v, base, upper)| == NegativeWidth(base)
    ensures forall i :: 0 <= i < |RadixOfI64(v, base, upper)| ==> RadixOfI64(v, base, upper)[i] != '-'
  {
    var s := RadixOfI64(v, base, upper);
    var n := v + TWO_TO_64;
    var w := NegativeWidth(base);
    PowBounds(base);
    assert |s| > 1;
    assert DigitValue(s[0]) >= 1 by {
      assert IsRadixDigit(s[0], base, upper) && s[0] != '0';
    }
    assert forall i :: 0 <= i < |s| ==> DigitValue(s[i]) < base;
    DigitsValueBelow(s, base);
    DigitsValueAtLeast(s, base);
    if |s| > w {
      PowMonotone(base, w, |s| - 1);
    } else if |s| < w {
      PowMonotone(base, |s|, w - 1);
    }
    forall i | 0 <= i < |s| ensures s[i] != '-' {
      assert IsRadixDigit(s[i], base, upper);
    }
  }

  /** `%d` of a NaN prints `0`, the value `as i64` gives it. */
  lemma IntOfNaN(env: Collaborators, f: F64)
    requires IsNaN(f)
    ensures FormatAsInt(env, Float(f)) == Some("0")
  {
  }

  /** A precision written after the first `.` of the specifier and ended by a letter is read back exactly. */
  lemma ExtractPrecisionExact(u: UnicodeTables, head: string, n: nat, tail: string)
    requires '.' !in head && n <= USIZE_MAX
    requires |tail| > 0 && IsAlphabetic(u, tail[0])
    ensures ExtractPrecision(u, head + "." + Decimal(n) + tail) == Some(n)
  {
    var spec := head + "." + Decimal(n) + tail;
    FirstDot(head, Decimal(n) + tail);
    assert spec == head + "." + (Decimal(n) + tail);
    CountBeforeLetterExact(u, n, tail);
  }

  /** The first `.` of `head + "." + rest` is the one after `head` when `head` has none. */
  lemma FirstDot(head: string, rest: string)
    requires '.' !in head
    ensures IndexOf(head + "." + rest, '.') == Some(|head|)
    ensures (head + "." + rest)[|head| + 1..] == rest
  {
    var spec := head + "." + rest;
    assert spec[..|head|] == head;
    IndexOfExact(spec, '.', |head|);
  }

  lemma CountBeforeLetterExact(u: UnicodeTables, n: nat, tail: string)
    requires n <= USIZE_MAX && |tail| > 0 && IsAlphabetic(u, tail[0])
    ensures CountBeforeLetter(u, Decimal(n) + tail) == Some(n)
  {
    var s := Decimal(n) + tail;
    DecimalDigitsAscii(n);
    FirstAlphabeticExact(u, s, |Decimal(n)|);
    assert s[..|Decimal(n)|] == Decimal(n);
    ParseDecimalRoundTrip(n, false, 0, USIZE_MAX);
  }

  /**
   * Only the first `.` counts, even inside a named key: when it is followed
   * directly by a letter, as in `%(a.b)5.3f`, nothing parses and the
   * precision written after the key is ignored.
   */
  lemma DotInKeyHidesPrecision(u: UnicodeTables, head: string, c: char, rest: string)
    requires '.' !in head && IsAlphabetic(u, c)
    ensures ExtractPrecision(u, head + ['.', c] + rest) == None
    ensures Precision(u, head + ['.', c] + rest) == 6
  {
    FirstDot(head, [c] + rest);
    assert head + ['.', c] + rest == head + "." + ([c] + rest);
    FirstAlphabeticExact(u, [c] + rest, 0);
    assert ([c] + rest)[..0] == "";
  }

  /** A specifier without a `.` gets the default precision 6. */
  lemma NoDotDefaultPrecision(u: UnicodeTables, spec: string)
    requires '.' !in spec
    ensures Precision(u, spec) == 6
  {
  }

  /** The upper-case test for `%g` looks at the whole specifier: a `G` in the key makes `%g` behave as `%G`. */
  lemma GeneralUpperCaseFromKey(env: Collaborators, key: string, tail: string, value: FinderType)
    requires 'G' in key
    ensures FormatAsGeneral(env, value, "%(" + key + ")" + tail + "g")
         == FormatAsGeneral(env, value, "%(" + key + ")" + tail + "G")
  {
    var lower := "%(" + key + ")" + tail + "g";
    var upper := "%(" + key + ")" + tail + "G";
    var k :| 0 <= k < |key| && key[k] == 'G';
    assert lower[k + 2] == 'G' && upper[|upper| - 1] == 'G';
    assert lower[..|lower| - 1] == upper[..|upper| - 1];
    PrecisionOfSameStem(env.unicode, lower, upper);
    assert Contains(lower, 'G') && Contains(upper, 'G') by { assert lower[k + 2] in lower; }
  }

  /** The upper-case test for `%e` looks at the whole specifier: an `E` in the key makes `%e` behave as `%E`. */
  lemma ScientificUpperCaseFromKey(env: Collaborators, key: string, tail: string, value: FinderType)
    requires 'E' in key
    ensures FormatAsScientific(env, value, "%(" + key + ")" + tail + "e")
         == FormatAsScientific(env, value, "%(" + key + ")" + tail + "E")
  {
    var lower := "%(" + key + ")" + tail + "e";
    var upper := "%(" + key + ")" + tail + "E";
    var k :| 0 <= k < |key| && key[k] == 'E';
    assert lower[k + 2] == 'E' && upper[|upper| - 1] == 'E';
    assert lower[..|lower| - 1] == upper[..|upper| - 1];
    PrecisionOfSameStem(env.unicode, lower, upper);
    assert Contains(lower, 'E') && Contains(upper, 'E') by { assert lower[k + 2] in lower; }
  }

  /** Two specifiers that differ only in a final letter have the same precision. */
  lemma PrecisionOfSameStem(u: UnicodeTables, a: string, b: string)
    requires |a| == |b| > 0 && a[..|a| - 1] == b[..|b| - 1]
    requires IsAlphabetic(u, a[|a| - 1]) && IsAlphabetic(u, b[|b| - 1])
    ensures Precision(u, a) == Precision(u, b)
  {
    var n := |a| - 1;
    match IndexOf(a, '.')
    case None =>
      assert forall i :: 0 <= i < n ==> b[i] == a[i];
    case Some(d) =>
      assert d < n;
      assert b[..d] == a[..d];
      IndexOfExact(b, '.', d);
      var afterA := a[d + 1..];
      var afterB := b[d + 1..];
      assert |afterA| == |afterB| > 0;
      assert forall i :: 0 <= i < |afterA| - 1 ==> afterA[i] == afterB[i];
      assert IsAlphabetic(u, afterA[|afterA| - 1]);
      var k := FirstAlphabetic(u, afterA).value;
      FirstAlphabeticExact(u, afterB, k);
      assert afterA[..k] == afterB[..k];
  }

  /** For every precision that fits in `i32`, `%g` goes scientific exactly for exponents below -4 or from the precision on. */
  lemma UseScientificExact(exponent: int, precision: nat)
    requires precision <= I32_MAX
    ensures UseScientific(exponent, precision) <==> exponent < -4 || exponent >= precision
  {
  }

  /**
   * `precision as i32` keeps only the low 32 bits, so a precision of 2^32
   * (`%.4294967296g`) acts as precision 0 and every exponent from 0 on goes
   * scientific.
   */
  lemma PrecisionWrapsAt32Bits(exponent: int, precision: nat)
    ensures UseScientific(exponent, precision + TWO_TO_32) == UseScientific(exponent, precision)
    ensures UseScientific(exponent, TWO_TO_32) <==> exponent < -4 || exponent >= 0
  {
    var low := precision % TWO_TO_32;
    assert (precision + TWO_TO_32) % TWO_TO_32 == low;
  }

  /**
   * In the fixed form the digits before the point (exponent + 1 of them for a
   * value of at least 1) and the fraction digits add up to the precision;
   * below 1 the fraction gets precision - 1 digits.
   */
  lemma FixedShowsPrecisionDigits(exponent: int, precision: nat)
    requires precision <= I32_MAX && !UseScientific(exponent, precision)
    ensures exponent >= 0 ==> exponent + 1 + FixedFractionDigits(exponent, precision) == precision
    ensures exponent < 0 ==> -4 <= exponent && FixedFractionDigits(exponent, precision) == SaturatingSub(precision, 1)
  {
  }

  /** A zero has exponent 0, so any precision from 1 to `i32::MAX` gives the fixed form with precision - 1 fraction digits, trimmed. */
  lemma GeneralOfZero(env: Collaborators, f: F64, precision: nat, upper: bool)
    requires IsZero(f) && 1 <= precision <= I32_MAX
    ensures FormatGeneralFloat(env, f, precision, upper) == TrimFixed(env.fixed(f, precision - 1))
  {
  }

  /** A string is cut back to `p` exactly when what follows `p` is all `c` and `p` does not end in `c`. */
  lemma TrimEndExact(p: string, q: string, c: char)
    requires forall i :: 0 <= i < |q| ==> q[i] == c
    requires |p| > 0 ==> p[|p| - 1] != c
    ensures TrimEnd(p + q, c) == p
  {
    var s := p + q;
    assert s[..|p|] == p;
  }

  /** A fixed rendering whose fraction is all zeros loses the fraction and the point. */
  lemma TrimWholeNumber(integral: string, zeros: string)
    requires '.' !in integral
    requires forall i :: 0 <= i < |zeros| ==> zeros[i] == '0'
    ensures TrimFixed(integral + "." + zeros) == integral
  {
    assert integral + "." + zeros == (integral + ".") + zeros;
    assert (integral + ".")[|integral|] == '.';
    TrimEndExact(integral + ".", zeros, '0');
    assert |integral| > 0 ==> integral[|integral| - 1] in integral;
    TrimEndExact(integral, ".", '.');
    assert (integral + ".")[|integral|] in integral + "." + zeros by {
      assert (integral + "." + zeros)[|integral|] == '.';
    }
  }

  /** A fixed rendering whose fraction ends in a non-zero digit is left as it is. */
  lemma TrimKeepsSignificantFraction(integral: string, fraction: string)
    requires |fraction| > 0 && fraction[|fraction| - 1] != '0' && fraction[|fraction| - 1] != '.'
    ensures TrimFixed(integral + "." + fraction) == integral + "." + fraction
  {
    var s := integral + "." + fraction;
    assert s[|integral|] == '.';
    assert s[|s| - 1] == fraction[|fraction| - 1];
    TrimEndExact(s, "", '0');
    assert s + "" == s;
    TrimEndExact(s, "", '.');
  }
  /** A rendering that ends in a significant digit, followed by zeros, is cut back to that digit. */
  lemma TrimToSignificant(p: string, zeros: string, dot: nat)
    requires dot < |p| && p[dot] == '.'
    requires p[|p| - 1] != '0' && p[|p| - 1] != '.'
    requires forall i :: 0 <= i < |zeros| ==> zeros[i] == '0'
    ensures TrimFixed(p + zeros) == p
  {
    assert (p + zeros)[dot] == '.';
    TrimEndExact(p, zeros, '0');
    assert p + "" == p;
    TrimEndExact(p, "", '.');
  }

  /**
   * The trimming of a fixed rendering in general: the trailing zeros of the
   * fraction go, and the point goes with them when no fraction digit is left.
   */
  lemma TrimSplit(integral: string, fraction: string)
    requires '.' !in integral && '.' !in fraction
    ensures var kept := TrimEnd(fraction, '0');
      TrimFixed(integral + "." + fraction) == if kept == [] then integral else integral + "." + kept
  {
    var kept := TrimEnd(fraction, '0');
    var zeros := fraction[|kept|..];
    assert fraction == kept + zeros;
    if kept == [] {
      assert forall i :: 0 <= i < |fraction| ==> fraction[i] == '0';
      TrimWholeNumber(integral, fraction);
    } else {
      TrimKeptFraction(integral, kept, zeros);
    }
  }

  lemma TrimKeptFraction(integral: string, kept: string, zeros: string)
    requires '.' !in kept && |kept| > 0 && kept[|kept| - 1] != '0'
    requires forall i :: 0 <= i < |zeros| ==> zeros[i] == '0'
    ensures TrimFixed(integral + "." + (kept + zeros)) == integral + "." + kept
  {
    var p := integral + "." + kept;
    assert integral + "." + (kept + zeros) == p + zeros;
    assert p[|p| - 1] == kept[|kept| - 1];
    assert kept[|kept| - 1] in kept;
    TrimToSignificant(p, zeros, |integral|);
  }
}
