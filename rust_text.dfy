/**
 * The pieces of Rust's standard library that the `%` emulator leans on for
 * integers and text: `str::parse` for the integer types, `Display` and the
 * `{:b}`/`{:o}`/`{:x}`/`{:X}` radix formatters, UTF-8 byte length,
 * `char::from_u32`, and the character searches `str::find` performs.
 */
module RustText {
  import opened Wrappers

  const I64_MIN: int := -0x8000_0000_0000_0000
  const I64_MAX: int := 0x7FFF_FFFF_FFFF_FFFF
  const U32_MAX: int := 0xFFFF_FFFF
  const U64_MAX: int := 0xFFFF_FFFF_FFFF_FFFF
  /** `usize` on the 64-bit targets the tool is built for. */
  const USIZE_MAX: int := U64_MAX
  const TWO_TO_64: int := 0x1_0000_0000_0000_0000

  /**
   * Unicode character properties whose tables are not reproduced here: the
   * general category Nd (what the regex class `\d` matches beyond `0`-`9`) and
   * the Alphabetic property (`char::is_alphabetic`), each for non-ASCII
   * characters only. For ASCII both are fixed below.
   */
  datatype UnicodeTables = UnicodeTables(
    nonAsciiDecimal: char -> bool,
    nonAsciiAlphabetic: char -> bool)

  predicate IsAscii(c: char) {
    (c as int) < 0x80
  }

  predicate IsAsciiDigit(c: char) {
    '0' <= c <= '9'
  }

  /** The regex class `\d` (Unicode-aware, as in the regex crate's default mode). */
  predicate IsDecimalDigit(u: UnicodeTables, c: char) {
    if IsAscii(c) then IsAsciiDigit(c) else u.nonAsciiDecimal(c)
  }

  /** `char::is_alphabetic`. */
  predicate IsAlphabetic(u: UnicodeTables, c: char) {
    if IsAscii(c) then ('a' <= c <= 'z') || ('A' <= c <= 'Z') else u.nonAsciiAlphabetic(c)
  }

  // ---------------------------------------------------------------------------
  // Digits in a radix

  /** The digit `d` in bases up to 16, with letters in the requested case. */
  function DigitChar(d: nat, upper: bool): (c: char)
    requires d < 16
    ensures IsAscii(c)
  {
    if d < 10 then ('0' as int + d) as char
    else if upper then ('A' as int + d - 10) as char
    else ('a' as int + d - 10) as char
  }

  /** The value of one digit character; letters of either case count from 10. */
  function DigitValue(c: char): nat {
    if '0' <= c <= '9' then c as int - '0' as int
    else if 'a' <= c <= 'f' then c as int - 'a' as int + 10
    else if 'A' <= c <= 'F' then c as int - 'A' as int + 10
    else 0
  }

  /** `c` is a digit of `base` as Rust prints it, in the given letter case. */
  predicate IsRadixDigit(c: char, base: nat, upper: bool) {
    DigitValue(c) < base && DigitValue(c) < 16 && DigitChar(DigitValue(c), upper) == c
  }

  /** The number a digit string denotes in `base`, most significant digit first. */
  function DigitsValue(s: string, base: nat): nat {
    if s == [] then 0 else DigitsValue(s[..|s| - 1], base) * base + DigitValue(s[|s| - 1])
  }

  /** The digits of `n` in `base`, without sign, prefix or leading zeros. */
  function Digits(n: nat, base: nat, upper: bool): (s: string)
    requires 2 <= base <= 16
    ensures |s| > 0
    ensures forall i :: 0 <= i < |s| ==> IsRadixDigit(s[i], base, upper)
    ensures |s| > 1 ==> s[0] != '0'
    decreases n
  {
    DivMod(n, base);
    if n < base then DigitCharValue(n, upper); [DigitChar(n, upper)]
    else
      DigitCharValue(n % base, upper);
      Digits(n / base, base, upper) + [DigitChar(n % base, upper)]
  }

  lemma DivMod(n: nat, base: nat)
    requires 2 <= base
    ensures n % base < base && (n / base) * base + n % base == n
    ensures n >= base ==> 0 < n / base < n
  {
  }

  lemma DigitCharValue(d: nat, upper: bool)
    requires d < 16
    ensures DigitValue(DigitChar(d, upper)) == d
  {
  }

  /** Reading back what `Digits` writes gives the number again. */
  lemma {:induction false} DigitsRoundTrip(n: nat, base: nat, upper: bool)
    requires 2 <= base <= 16
    ensures DigitsValue(Digits(n, base, upper), base) == n
    decreases n
  {
    var s := Digits(n, base, upper);
    if n < base {
      DigitCharValue(n, upper);
      assert s[..0] == [];
    } else {
      DivMod(n, base);
      DigitsRoundTrip(n / base, base, upper);
      DigitCharValue(n % base, upper);
      assert s[..|s| - 1] == Digits(n / base, base, upper);
    }
  }

  /** Rust's radix formatters print a signed 64-bit value as its two's complement bit pattern. */
  function TwosComplement64(v: int): (n: nat)
    requires I64_MIN <= v <= I64_MAX
    ensures n < TWO_TO_64
    ensures n % TWO_TO_64 == v % TWO_TO_64
  {
    if v < 0 then v + TWO_TO_64 else v
  }

  // ---------------------------------------------------------------------------
  // Display of integers

  /** `i.to_string()` for any integer type: decimal digits, a `-` for negatives only. */
  function Decimal(v: int): (s: string)
    ensures |s| > 0
  {
    if v < 0 then "-" + Digits(-v, 10, false) else Digits(v, 10, false)
  }

  /** A decimal string as `Display` prints one: no `+`, no leading zeros, no `-0`. */
  predicate IsCanonicalDecimal(s: string) {
    var digits := if |s| > 0 && s[0] == '-' then s[1..] else s;
    |digits| > 0
    && (forall i :: 0 <= i < |digits| ==> IsAsciiDigit(digits[i]))
    && (|digits| > 1 ==> digits[0] != '0')
    && (|s| > 0 && s[0] == '-' ==> digits != "0")
  }

  lemma DecimalDigitsAscii(n: nat)
    ensures forall i :: 0 <= i < |Digits(n, 10, false)| ==> IsAsciiDigit(Digits(n, 10, false)[i])
  {
    var s := Digits(n, 10, false);
    forall i | 0 <= i < |s| ensures IsAsciiDigit(s[i]) {
      var d: nat :| d < 10 && d < 16 && DigitChar(d, false) == s[i];
    }
  }

  lemma {:induction false} DigitsZero(n: nat, base: nat, upper: bool)
    requires 2 <= base <= 16
    ensures Digits(n, base, upper) == [DigitChar(0, upper)] <==> n == 0
  {
    if n >= base {
      assert |Digits(n, base, upper)| > 1 by {
        assert |Digits(n / base, base, upper)| > 0;
      }
    } else if n != 0 {
      assert DigitValue(DigitChar(n, upper)) == n by { DigitCharValue(n, upper); }
      assert DigitValue(DigitChar(0, upper)) == 0 by { DigitCharValue(0, upper); }
    }
  }

  lemma DecimalIsCanonical(v: int)
    ensures IsCanonicalDecimal(Decimal(v))
  {
    var n := if v < 0 then -v else v;
    var d := Digits(n, 10, false);
    DecimalDigitsAscii(n);
    DigitsZero(n, 10, false);
    if v < 0 {
      assert Decimal(v)[1..] == d;
      assert d != "0";
    } else {
      assert d[0] != '-' by { assert IsAsciiDigit(d[0]); }
    }
  }

  // ---------------------------------------------------------------------------
  // str::parse for the integer types

  predicate AllAsciiDigits(s: string) {
    forall i :: 0 <= i < |s| ==> IsAsciiDigit(s[i])
  }

  /**
   * `s.parse::<T>()` for an integer type T with range [lo, hi]: one optional
   * sign (`-` only when T is signed), then ASCII digits, at least one, and the
   * value in range. A lone sign, an empty string, any other character and an
   * overflow all fail.
   */
  function ParseInteger(s: string, signed: bool, lo: int, hi: int): (r: Option<int>)
    ensures r.Some? ==> lo <= r.value <= hi
    ensures r.Some? ==> |s| > 0
    ensures !signed && |s| > 0 && s[0] == '-' ==> r.None?
  {
    if |s| == 0 then None
    else if (s[0] == '+' || s[0] == '-') && |s| == 1 then None
    else
      var negative := signed && s[0] == '-';
      var digits := if s[0] == '+' || negative then s[1..] else s;
      if !AllAsciiDigits(digits) then None
      else
        var magnitude: int := DigitsValue(digits, 10);
        var v := if negative then -magnitude else magnitude;
        if lo <= v <= hi then Some(v) else None
  }

  function ParseI64(s: string): Option<int> { ParseInteger(s, true, I64_MIN, I64_MAX) }
  function ParseU64(s: string): Option<int> { ParseInteger(s, false, 0, U64_MAX) }
  function ParseU32(s: string): Option<int> { ParseInteger(s, false, 0, U32_MAX) }
  function ParseUsize(s: string): Option<int> { ParseInteger(s, false, 0, USIZE_MAX) }

  /** Parsing what `Display` prints gives the number back, for every type holding it. */
  lemma ParseDecimalRoundTrip(v: int, signed: bool, lo: int, hi: int)
    requires lo <= v <= hi
    requires signed || v >= 0
    ensures ParseInteger(Decimal(v), signed, lo, hi) == Some(v)
  {
    var n := if v < 0 then -v else v;
    var d := Digits(n, 10, false);
    DecimalDigitsAscii(n);
    DigitsRoundTrip(n, 10, false);
    if v < 0 {
      assert Decimal(v)[1..] == d;
    } else {
      assert IsAsciiDigit(d[0]);
    }
  }

  // ---------------------------------------------------------------------------
  // Characters and UTF-8

  /** The number of bytes UTF-8 uses for `c`. */
  function Utf8Width(c: char): (w: nat)
    ensures 1 <= w <= 4
    ensures w == 1 <==> IsAscii(c)
  {
    if (c as int) < 0x80 then 1
    else if (c as int) < 0x800 then 2
    else if (c as int) < 0x1_0000 then 3
    else 4
  }

  /** `str::len`: the length of a string in UTF-8 bytes. */
  function Utf8Length(s: string): (n: nat)
    ensures n >= |s|
  {
    if s == [] then 0 else Utf8Width(s[0]) + Utf8Length(s[1..])
  }

  /** A string is one byte long exactly when it is one ASCII character. */
  lemma Utf8LengthOne(s: string)
    ensures Utf8Length(s) == 1 <==> |s| == 1 && IsAscii(s[0])
  {
    if |s| == 1 {
      assert s[1..] == [];
    }
  }

  /** A code point Rust's `char` can hold. */
  predicate IsScalarValue(code: int) {
    (0 <= code < 0xD800) || (0xE000 <= code <= 0x10FFFF)
  }

  /** `char::from_u32`. */
  function CharFromU32(code: int): (r: Option<char>)
    ensures r.Some? <==> IsScalarValue(code)
    ensures r.Some? ==> r.value as int == code
  {
    if IsScalarValue(code) then Some(code as char) else None
  }

  // ---------------------------------------------------------------------------
  // Searching text

  /** `s.find(c)`: the first index holding `c`. */
  function IndexOf(s: string, c: char): (r: Option<nat>)
    ensures r.Some? ==> r.value < |s| && s[r.value] == c && c !in s[..r.value]
    ensures r.None? ==> c !in s
  {
    if s == [] then None
    else if s[0] == c then Some(0)
    else match IndexOf(s[1..], c)
      case None => None
      case Some(i) => Some(i + 1)
  }

  /** `s.find(|c| c.is_alphabetic())`: the first index holding an alphabetic character. */
  function FirstAlphabetic(u: UnicodeTables, s: string): (r: Option<nat>)
    ensures r.Some? ==> r.value < |s| && IsAlphabetic(u, s[r.value])
    ensures r.Some? ==> forall i :: 0 <= i < r.value ==> !IsAlphabetic(u, s[i])
    ensures r.None? ==> forall i :: 0 <= i < |s| ==> !IsAlphabetic(u, s[i])
  {
    if s == [] then None
    else if IsAlphabetic(u, s[0]) then Some(0)
    else match FirstAlphabetic(u, s[1..])
      case None => None
      case Some(i) => Some(i + 1)
  }

  lemma IndexOfExact(s: string, c: char, k: nat)
    requires k < |s| && s[k] == c && c !in s[..k]
    ensures IndexOf(s, c) == Some(k)
  {
  }

  lemma FirstAlphabeticExact(u: UnicodeTables, s: string, k: nat)
    requires k < |s| && IsAlphabetic(u, s[k])
    requires forall i :: 0 <= i < k ==> !IsAlphabetic(u, s[i])
    ensures FirstAlphabetic(u, s) == Some(k)
  {
  }
}
