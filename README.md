# Python `%` formatting in the finder

The finder reads Python source and follows the strings that reach database
calls. When a query is built with the `%` operator, as in
`"select * from %s where id = %d" % ("users", 123)`, it evaluates the
expression with `format_python_string` (`crates/finder/src/format.rs`). That
function is a small emulator of Python's printf-style formatting. It finds the
conversion specifiers with one regular expression. It walks the matches from
last to first and replaces each one in place. The replacement of a match is
`%` for `%%`. A named specifier `%(key)c` takes the value of the first keyword
argument called `key`. Any other specifier takes the next positional argument,
counted from the end of the argument list. The conversion character then
selects a helper that renders the value or fails. The whole result is `None`
as soon as one specifier fails.

This project models that function and its helpers in Dafny:

- `SpecifierScan` is a recogniser for the regular expression.
  - `MatchAt` gives the end of the match at a position.
  - `Scan` gives the leftmost-first, non-overlapping matches that
    `find_iter` reports.
  - `SpecifierIn` states the grammar of the expression as a relation.
  - These are proved equal: every match is in the grammar, and no match of
    the grammar is skipped.
- `Conversions` holds one function per conversion family and
  `extract_precision`. It also holds the integer side of
  `format_general_float`: the exponent, the switch to scientific form with
  its `as i32` cast, the saturating precision arithmetic and the trimming of
  zeros.
- `PythonFormat` holds the entry point and the loop.
  - It states the result as a function, `PercentFormat`.
  - `FormatPythonString` and `ReplaceMatches` are imperative methods that
    follow the source's reverse, in-place loop. They are proved to compute
    `PercentFormat`.
- `FormatProperties` proves what the function does for the query finder:
  - text outside the specifiers is kept;
  - positional arguments are used left to right;
  - surplus leading arguments are ignored;
  - a missing key, too few arguments or a bad conversion fails the whole
    result;
  - the first of several equal keys wins.
- `Examples` works four feature tests of the finder through the model. It
  also shows the quirks of the source on concrete inputs:
  - `%F` is not a specifier;
  - a `.` in a key hides the real precision;
  - `%c` of a string counts UTF-8 bytes;
  - negative hex prints as 64-bit two's complement;
  - `%5%` fails.

The templates of the feature tests are in `FeatureTexts`. Each is written as
the concatenation of its literal pieces. The result is the same string as the
test's literal.

The parts the source takes from outside are passed in as fields of
`Conversions.Collaborators`:

- `Display` of a value;
- `parse::<f64>`;
- `log10().floor()`;
- rounding toward zero;
- the fixed and scientific digit renderers;
- the Unicode tables (`RustText.UnicodeTables`) for non-ASCII characters:
  - the decimal-digit class Nd, which the regex's `\d` matches;
  - the Alphabetic property of `char::is_alphabetic`.

Everything the source decides on its own is modelled. This includes:

- which values each helper accepts;
- integer parsing with Rust's rules: one sign, ASCII digits and the range of
  the target type;
- saturating `as` casts from `f64`, with NaN giving 0;
- radix digits of the two's complement;
- `char::from_u32`;
- the UTF-8 length of a string.

## Model

| member | source | states |
|---|---|---|
| PythonFormat.FormatPythonString | crates/finder/src/format.rs:12-72 | The result is `PercentFormat` of the template and arguments: each `find_iter` match is replaced by its substitution, or the result is None. |
| PythonFormat.ReplaceMatches | crates/finder/src/format.rs:24-69 | The reverse loop over the matches, replacing each in place, leaves exactly `Render` of the template. `Render` is None when some match fails, else the template with every match replaced. |
| PythonFormat.ReplaceOne | crates/finder/src/format.rs:25-66 | The replacement of one specifier is `%` for `%%`. Otherwise it is the argument (named or the index-th from the end) converted by the last character, or None. |
| PythonFormat.Lookup | crates/finder/src/format.rs:39 | Finds a value only when some keyword entry has that key and value. It is None exactly when no entry has the key. |
| PythonFormat.NamedKey | crates/finder/src/format.rs:34-35 | The key holds no `)`, and the specifier starts with `%(` key `)`. |
| PythonFormat.AllPresent | crates/finder/src/format.rs:68 | Some exactly when every substitution is present; its values are those substitutions, in order. |
| PythonFormat.SpliceStep | crates/finder/src/format.rs:68 | Replacing the range of match k in the partly rewritten string adds that replacement in front of the matches already done and keeps the text before it. |
| PythonFormat.RenderFails | crates/finder/src/format.rs:68 | One failing substitution makes the whole result None. |
| PythonFormat.RenderSucceeds | crates/finder/src/format.rs:71 | The unfolding of `Render` that `ReplaceMatches` uses after its last step: once every substitution is present, the result is the splice of all of them. |
| PythonFormat.Argument | crates/finder/src/format.rs:32-50 | The value a specifier takes. A named one takes the first keyword argument with its key (`Lookup`, `MissingKeyFails`, `FirstKeywordWins`). A positional one takes `args[len - 1 - index]`, or None when the arguments run out (`PositionalFromLeft`, `PositionalInOrder`, `TooFewArguments`). |
| PythonFormat.SpecSubstitution | crates/finder/src/format.rs:25-66 | The replacement of one specifier: `%` for `%%`, else the argument converted by the last character. `ReplaceOne` is proved to compute it, and `PercentConversionFails` and `MissingKeyFails` give its failures. |
| PythonFormat.Splice | crates/finder/src/format.rs:68 | The combined effect of the `replace_range` calls: the text between the matches, with each match replaced in order. `SpliceStep` relates it to one call, and `SpliceOwnText` and `SpliceKeepsSuffix` say what it keeps. |
| PythonFormat.PositionalCount | crates/finder/src/format.rs:43-47 | The `value_index` counter: the number of positional specifiers from a match on. `ReplaceMatches` keeps it as a loop invariant, and `PositionalSplit` and `PositionalFromLeft` relate it to the argument each specifier takes. |
| PythonFormat.Render | crates/finder/src/format.rs:24-71 | The template with each match replaced by its substitution, or None. `ReplaceMatches` is proved to compute it. `RenderSomeIff`, `RenderKeepsEnds`, `SpliceOwnText` and the positional lemmas state what it keeps and when it fails. |
| PythonFormat.PercentFormat | crates/finder/src/format.rs:12-72 | `Render` over the `find_iter` matches of the whole template. `FormatPythonString` is proved to compute it, and `NoSpecifierUnchanged` and the examples pin it on concrete templates. |
| SpecifierScan.MatchAt | crates/finder/src/format.rs:17-19 | A match starts at a `%`, lies inside the text and ends in a conversion character of `[sdifgGeEoxXcubp%]`. |
| SpecifierScan.Scan | crates/finder/src/format.rs:22 | The spans are the leftmost-first, non-overlapping matches from the given position on. |
| SpecifierScan.FindIterPlaced | crates/finder/src/format.rs:22 | The matches lie in order, without overlap, inside the text, each from a `%` to a conversion character. |
| SpecifierScan.MatchAtSound | crates/finder/src/format.rs:18 | Every end the recogniser reports is a match of the expression's grammar. |
| SpecifierScan.MatchAtComplete | crates/finder/src/format.rs:18 | Every match of the grammar is found by the recogniser, so the end of a match at a position is unique. |
| SpecifierScan.FindIterSound | crates/finder/src/format.rs:22 | Every span `find_iter` reports is a grammar match. |
| SpecifierScan.FindIterCovers | crates/finder/src/format.rs:22 | Every grammar match starts inside a reported span: none is skipped. |
| SpecifierScan.ScanMatchesGrammar | crates/finder/src/format.rs:17-22 | The matches of the whole template are grammar matches, and they cover every grammar match. |
| FormatProperties.FindIterUnique | crates/finder/src/format.rs:22 | Two match lists over the same text from the same position are equal. |
| FormatProperties.NoPercentNoMatches | crates/finder/src/format.rs:18 | A text without `%` has no match. |
| FormatProperties.NoMatchEndsInF | crates/finder/src/format.rs:18 | No match ends in `F`, so the `'F'` arm of the conversion match is never reached. |
| FormatProperties.ScannedNamedHasKey | crates/finder/src/format.rs:32-35 | A scanned match that starts with `%(` always has a `)`, so the `find(')')?` never fails. |
| FormatProperties.NoSpecifierUnchanged | crates/finder/src/format.rs:20-24 | A template in which the scan finds no specifier comes back unchanged for any arguments. This includes texts such as `100%`, `5% off` and `%F`. |
| FormatProperties.TextWithoutPercent | crates/finder/src/format.rs:18-24 | A template without `%` comes back unchanged for any arguments: a corollary of the above. |
| FormatProperties.SpliceOwnText | crates/finder/src/format.rs:68 | Replacing each match by its own text gives back the template: only the matched ranges change. |
| FormatProperties.SpliceKeepsSuffix | crates/finder/src/format.rs:68 | The text after the last match ends the result. |
| FormatProperties.RenderKeepsEnds | crates/finder/src/format.rs:68 | A successful result starts with the text before the first match and ends with the text after the last. |
| FormatProperties.RenderSomeIff | crates/finder/src/format.rs:68 | The result is present exactly when every substitution is. |
| FormatProperties.PercentConversionFails | crates/finder/src/format.rs:52-65 | A match ending in `%` other than `%%` (such as `%5%`) has no arm, so the whole result is None. |
| FormatProperties.MissingKeyFails | crates/finder/src/format.rs:39 | A named specifier whose key is in no keyword argument makes the whole result None. |
| FormatProperties.FirstKeywordWins | crates/finder/src/format.rs:39 | Of several keyword entries with the same key, the first is used. |
| FormatProperties.PositionalSplit | crates/finder/src/format.rs:41-47 | The positional specifiers before and after a point add up to all of them. |
| FormatProperties.PositionalFromLeft | crates/finder/src/format.rs:43-47 | With P positional specifiers and at least P arguments, the positional specifier with b of them to its left takes `args[len - P + b]`: the last P arguments, used from the left. |
| FormatProperties.PositionalInOrder | crates/finder/src/format.rs:46 | With as many arguments as positional specifiers, the p-th positional specifier from the left takes argument p, as in Python. |
| FormatProperties.SurplusArgumentsIgnored | crates/finder/src/format.rs:46 | Arguments in front of those the specifiers use do not change the result. |
| FormatProperties.SameArgument | crates/finder/src/format.rs:46 | The argument a specifier takes does not depend on unused leading arguments. |
| FormatProperties.NoPositionalIgnoresArgs | crates/finder/src/format.rs:32-40 | A template with only named specifiers and `%%` gives the same result for any positional arguments. |
| FormatProperties.TooFewArguments | crates/finder/src/format.rs:43-45 | More positional specifiers than arguments make the whole result None. |
| Conversions.FormatAsInt | crates/finder/src/format.rs:179-187 | `Int` text is kept and `Bool` is `1`/`0`. A `Str` must parse as `i64` and is printed canonically with the same value. A `Float` prints canonically the saturating `i64` cast of the value. Anything else fails. |
| Conversions.CanonicalInteger | crates/finder/src/format.rs:184 | `to_string` of an integer is canonical decimal and parses back to the same value. |
| Conversions.FormatAsUnsigned | crates/finder/src/format.rs:74-82 | `Int` and `Str` succeed exactly when they parse as `u64`, with the same value printed canonically. A `Float` prints the saturating `u64` cast of the value. `Bool` is `1`/`0`, and `Other` fails. |
| Conversions.UnsignedText | crates/finder/src/format.rs:76 | Some exactly when the text parses as `u64`; then it is the canonical decimal of that value. |
| Conversions.RadixOfI64 | crates/finder/src/format.rs:86 | The radix digits of an `i64` have the value of its 64-bit two's complement: v + 2^64 for a negative v. There are no leading zeros and no sign. |
| Conversions.FormatInRadix | crates/finder/src/format.rs:84-91 | `%b` in base 2, and `%o`, `%x`, `%X` in bases 8 and 16. Succeeds exactly for an `Int` parsing as `i64`, a `Float` or a `Bool`. The digits are radix digits with no leading zero. Their value is the two's complement of the parsed `i64`, or of the saturating `i64` cast of a `Float`. |
| Conversions.RadixOfNegative | crates/finder/src/format.rs:200-206 | A negative value prints as 64, 22 or 16 digits in bases 2, 8 and 16, never with a `-`. |
| Conversions.FormatAsPointer | crates/finder/src/format.rs:163-169 | Succeeds exactly for an `Int` parsing as `usize` or a `Float`. The result is `0x` and lower-case hex digits with no leading zero. Their value is the parsed integer, or the saturating `usize` cast of the `Float`. |
| Conversions.HexPointer | crates/finder/src/format.rs:165 | `0x` followed by lower-case hex digits, without a leading zero, whose value is the number. |
| Conversions.FormatAsChar | crates/finder/src/format.rs:254-273 | An `Int` succeeds exactly when it parses as `u32` and is a Unicode scalar value, giving that character. A `Str` is passed through exactly when it is one ASCII character (one UTF-8 byte). |
| Conversions.ExtractPrecision | crates/finder/src/format.rs:171-178 | A precision is found only when the specifier contains a `.`, and it fits in `usize`. |
| Conversions.Precision | crates/finder/src/format.rs:149 | `extract_precision(..).unwrap_or(6)`, shared by the float helpers at lines 94, 149 and 217. `ExtractPrecisionExact` reads a written precision back. `NoDotDefaultPrecision` and `DotInKeyHidesPrecision` give the default 6, and `PrecisionOfSameStem` shows it ignores the final letter. |
| Conversions.ExtractPrecisionExact | crates/finder/src/format.rs:171-178 | The number written after the first `.` and ended by a letter is read back exactly. |
| Conversions.DotInKeyHidesPrecision | crates/finder/src/format.rs:172-176 | A first `.` followed by a letter gives no precision, so the default 6 is used. |
| Conversions.NoDotDefaultPrecision | crates/finder/src/format.rs:149 | A specifier without `.` gets precision 6. |
| Conversions.AsFloat | crates/finder/src/format.rs:150-158 | `Float` is itself, `Bool` is 1.0/0.0, `Int` and `Str` go through `parse::<f64>`, `Other` fails. |
| Conversions.FormatAsFloat | crates/finder/src/format.rs:148-161 | Present exactly when the value is a float; then the fixed rendering at the extracted precision or 6. |
| Conversions.FormatAsScientific | crates/finder/src/format.rs:216-252 | Present exactly when the value is a float. It is then the scientific rendering at the extracted precision, upper case when the specifier contains `E` anywhere. |
| Conversions.ScientificUpperCaseFromKey | crates/finder/src/format.rs:218 | An `E` in the key makes `%e` print as `%E`. |
| Conversions.FormatAsGeneral | crates/finder/src/format.rs:93-113 | Present exactly when the value is a float. It is then `format_general_float` at the extracted precision, upper case when the specifier contains `G` anywhere. |
| Conversions.GeneralUpperCaseFromKey | crates/finder/src/format.rs:95 | A `G` in the key makes `%g` print as `%G`. |
| Conversions.PrecisionOfSameStem | crates/finder/src/format.rs:171-178 | Specifiers that differ only in their final letter get the same precision. |
| Conversions.FormatGeneralFloat | crates/finder/src/format.rs:114-146 | For a precision within `i32`, the result is scientific at precision - 1 digits when the exponent is below -4 or at least the precision. Otherwise it is the trimmed fixed form with precision - 1 - exponent fraction digits, or precision - 1 for a negative exponent. |
| Conversions.UseScientific | crates/finder/src/format.rs:122 | The switch to scientific form, with the precision cast by `as i32`. `UseScientificExact` gives it for precisions within `i32`, and `PrecisionWrapsAt32Bits` gives the wrap above. |
| Conversions.FixedFractionDigits | crates/finder/src/format.rs:129-135 | The fraction digits of the fixed form. With an exponent from 0 to below the precision, integral digits plus fraction digits make the precision. An exponent at most 0 gives precision - 1, saturating. An exponent at least the precision gives 0. |
| Conversions.TrimFixed | crates/finder/src/format.rs:137-144 | Text without a `.` is kept. Otherwise the result is a prefix not ending in `.`, and only `0` and `.` are cut. `TrimSplit` gives exactly what is cut. |
| Conversions.Exponent | crates/finder/src/format.rs:115-120 | The exponent fits `i32`, is 0 for a zero, and is 0 for a NaN whose logarithm is NaN. |
| Conversions.UseScientificExact | crates/finder/src/format.rs:122 | For a precision within `i32`, scientific form is chosen exactly when the exponent is below -4 or at least the precision. |
| Conversions.PrecisionWrapsAt32Bits | crates/finder/src/format.rs:122 | `precision as i32` wraps: precisions 2^32 apart decide alike, and 2^32 behaves as 0. |
| Conversions.FixedShowsPrecisionDigits | crates/finder/src/format.rs:129-135 | In fixed form, a non-negative exponent leaves integral digits plus fraction digits equal to the precision. A negative one keeps precision - 1 fraction digits. |
| Conversions.GeneralOfZero | crates/finder/src/format.rs:116-117 | A zero at precision 1 to `i32::MAX` prints in trimmed fixed form with precision - 1 fraction digits. |
| Conversions.TrimSplit | crates/finder/src/format.rs:137-144 | For any fixed rendering `integral.fraction`, the trailing zeros of the fraction are cut. The point goes too when no fraction digit is left. |
| Conversions.TrimEnd | crates/finder/src/format.rs:139-140 | The result is a prefix, everything cut is the character, and the result does not end in it. |
| Conversions.TrimEndExact | crates/finder/src/format.rs:139-140 | Cutting a run of the character after a prefix that does not end in it gives exactly that prefix. |
| Conversions.TrimWholeNumber | crates/finder/src/format.rs:137-141 | A fixed rendering whose fraction is all zeros loses the zeros and the point. |
| Conversions.TrimKeepsSignificantFraction | crates/finder/src/format.rs:137-144 | A fixed rendering whose fraction ends in a non-zero digit is unchanged. |
| Conversions.IntOfNaN | crates/finder/src/format.rs:182 | `%d` of a NaN prints `0`. |
| Conversions.BoolDigit | crates/finder/src/format.rs:183 | A boolean prints as one digit that parses as 1 or 0. |
| Conversions.Replacement | crates/finder/src/format.rs:52-66 | `%s` is the value's `Display`. A `%` conversion and any character outside the set fail. |
| RustText.ParseInteger | crates/finder/src/format.rs:184 | A parsed integer is in the target type's range and comes from a non-empty text; an unsigned type refuses a `-`. |
| RustText.ParseDecimalRoundTrip | crates/finder/src/format.rs:184 | Parsing the decimal `to_string` of a value gives the value back. |
| RustText.DigitsRoundTrip | crates/finder/src/format.rs:86 | Reading back the radix digits of a number gives the number. |
| RustText.TwosComplement64 | crates/finder/src/format.rs:86 | The bit pattern is below 2^64 and congruent to the value mod 2^64. |
| RustText.DecimalIsCanonical | crates/finder/src/format.rs:184 | `to_string` of an integer has no `+`, no leading zero and no `-0`. |
| RustText.Utf8Length | crates/finder/src/format.rs:265 | The UTF-8 length is at least the number of characters. |
| RustText.Utf8LengthOne | crates/finder/src/format.rs:265 | A string is one byte long exactly when it is one ASCII character. |
| RustText.CharFromU32 | crates/finder/src/format.rs:258 | Some exactly for a Unicode scalar value, and then the character with that code. |
| RustText.FirstAlphabetic | crates/finder/src/format.rs:175 | The first index holding an alphabetic character, with none before it, or None when there is none. |
| RustText.Digits | crates/finder/src/format.rs:86 | The `{:b}`/`{:o}`/`{:x}`/`{:X}` digits of a natural number: non-empty, radix digits only, no leading zero. `DigitsRoundTrip` reads back the number. |
| RustText.Decimal | crates/finder/src/format.rs:184 | `to_string` of an integer: non-empty. `DecimalIsCanonical` makes it canonical, and `ParseDecimalRoundTrip` parses it back in every integer type that holds the value. |
| RustText.IndexOf | crates/finder/src/format.rs:34 | The first index holding the character, or None when it does not occur. |
| RustFloat.SaturatingCast | crates/finder/src/format.rs:182 | `as` from `f64` to an integer type saturates. The result is in range and NaN gives 0. An infinity gives the bound on its side. A finite value whose truncation is below or above the range gives that bound, and one in range gives its truncation. |
| RustFloat.WrapI32 | crates/finder/src/format.rs:122 | `as i32` of a `usize` is within `i32`, congruent mod 2^32, and the identity below 2^31. |
| RustFloat.SaturatingSub | crates/finder/src/format.rs:124 | `saturating_sub` is the difference, or 0 when it would be negative. |
| RustFloat.Abs | crates/finder/src/format.rs:115 | `abs` clears the sign and keeps the exponent and fraction bits, so zero, NaN, infinity and the magnitude are kept. |
| Examples.PositionalExample | crates/finder/src/tests/features.rs:564-572 | `"select * from %s where id = %d" % ("users", 123)` gives `select * from users where id = 123`. |
| Examples.NamedExample | crates/finder/src/tests/features.rs:575-583 | The named template with `table` and `status` gives `select * from users where status = 'active'`. |
| Examples.MixedExample | crates/finder/src/tests/features.rs:680-692 | `%s`, `%.2f` and `%d` give `select * from products where price > 99.99 and quantity = 10`. |
| Examples.CallExample | crates/finder/src/tests/features.rs:857-864 | `"SELECT * FROM %s WHERE id = %d" % ("products", 123)` gives `SELECT * FROM products WHERE id = 123`. |
| Examples.DoublePercentExample | crates/finder/src/format.rs:27-30 | `100%%` gives `100%` for any arguments. |
| Examples.WidePercentExample | crates/finder/src/format.rs:65 | `%5%` gives None. |
| Examples.UpperFStaysLiteral | crates/finder/src/format.rs:18 | `%F` is left as it is. |
| Examples.DotInKeyExample | crates/finder/src/format.rs:172-176 | `%(a.b).3f` gets precision 6, not 3. |
| Examples.CharExample | crates/finder/src/format.rs:264-270 | `%c` of `a` gives `a`, of `é` (two bytes) gives None. |
| Examples.NegativeHexExample | crates/finder/src/format.rs:200-206 | `%x` of -1 gives sixteen `f`. |
| Examples.TrimWholeExample | crates/finder/src/format.rs:137-141 | `100.000` trims to `100`. |
| Examples.TrimNoPointExample | crates/finder/src/format.rs:142-144 | `100` keeps its zeros. |
| Examples.TrimFractionExample | crates/finder/src/format.rs:137-141 | `0.50` trims to `0.5`. |

## Left out

- Floating point rendering is not modelled: `{:.p$}`, `{:.p$e}`/`{:.p$E}`, `parse::<f64>`, `log10().floor()` and rounding toward zero are fields of `Collaborators`. Results of `%f`, `%e` and `%g` are stated in terms of them.
- `Display` of a `FinderType` (what `%s` prints) is a field of `Collaborators`, since it lives in `finder_types.rs`, which is not part of this model. The value variants other than `Int`, `Float`, `Bool` and `Str` are one `Other` case.
- The `regex` crate is replaced by a recogniser of this one expression, proved equal to the expression's grammar. A failure of `Regex::new` (the leading `.ok()?`) cannot happen for this fixed expression and is not modelled.
- `bail_with!` logs a message and returns None. The model returns None and leaves the logging out.
- Offsets are counted in characters, not in UTF-8 bytes. `replace_range` works on bytes, but every match starts and ends on a character boundary, so the resulting text is the same.
- `usize` is taken to be 64 bits wide.
- The `'F'` arm of the conversion match is modelled but unreachable, because the expression never matches `F` (`FormatProperties.NoMatchEndsInF`).
- Binary, octal and hex are one function, `Conversions.FormatInRadix`, with the base and letter case as parameters, because the three source helpers (`crates/finder/src/format.rs:84-91`, `189-196` and `198-215`) differ only in those.
- The None case of `PythonFormat.NamedKey` (a named specifier without `)`) is modelled but cannot come from a scanned match (`FormatProperties.ScannedNamedHasKey`).
- `specifier.chars().last()?` cannot fail, because a match is never empty. The model takes the last character directly.
- The other files of the repository are not part of this model. These include the suite harness `harness_find`, which runs the finder over Python text.
