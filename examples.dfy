/**
 * Concrete templates: the `%` cases of the finder's feature tests, and the
 * quirks of the emulator on small inputs. The `Display` of a string value and
 * the fixed-point rendering of a float are collaborators, so the results that
 * depend on them are stated under what those collaborators return.
 */
module Examples {
  import opened Wrappers
  import opened RustText
  import opened RustFloat
  import opened SpecifierScan
  import opened Conversions
  import opened PythonFormat
  import opened FormatProperties
  import opened FeatureTexts

  // ---------------------------------------------------------------------------
  // Helpers for concrete scans

  /** A range holding no `%` holds no match. */
  lemma NoMatchWithoutPercent(u: UnicodeTables, t: string, a: nat, b: nat)
    requires a <= b <= |t| && '%' !in t[a..b]
    ensures NoMatchIn(u, t, a, b)
  {
    forall p | a <= p < b
      ensures t[p] != '%'
    {
      assert t[p] == t[a..b][p - a];
    }
  }

  /** Any list of spans meeting the `find_iter` conditions is what Scan returns. */
  lemma ScanIs(u: UnicodeTables, t: string, ms: seq<Span>)
    requires FindIter(u, t, ms, 0)
    ensures Scan(u, t, 0) == ms
  {
    FindIterUnique(u, t, Scan(u, t, 0), ms, 0);
  }

  /** The matches of a template with one specifier. */
  lemma OneMatch(u: UnicodeTables, t: string, a: nat, b: nat)
    requires a < b <= |t|
    requires NoMatchIn(u, t, 0, a) && MatchAt(u, t, a) == Some(b)
    requires NoMatchIn(u, t, b, |t|)
    ensures Scan(u, t, 0) == [Span(a, b)]
  {
    var ms := [Span(a, b)];
    assert FindIter(u, t, ms[1..], b);
    ScanIs(u, t, ms);
  }

  /** The matches of a template with two specifiers. */
  lemma TwoMatches(u: UnicodeTables, t: string, a: nat, b: nat, c: nat, d: nat)
    requires a < b <= c < d <= |t|
    requires NoMatchIn(u, t, 0, a) && MatchAt(u, t, a) == Some(b)
    requires NoMatchIn(u, t, b, c) && MatchAt(u, t, c) == Some(d)
    requires NoMatchIn(u, t, d, |t|)
    ensures Scan(u, t, 0) == [Span(a, b), Span(c, d)]
  {
    var ms := [Span(a, b), Span(c, d)];
    assert FindIter(u, t, ms[2..], d);
    assert FindIter(u, t, ms[1..], b);
    ScanIs(u, t, ms);
  }

  /** The matches of a template with three specifiers. */
  lemma ThreeMatches(u: UnicodeTables, t: string, a: nat, b: nat, c: nat, d: nat, e: nat, f: nat)
    requires a < b <= c < d <= e < f <= |t|
    requires NoMatchIn(u, t, 0, a) && MatchAt(u, t, a) == Some(b)
    requires NoMatchIn(u, t, b, c) && MatchAt(u, t, c) == Some(d)
    requires NoMatchIn(u, t, d, e) && MatchAt(u, t, e) == Some(f)
    requires NoMatchIn(u, t, f, |t|)
    ensures Scan(u, t, 0) == [Span(a, b), Span(c, d), Span(e, f)]
  {
    var ms := [Span(a, b), Span(c, d), Span(e, f)];
    assert FindIter(u, t, ms[3..], f);
    assert FindIter(u, t, ms[2..], d);
    assert FindIter(u, t, ms[1..], b);
    ScanIs(u, t, ms);
  }

  /** A tail that is a bare conversion character. */
  lemma ConversionTail(u: UnicodeTables, t: string, q: nat)
    requires q < |t| && IsConversion(t[q])
    ensures TailEnd(u, t, q) == Some(q + 1)
  {
    assert FlagsEnd(t, q) == q;
    assert CountEnd(u, t, q) == q;
  }

  /** `%` directly followed by a conversion character is a whole match. */
  lemma PlainSpecifier(u: UnicodeTables, t: string, p: nat, conv: char)
    requires p + 2 <= |t| && t[p..p + 2] == ['%', conv] && IsConversion(conv)
    ensures MatchAt(u, t, p) == Some(p + 2)
  {
    assert t[p] == t[p..p + 2][0] && t[p + 1] == t[p..p + 2][1];
    assert NamedEnd(u, t, p).None?;
    ConversionTail(u, t, p + 1);
  }

  /** `%`, one non-zero ASCII digit of width, and a conversion character. */
  lemma WidthSpecifier(u: UnicodeTables, t: string, p: nat, width: char, conv: char)
    requires p + 3 <= |t| && t[p..p + 3] == ['%', width, conv]
    requires '1' <= width <= '9' && IsConversion(conv)
    ensures MatchAt(u, t, p) == Some(p + 3)
  {
    assert t[p] == t[p..p + 3][0] && t[p + 1] == t[p..p + 3][1] && t[p + 2] == t[p..p + 3][2];
    assert NamedEnd(u, t, p).None?;
    assert FlagsEnd(t, p + 1) == p + 1;
    assert DigitsEnd(u, t, p + 2) == p + 2;
    assert CountEnd(u, t, p + 1) == p + 2;
  }

  /** `%.`, one ASCII digit of precision, and a conversion character. */
  lemma PrecisionSpecifier(u: UnicodeTables, t: string, p: nat, digit: char, conv: char)
    requires p + 4 <= |t| && t[p..p + 4] == ['%', '.', digit, conv]
    requires IsAsciiDigit(digit) && IsConversion(conv)
    ensures MatchAt(u, t, p) == Some(p + 4)
  {
    var s := t[p..p + 4];
    assert t[p] == s[0] && t[p + 1] == s[1] && t[p + 2] == s[2] && t[p + 3] == s[3];
    assert NamedEnd(u, t, p).None?;
    assert FlagsEnd(t, p + 1) == p + 1;
    assert CountEnd(u, t, p + 1) == p + 1;
    assert DigitsEnd(u, t, p + 3) == p + 3;
    assert CountEnd(u, t, p + 2) == p + 3;
    assert PrecisionEnd(u, t, p + 1) == Some(p + 3);
  }

  /** `%(key)` followed by a conversion character, for a non-empty key without `)`. */
  lemma NamedSpecifier(u: UnicodeTables, t: string, p: nat, key: string, conv: char)
    requires p + |key| + 4 <= |t| && t[p..p + |key| + 4] == "%(" + key + ")" + [conv]
    requires key != [] && ')' !in key && IsConversion(conv)
    ensures MatchAt(u, t, p) == Some(p + |key| + 4)
  {
    var c := p + |key| + 2;
    NamedShape(t, p, key, conv);
    NamedAt(u, t, p, c);
  }

  lemma NamedAt(u: UnicodeTables, t: string, p: nat, c: nat)
    requires p + 2 < c && c + 1 < |t| && t[p] == '%' && t[p + 1] == '('
    requires IndexFrom(t, p + 2, ')') == Some(c) && IsConversion(t[c + 1])
    ensures MatchAt(u, t, p) == Some(c + 2)
  {
    NamedEndAt(u, t, p, c);
    ConversionTail(u, t, c + 1);
  }

  lemma NamedShape(t: string, p: nat, key: string, conv: char)
    requires p + |key| + 4 <= |t| && t[p..p + |key| + 4] == "%(" + key + ")" + [conv]
    requires ')' !in key
    ensures var c := p + |key| + 2;
            t[p] == '%' && t[p + 1] == '(' && t[c + 1] == conv && IndexFrom(t, p + 2, ')') == Some(c)
  {
    var s := t[p..p + |key| + 4];
    var c := p + |key| + 2;
    assert t[p] == s[0] && t[p + 1] == s[1] && t[c] == s[|key| + 2] && t[c + 1] == s[|key| + 3];
    forall x | p + 2 <= x < c
      ensures t[x] != ')'
    {
      assert t[x] == s[x - p] == key[x - p - 2];
    }
    IndexFromExact(t, p + 2, c, ')');
  }

  // ---------------------------------------------------------------------------
  // Results from known substitutions

  /** The result for one match whose substitution is known. */
  lemma RenderOne(env: Collaborators, t: string, ms: seq<Span>, args: seq<FinderType>, kwargs: Kwargs, r0: string)
    requires |ms| == 1 && Placed(ms, 0, |t|)
    requires Substitution(env, t, ms, 0, args, kwargs) == Some(r0)
    ensures Render(env, t, ms, args, kwargs) == Some(t[..ms[0].start] + r0 + t[ms[0].end..])
  {
    var subs := Substitutions(env, t, ms, args, kwargs);
    var v := AllPresent(subs).value;
    assert v == [r0];
    assert v[1..] == [];
    assert Splice(t, ms, 1, v[1..], ms[0].end) == t[ms[0].end..];
    assert Splice(t, ms, 0, v, 0) == t[0..ms[0].start] + r0 + t[ms[0].end..];
    assert t[0..ms[0].start] == t[..ms[0].start];
  }

  /** The result for two matches whose substitutions are known. */
  lemma RenderTwo(env: Collaborators, t: string, ms: seq<Span>, args: seq<FinderType>, kwargs: Kwargs, r0: string, r1: string)
    requires |ms| == 2 && Placed(ms, 0, |t|)
    requires Substitution(env, t, ms, 0, args, kwargs) == Some(r0)
    requires Substitution(env, t, ms, 1, args, kwargs) == Some(r1)
    ensures Render(env, t, ms, args, kwargs)
            == Some(t[..ms[0].start] + r0 + t[ms[0].end..ms[1].start] + r1 + t[ms[1].end..])
  {
    var subs := Substitutions(env, t, ms, args, kwargs);
    var v := AllPresent(subs).value;
    assert v == [r0, r1];
    assert v[1..][1..] == [];
    assert Splice(t, ms, 1, v[1..], ms[0].end) == t[ms[0].end..ms[1].start] + r1 + t[ms[1].end..];
    assert Splice(t, ms, 0, v, 0) == t[0..ms[0].start] + r0 + Splice(t, ms, 1, v[1..], ms[0].end);
    var head, middle, tail := t[..ms[0].start], t[ms[0].end..ms[1].start], t[ms[1].end..];
    assert t[0..ms[0].start] == head;
    assert head + r0 + (middle + r1 + tail) == head + r0 + middle + r1 + tail;
  }

  /** The result for three matches whose substitutions are known. */
  lemma RenderThree(env: Collaborators, t: string, ms: seq<Span>, args: seq<FinderType>, kwargs: Kwargs,
                    r0: string, r1: string, r2: string)
    requires |ms| == 3 && Placed(ms, 0, |t|)
    requires Substitution(env, t, ms, 0, args, kwargs) == Some(r0)
    requires Substitution(env, t, ms, 1, args, kwargs) == Some(r1)
    requires Substitution(env, t, ms, 2, args, kwargs) == Some(r2)
    ensures Render(env, t, ms, args, kwargs)
            == Some(t[..ms[0].start] + r0 + t[ms[0].end..ms[1].start] + r1
                    + t[ms[1].end..ms[2].start] + r2 + t[ms[2].end..])
  {
    var subs := Substitutions(env, t, ms, args, kwargs);
    var v := AllPresent(subs).value;
    assert v == [r0, r1, r2];
    assert v[1..][1..][1..] == [];
    var p0, p1, p2, p3 := t[..ms[0].start], t[ms[0].end..ms[1].start], t[ms[1].end..ms[2].start], t[ms[2].end..];
    assert Splice(t, ms, 2, v[1..][1..], ms[1].end) == p2 + r2 + p3;
    assert Splice(t, ms, 1, v[1..], ms[0].end) == p1 + r1 + (p2 + r2 + p3);
    assert Splice(t, ms, 0, v, 0) == t[0..ms[0].start] + r0 + Splice(t, ms, 1, v[1..], ms[0].end);
    assert t[0..ms[0].start] == p0;
    Regroup(p0, r0, p1, r1, p2, r2, p3);
  }

  lemma Regroup(p0: string, r0: string, p1: string, r1: string, p2: string, r2: string, p3: string)
    ensures p0 + r0 + (p1 + r1 + (p2 + r2 + p3)) == p0 + r0 + p1 + r1 + p2 + r2 + p3
  {
  }

  // ---------------------------------------------------------------------------
  // Single conversions

  /** `%s` renders its argument through `Display`. */
  lemma ConvertString(env: Collaborators, index: nat, args: seq<FinderType>, kwargs: Kwargs)
    requires index < |args|
    ensures SpecSubstitution(env, "%s", index, args, kwargs) == Some(env.display(args[|args| - 1 - index]))
  {
  }

  /** `%d` of an integer value is its text. */
  lemma ConvertInt(env: Collaborators, index: nat, args: seq<FinderType>, kwargs: Kwargs, text: string)
    requires index < |args| && args[|args| - 1 - index] == Int(text)
    ensures SpecSubstitution(env, "%d", index, args, kwargs) == Some(text)
  {
  }

  /** The precision of `%.2f` is 2. */
  lemma PrecisionTwo(u: UnicodeTables)
    ensures Precision(u, "%.2f") == 2
  {
    IndexOfExact("%.2f", '.', 1);
    assert "%.2f"[2..] == "2f";
    FirstAlphabeticExact(u, "2f", 1);
    assert "2f"[..1] == "2";
    assert DigitsValue("2", 10) == 2 by {
      assert "2"[..0] == [];
    }
    assert ParseUsize("2") == Some(2);
  }

  /** `%.2f` of a float value renders it with two fraction digits. */
  lemma ConvertFixed(env: Collaborators, index: nat, args: seq<FinderType>, kwargs: Kwargs, f: F64)
    requires index < |args| && args[|args| - 1 - index] == Float(f)
    ensures SpecSubstitution(env, "%.2f", index, args, kwargs) == Some(env.fixed(f, 2))
  {
    PrecisionTwo(env.unicode);
  }

  /** `%(key)s` names its key, and ends in `s`. */
  lemma KeyOf(spec: string, key: string)
    requires spec == "%(" + key + ")s" && ')' !in key
    ensures IsNamed(spec) && NamedKey(spec) == Some(key) && spec[|spec| - 1] == 's'
  {
    assert spec[|key| + 2] == ')';
    assert spec[..|key| + 2] == "%(" + key;
    IndexOfExact(spec, ')', |key| + 2);
    assert spec[2..|key| + 2] == key;
  }

  /** A named `%(key)s` renders its keyword value through `Display`. */
  lemma ConvertNamedString(env: Collaborators, spec: string, key: string, index: nat, args: seq<FinderType>, kwargs: Kwargs, v: FinderType)
    requires spec == "%(" + key + ")s" && ')' !in key
    requires Lookup(kwargs, key) == Some(v)
    ensures SpecSubstitution(env, spec, index, args, kwargs) == Some(env.display(v))
  {
    KeyOf(spec, key);
  }

  /** A template whose only matches are a `%s` at a and a `%d` at c, given a string and an integer. */
  lemma StringThenInt(env: Collaborators, t: string, a: nat, c: nat, s: string, n: string)
    requires a + 2 <= c && c + 2 <= |t|
    requires t[a..a + 2] == "%s" && t[c..c + 2] == "%d"
    ensures var ms := [Span(a, a + 2), Span(c, c + 2)];
            Placed(ms, 0, |t|)
            && Render(env, t, ms, [Str(s), Int(n)], [])
               == Some(t[..a] + env.display(Str(s)) + t[a + 2..c] + n + t[c + 2..])
  {
    var ms := [Span(a, a + 2), Span(c, c + 2)];
    var args := [Str(s), Int(n)];
    assert PositionalCount(t, ms, 1) == 1;
    SubstitutionIs(env, t, ms, 0, args, [], "%s", 1);
    SubstitutionIs(env, t, ms, 1, args, [], "%d", 0);
    ConvertString(env, 1, args, []);
    ConvertInt(env, 0, args, [], n);
    RenderTwo(env, t, ms, args, [], env.display(Str(s)), n);
  }

  // ---------------------------------------------------------------------------
  // Feature test: positional `%s` and `%d`

  lemma PositionalScan(u: UnicodeTables)
    ensures Scan(u, POSITIONAL, 0) == [Span(14, 16), Span(28, 30)]
  {
    var t := POSITIONAL;
    PositionalPieces();
    NoMatchWithoutPercent(u, t, 0, 14);
    NoMatchWithoutPercent(u, t, 16, 28);
    NoMatchWithoutPercent(u, t, 30, 30);
    PlainSpecifier(u, t, 14, 's');
    PlainSpecifier(u, t, 28, 'd');
    TwoMatches(u, t, 14, 16, 28, 30);
  }

  /** `"select * from %s where id = %d" % ("users", 123)`. */
  lemma PositionalExample(env: Collaborators)
    requires env.display(Str("users")) == "users"
    ensures PercentFormat(env, POSITIONAL, [Str("users"), Int("123")], [])
            == Some("select * from users where id = 123")
  {
    PositionalScan(env.unicode);
    PositionalPieces();
    StringThenInt(env, POSITIONAL, 14, 28, "users", "123");
    PositionalText();
  }

  // ---------------------------------------------------------------------------
  // Feature test: a formatted string passed to a function

  lemma CallScan(u: UnicodeTables)
    ensures Scan(u, CALL, 0) == [Span(14, 16), Span(28, 30)]
  {
    var t := CALL;
    CallPieces();
    NoMatchWithoutPercent(u, t, 0, 14);
    NoMatchWithoutPercent(u, t, 16, 28);
    NoMatchWithoutPercent(u, t, 30, 30);
    PlainSpecifier(u, t, 14, 's');
    PlainSpecifier(u, t, 28, 'd');
    TwoMatches(u, t, 14, 16, 28, 30);
  }

  /** `"SELECT * FROM %s WHERE id = %d" % ("products", 123)`, the argument of a query call. */
  lemma CallExample(env: Collaborators)
    requires env.display(Str("products")) == "products"
    ensures PercentFormat(env, CALL, [Str("products"), Int("123")], [])
            == Some("SELECT * FROM products WHERE id = 123")
  {
    CallScan(env.unicode);
    CallPieces();
    StringThenInt(env, CALL, 14, 28, "products", "123");
    CallText();
  }

  // ---------------------------------------------------------------------------
  // Feature test: named specifiers

  lemma NamedMatches(u: UnicodeTables)
    ensures MatchAt(u, NAMED, 14) == Some(23) && MatchAt(u, NAMED, 40) == Some(50)
  {
    NamedSpecifiers();
    NamedSpecifier(u, NAMED, 14, "table", 's');
    NamedSpecifier(u, NAMED, 40, "status", 's');
  }

  lemma NamedScan(u: UnicodeTables)
    ensures Scan(u, NAMED, 0) == [Span(14, 23), Span(40, 50)]
  {
    var t := NAMED;
    NamedPieces();
    NoMatchWithoutPercent(u, t, 0, 14);
    NoMatchWithoutPercent(u, t, 23, 40);
    NoMatchWithoutPercent(u, t, 50, 51);
    NamedMatches(u);
    TwoMatches(u, t, 14, 23, 40, 50);
  }

  /** The `j`-th match of `NAMED`, `%(key)s`, becomes the `Display` of the keyword value. */
  lemma NamedSubstitution(env: Collaborators, kwargs: Kwargs, j: nat, key: string, v: FinderType)
    requires j < 2 && NAMED[[14, 40][j]..[23, 50][j]] == "%(" + key + ")" + ['s'] && ')' !in key
    requires Lookup(kwargs, key) == Some(v)
    ensures var ms := [Span(14, 23), Span(40, 50)];
            Placed(ms, 0, |NAMED|) && Substitution(env, NAMED, ms, j, [], kwargs) == Some(env.display(v))
  {
    var t := NAMED;
    var ms := [Span(14, 23), Span(40, 50)];
    var spec := t[ms[j].start..ms[j].end];
    var index := PositionalCount(t, ms, j + 1);
    SubstitutionIs(env, t, ms, j, [], kwargs, spec, index);
    ConvertNamedString(env, spec, key, index, [], kwargs, v);
  }

  lemma NamedSubstitutions(env: Collaborators, kwargs: Kwargs)
    requires kwargs == [("table", Str("users")), ("status", Str("active"))]
    ensures var ms := [Span(14, 23), Span(40, 50)];
            Placed(ms, 0, |NAMED|)
            && Substitution(env, NAMED, ms, 0, [], kwargs) == Some(env.display(Str("users")))
            && Substitution(env, NAMED, ms, 1, [], kwargs) == Some(env.display(Str("active")))
  {
    NamedSpecifiers();
    assert Lookup(kwargs, "table") == Some(Str("users"));
    assert Lookup(kwargs, "status") == Some(Str("active"));
    NamedSubstitution(env, kwargs, 0, "table", Str("users"));
    NamedSubstitution(env, kwargs, 1, "status", Str("active"));
  }

  lemma NamedRender(env: Collaborators, kwargs: Kwargs)
    requires kwargs == [("table", Str("users")), ("status", Str("active"))]
    ensures var ms := [Span(14, 23), Span(40, 50)];
            Placed(ms, 0, |NAMED|)
            && Render(env, NAMED, ms, [], kwargs)
               == Some(NAMED[..14] + env.display(Str("users")) + NAMED[23..40] + env.display(Str("active")) + NAMED[50..])
  {
    NamedSubstitutions(env, kwargs);
    RenderTwo(env, NAMED, [Span(14, 23), Span(40, 50)], [], kwargs, env.display(Str("users")), env.display(Str("active")));
  }

  /** `"select * from %(table)s where status = '%(status)s'" % {"table": "users", "status": "active"}`. */
  lemma NamedExample(env: Collaborators)
    requires env.display(Str("users")) == "users" && env.display(Str("active")) == "active"
    ensures PercentFormat(env, NAMED, [], [("table", Str("users")), ("status", Str("active"))])
            == Some("select * from users where status = 'active'")
  {
    NamedScan(env.unicode);
    NamedRender(env, [("table", Str("users")), ("status", Str("active"))]);
    NamedPieces();
    NamedText();
  }

  // ---------------------------------------------------------------------------
  // Feature test: `%s`, `%.2f` and `%d` together

  lemma MixedScan(u: UnicodeTables)
    ensures Scan(u, MIXED, 0) == [Span(14, 16), Span(31, 35), Span(51, 53)]
  {
    var t := MIXED;
    MixedPieces();
    NoMatchWithoutPercent(u, t, 0, 14);
    NoMatchWithoutPercent(u, t, 16, 31);
    NoMatchWithoutPercent(u, t, 35, 51);
    NoMatchWithoutPercent(u, t, 53, 53);
    PlainSpecifier(u, t, 14, 's');
    PrecisionSpecifier(u, t, 31, '2', 'f');
    PlainSpecifier(u, t, 51, 'd');
    ThreeMatches(u, t, 14, 16, 31, 35, 51, 53);
  }

  lemma MixedSubstitutions(env: Collaborators, f: F64)
    ensures var ms := [Span(14, 16), Span(31, 35), Span(51, 53)];
            var args := [Str("products"), Float(f), Int("10")];
            Placed(ms, 0, |MIXED|)
            && Substitution(env, MIXED, ms, 0, args, []) == Some(env.display(Str("products")))
            && Substitution(env, MIXED, ms, 1, args, []) == Some(env.fixed(f, 2))
            && Substitution(env, MIXED, ms, 2, args, []) == Some("10")
  {
    var t := MIXED;
    var ms := [Span(14, 16), Span(31, 35), Span(51, 53)];
    var args := [Str("products"), Float(f), Int("10")];
    MixedPieces();
    assert PositionalCount(t, ms, 2) == 1;
    assert PositionalCount(t, ms, 1) == 2;
    SubstitutionIs(env, t, ms, 0, args, [], "%s", 2);
    SubstitutionIs(env, t, ms, 1, args, [], "%.2f", 1);
    SubstitutionIs(env, t, ms, 2, args, [], "%d", 0);
    ConvertString(env, 2, args, []);
    ConvertFixed(env, 1, args, [], f);
    ConvertInt(env, 0, args, [], "10");
  }

  lemma MixedRender(env: Collaborators, f: F64)
    ensures var ms := [Span(14, 16), Span(31, 35), Span(51, 53)];
            Placed(ms, 0, |MIXED|)
            && Render(env, MIXED, ms, [Str("products"), Float(f), Int("10")], [])
               == Some(MIXED[..14] + env.display(Str("products")) + MIXED[16..31] + env.fixed(f, 2)
                       + MIXED[35..51] + "10" + MIXED[53..])
  {
    MixedSubstitutions(env, f);
    RenderThree(env, MIXED, [Span(14, 16), Span(31, 35), Span(51, 53)], [Str("products"), Float(f), Int("10")], [],
                env.display(Str("products")), env.fixed(f, 2), "10");
  }

  /** `"select * from %s where price > %.2f and quantity = %d" % ("products", 99.99, 10)`. */
  lemma MixedExample(env: Collaborators, f: F64)
    requires env.display(Str("products")) == "products" && env.fixed(f, 2) == "99.99"
    ensures PercentFormat(env, MIXED, [Str("products"), Float(f), Int("10")], [])
            == Some("select * from products where price > 99.99 and quantity = 10")
  {
    MixedScan(env.unicode);
    MixedRender(env, f);
    MixedPieces();
    MixedText();
  }

  // ---------------------------------------------------------------------------
  // Quirks on small inputs

  /** `%%` becomes `%` and takes no argument. */
  lemma DoublePercentExample(env: Collaborators, args: seq<FinderType>)
    ensures PercentFormat(env, "100%%", args, []) == Some("100%")
  {
    var t := "100%%";
    var u := env.unicode;
    assert t[..3] == "100" && t[3..5] == "%%" && t[5..] == "";
    NoMatchWithoutPercent(u, t, 0, 3);
    NoMatchWithoutPercent(u, t, 5, 5);
    PlainSpecifier(u, t, 3, '%');
    OneMatch(u, t, 3, 5);
    var ms := [Span(3, 5)];
    assert SpecText(t, ms[0]) == "%%";
    RenderOne(env, t, ms, args, [], "%");
    assert t[..3] + "%" + t[5..] == "100%";
  }

  /** `%5%` is one match that ends in `%` but is not `%%`, so the whole result is None. */
  lemma WidePercentExample(env: Collaborators, args: seq<FinderType>)
    ensures PercentFormat(env, "%5%", args, []).None?
  {
    var t := "%5%";
    var u := env.unicode;
    assert t[0..3] == "%5%" && t[3..] == "";
    NoMatchWithoutPercent(u, t, 0, 0);
    NoMatchWithoutPercent(u, t, 3, 3);
    WidthSpecifier(u, t, 0, '5', '%');
    OneMatch(u, t, 0, 3);
    var ms := [Span(0, 3)];
    assert SpecText(t, ms[0]) == "%5%";
    PercentConversionFails(env, t, ms, 0, args, []);
  }

  /** `%F` is not matched at all, so it stays in the text. */
  lemma UpperFStaysLiteral(env: Collaborators, args: seq<FinderType>, kwargs: Kwargs)
    ensures PercentFormat(env, "%F", args, kwargs) == Some("%F")
  {
    var t := "%F";
    var u := env.unicode;
    assert MatchAt(u, t, 0).None? by {
      assert NamedEnd(u, t, 0).None?;
      assert FlagsEnd(t, 1) == 1;
      assert CountEnd(u, t, 1) == 1;
    }
    assert MatchAt(u, t, 1).None?;
    assert FindIter(u, t, [], 0);
    ScanIs(u, t, []);
    assert t[0..] == t;
  }

  /** The precision is read after the first `.` anywhere, so a `.` in a key hides the real one. */
  lemma DotInKeyExample(u: UnicodeTables)
    ensures Precision(u, "%(a.b).3f") == 6
  {
    IndexOfExact("%(a.b).3f", '.', 3);
    assert "%(a.b).3f"[4..] == "b).3f";
    FirstAlphabeticExact(u, "b).3f", 0);
  }

  /** `%c` of a one-byte string passes it through; a two-byte character is refused. */
  lemma CharExample()
    ensures FormatAsChar(Str("a")) == Some("a")
    ensures FormatAsChar(Str("é")) == None
  {
  }

  /** The hex digits of 16^k - 1 are k letters `f`. */
  lemma {:induction false} AllF(k: nat)
    requires k >= 1
    ensures Digits(Pow(16, k) - 1, 16, false) == seq(k, _ => 'f')
  {
    var n := Pow(16, k) - 1;
    if k > 1 {
      assert n == 16 * (Pow(16, k - 1) - 1) + 15;
      assert n / 16 == Pow(16, k - 1) - 1 && n % 16 == 15;
      AllF(k - 1);
      assert seq(k, _ => 'f') == seq(k - 1, _ => 'f') + ['f'];
    }
  }

  lemma MinusOneParses()
    ensures ParseI64("-1") == Some(-1)
  {
    assert DigitsValue("1", 10) == 1 by {
      assert "1"[..0] == [];
    }
    assert "-1"[1..] == "1";
  }

  lemma HexOfMinusOne()
    ensures RadixOfI64(-1, 16, false) == "ffffffffffffffff"
  {
    PowOfSixteen();
    assert TwosComplement64(-1) == Pow(16, 16) - 1;
    AllF(16);
    assert seq(16, _ => 'f') == "ffffffffffffffff";
  }

  /** `%x` of -1 is the 64-bit two's complement: sixteen `f`. */
  lemma NegativeHexExample(env: Collaborators)
    ensures FormatInRadix(env, Int("-1"), 16, false) == Some("ffffffffffffffff")
  {
    MinusOneParses();
    HexOfMinusOne();
  }

  /** `%g` drops the trailing zeros and then the point of a whole number. */
  lemma TrimWholeExample()
    ensures TrimFixed("100.000") == "100"
  {
  }

  /** The zeros of a text without a point are kept. */
  lemma TrimNoPointExample()
    ensures TrimFixed("100") == "100"
  {
  }

  /** Only the zeros after the last non-zero fraction digit go. */
  lemma TrimFractionExample()
    ensures TrimFixed("0.50") == "0.5"
  {
  }
}
