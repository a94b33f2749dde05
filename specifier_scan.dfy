/**
 * The specifier scan of `format_python_string`: the regular expression
 *
 *   %\(([^)]+)\)TAIL | %TAIL
 *   TAIL = [-+0 #]*(?:\*|\d+)?(?:\.(?:\*|\d+))?[hlL]?[sdifgGeEoxXcubp%]
 *
 * searched with `find_iter`, i.e. leftmost-first and without overlaps. The
 * grammar is stated once as ghost predicates over a candidate specifier text;
 * `MatchAt` is a deterministic recogniser proved to accept exactly that
 * language, and `Scan` collects the matches the way `find_iter` does.
 */
module SpecifierScan {
  import opened Wrappers
  import opened RustText

  /** The byte range of one match (`Match::range`). */
  datatype Span = Span(start: nat, end: nat)

  predicate IsFlag(c: char) {
    c == '-' || c == '+' || c == '0' || c == ' ' || c == '#'
  }

  predicate IsLengthModifier(c: char) {
    c == 'h' || c == 'l' || c == 'L'
  }

  /** The conversion class `[sdifgGeEoxXcubp%]`; note that `F` is not in it. */
  predicate IsConversion(c: char) {
    c == 's' || c == 'd' || c == 'i' || c == 'f' || c == 'g' || c == 'G' || c == 'e' || c == 'E'
    || c == 'o' || c == 'x' || c == 'X' || c == 'c' || c == 'u' || c == 'b' || c == 'p' || c == '%'
  }

  // ---------------------------------------------------------------------------
  // The grammar, as a reference: which ranges [a, b) of a text a part of the
  // regular expression matches

  ghost predicate FlagsIn(t: string, a: nat, b: nat)
    requires a <= b <= |t|
  {
    forall x :: a <= x < b ==> IsFlag(t[x])
  }

  /** `\*|\d+`. */
  ghost predicate CountIn(u: UnicodeTables, t: string, a: nat, b: nat)
    requires a <= b <= |t|
  {
    (b == a + 1 && t[a] == '*') || (a < b && forall x :: a <= x < b ==> IsDecimalDigit(u, t[x]))
  }

  /** `(?:\*|\d+)?`. */
  ghost predicate WidthIn(u: UnicodeTables, t: string, a: nat, b: nat)
    requires a <= b <= |t|
  {
    a == b || CountIn(u, t, a, b)
  }

  /** `(?:\.(?:\*|\d+))?`. */
  ghost predicate PrecisionIn(u: UnicodeTables, t: string, a: nat, b: nat)
    requires a <= b <= |t|
  {
    a == b || (t[a] == '.' && CountIn(u, t, a + 1, b))
  }

  /** `[hlL]?`. */
  ghost predicate LengthIn(t: string, a: nat, b: nat)
    requires a <= b <= |t|
  {
    a == b || (b == a + 1 && IsLengthModifier(t[a]))
  }

  /** [q, e) splits at f, w, p, l into flags, width, precision, length and one conversion. */
  ghost predicate TailSplit(u: UnicodeTables, t: string, q: nat, f: nat, w: nat, p: nat, l: nat, e: nat) {
    q <= f <= w <= p <= l && l + 1 == e <= |t|
    && FlagsIn(t, q, f) && WidthIn(u, t, f, w) && PrecisionIn(u, t, w, p)
    && LengthIn(t, p, l) && IsConversion(t[l])
  }

  /** TAIL = `[-+0 #]*(?:\*|\d+)?(?:\.(?:\*|\d+))?[hlL]?[sdifgGeEoxXcubp%]` matches [q, e). */
  ghost predicate TailIn(u: UnicodeTables, t: string, q: nat, e: nat) {
    exists f: nat, w: nat, p: nat, l: nat :: TailSplit(u, t, q, f, w, p, l, e)
  }

  /** The second alternative, `%TAIL`, matches [a, e). */
  ghost predicate PositionalIn(u: UnicodeTables, t: string, a: nat, e: nat) {
    a < e <= |t| && t[a] == '%' && TailIn(u, t, a + 1, e)
  }

  /** `%(`, a key of one or more characters other than `)`, the `)` at c, then TAIL up to e. */
  ghost predicate NamedSplit(u: UnicodeTables, t: string, a: nat, c: nat, e: nat) {
    a + 3 <= c < e <= |t| && t[a] == '%' && t[a + 1] == '(' && t[c] == ')'
    && (forall x :: a + 2 <= x < c ==> t[x] != ')')
    && TailIn(u, t, c + 1, e)
  }

  /** The first alternative, `%\(([^)]+)\)TAIL`, matches [a, e). */
  ghost predicate NamedIn(u: UnicodeTables, t: string, a: nat, e: nat) {
    exists c: nat :: NamedSplit(u, t, a, c, e)
  }

  /** The whole regular expression matches t[a..e]. */
  ghost predicate SpecifierIn(u: UnicodeTables, t: string, a: nat, e: nat) {
    NamedIn(u, t, a, e) || PositionalIn(u, t, a, e)
  }

  // ---------------------------------------------------------------------------
  // The recogniser

  /** The end of the run of flag characters starting at q. */
  function FlagsEnd(t: string, q: nat): (e: nat)
    requires q <= |t|
    ensures q <= e <= |t|
    ensures forall x :: q <= x < e ==> IsFlag(t[x])
    ensures e < |t| ==> !IsFlag(t[e])
    decreases |t| - q
  {
    if q < |t| && IsFlag(t[q]) then FlagsEnd(t, q + 1) else q
  }

  /** The end of the run of `\d` characters starting at q. */
  function DigitsEnd(u: UnicodeTables, t: string, q: nat): (e: nat)
    requires q <= |t|
    ensures q <= e <= |t|
    ensures forall x :: q <= x < e ==> IsDecimalDigit(u, t[x])
    ensures e < |t| ==> !IsDecimalDigit(u, t[e])
    decreases |t| - q
  {
    if q < |t| && IsDecimalDigit(u, t[q]) then DigitsEnd(u, t, q + 1) else q
  }

  /** The end of an optional `\*|\d+` starting at q (q itself when there is none). */
  function CountEnd(u: UnicodeTables, t: string, q: nat): (e: nat)
    requires q <= |t|
    ensures q <= e <= |t|
    ensures WidthIn(u, t, q, e)
  {
    if q < |t| && t[q] == '*' then q + 1 else DigitsEnd(u, t, q)
  }

  /** The end of an optional `\.(?:\*|\d+)` starting at q; a `.` with no count after it fails. */
  function PrecisionEnd(u: UnicodeTables, t: string, q: nat): (r: Option<nat>)
    requires q <= |t|
    ensures r.Some? ==> q <= r.value <= |t| && PrecisionIn(u, t, q, r.value)
  {
    if q < |t| && t[q] == '.' then
      var e := CountEnd(u, t, q + 1);
      if e == q + 1 then None else Some(e)
    else Some(q)
  }

  /** The end of TAIL when it matches starting at q. */
  function TailEnd(u: UnicodeTables, t: string, q: nat): (r: Option<nat>)
    requires q <= |t|
    ensures r.Some? ==> q < r.value <= |t| && IsConversion(t[r.value - 1])
  {
    var w := CountEnd(u, t, FlagsEnd(t, q));
    match PrecisionEnd(u, t, w)
    case None => None
    case Some(p) =>
      var l := if p < |t| && IsLengthModifier(t[p]) then p + 1 else p;
      if l < |t| && IsConversion(t[l]) then Some(l + 1) else None
  }

  /** The first index at or after q holding `c`. */
  function IndexFrom(t: string, q: nat, c: char): (r: Option<nat>)
    requires q <= |t|
    ensures r.Some? ==> q <= r.value < |t| && t[r.value] == c
    ensures r.Some? ==> forall x :: q <= x < r.value ==> t[x] != c
    ensures r.None? ==> forall x :: q <= x < |t| ==> t[x] != c
    decreases |t| - q
  {
    if q == |t| then None else if t[q] == c then Some(q) else IndexFrom(t, q + 1, c)
  }

  /** The end of the first alternative, `%\(([^)]+)\)TAIL`, when it matches at p. */
  function NamedEnd(u: UnicodeTables, t: string, p: nat): (r: Option<nat>)
    requires p <= |t|
    ensures r.Some? ==> p < r.value <= |t| && t[p] == '%'
  {
    if p + 1 < |t| && t[p] == '%' && t[p + 1] == '(' then
      match IndexFrom(t, p + 2, ')')
      case Some(c) => if c > p + 2 then TailEnd(u, t, c + 1) else None
      case None => None
    else None
  }

  /** The end of the second alternative, `%TAIL`, when it matches at p. */
  function PositionalEnd(u: UnicodeTables, t: string, p: nat): (r: Option<nat>)
    requires p <= |t|
    ensures r.Some? ==> p < r.value <= |t| && t[p] == '%'
  {
    if p < |t| && t[p] == '%' then TailEnd(u, t, p + 1) else None
  }

  /**
   * The end of the match starting at p, if the expression matches there: the
   * first alternative when it matches, otherwise the second.
   */
  function MatchAt(u: UnicodeTables, t: string, p: nat): (r: Option<nat>)
    requires p <= |t|
    ensures r.Some? ==> p < r.value <= |t| && t[p] == '%'
    ensures r.Some? ==> IsConversion(t[r.value - 1])
  {
    var named := NamedEnd(u, t, p);
    if named.Some? then named else PositionalEnd(u, t, p)
  }

  // ---------------------------------------------------------------------------
  // find_iter

  /** No match starts anywhere in [a, b). */
  ghost predicate NoMatchIn(u: UnicodeTables, t: string, a: nat, b: nat)
    requires b <= |t|
  {
    forall p :: a <= p < b ==> MatchAt(u, t, p).None?
  }

  /**
   * The spans are the leftmost-first, non-overlapping matches of `t` from
   * `from` on: each starts at the first position where a match exists, ends
   * where that match ends, and the search resumes at its end.
   */
  ghost predicate FindIter(u: UnicodeTables, t: string, ms: seq<Span>, from: nat)
    requires from <= |t|
    decreases |ms|
  {
    if ms == [] then NoMatchIn(u, t, from, |t|)
    else
      from <= ms[0].start < |t|
      && NoMatchIn(u, t, from, ms[0].start)
      && MatchAt(u, t, ms[0].start) == Some(ms[0].end)
      && FindIter(u, t, ms[1..], ms[0].end)
  }

  /** Spans lying in order, without overlap, inside [from, len). */
  predicate Placed(ms: seq<Span>, from: nat, len: nat) {
    (forall k :: 0 <= k < |ms| ==> from <= ms[k].start < ms[k].end <= len)
    && (forall j, k :: 0 <= j < k < |ms| ==> ms[j].end <= ms[k].start)
  }

  /** `find_iter` over `t[from..]`. */
  function Scan(u: UnicodeTables, t: string, from: nat): (ms: seq<Span>)
    requires from <= |t|
    ensures FindIter(u, t, ms, from)
    decreases |t| - from
  {
    if from == |t| then []
    else match MatchAt(u, t, from)
      case Some(e) =>
        var rest := Scan(u, t, e);
        FindIterCons(u, t, from, e, rest);
        [Span(from, e)] + rest
      case None =>
        FindIterSkip(u, t, from, Scan(u, t, from + 1));
        Scan(u, t, from + 1)
  }

  /** The spans `find_iter` reports lie in order inside the text, each from a `%` to a conversion. */
  lemma {:induction false} FindIterPlaced(u: UnicodeTables, t: string, ms: seq<Span>, from: nat)
    requires from <= |t| && FindIter(u, t, ms, from)
    ensures Placed(ms, from, |t|) && Delimited(t, ms)
    decreases |ms|
  {
    if ms != [] {
      FindIterPlaced(u, t, ms[1..], ms[0].end);
      assert Delimited(t, [ms[0]]);
      PlacedCons(t, ms[0], ms[1..], from);
      assert ms == [ms[0]] + ms[1..];
    }
  }

  /** Every span of `ms` runs from a `%` to a conversion. */
  predicate Delimited(t: string, ms: seq<Span>) {
    forall k :: 0 <= k < |ms| ==> ms[k].start < ms[k].end <= |t| && t[ms[k].start] == '%' && IsConversion(t[ms[k].end - 1])
  }

  lemma PlacedCons(t: string, s0: Span, rest: seq<Span>, from: nat)
    requires from <= s0.start && Delimited(t, [s0])
    requires Placed(rest, s0.end, |t|) && Delimited(t, rest)
    ensures Placed([s0] + rest, from, |t|) && Delimited(t, [s0] + rest)
  {
    var ms := [s0] + rest;
    assert [s0][0] == s0 == ms[0];
    forall k | 1 <= k < |ms| ensures ms[k] == rest[k - 1] { }
  }

  lemma FindIterCons(u: UnicodeTables, t: string, from: nat, e: nat, rest: seq<Span>)
    requires from < e <= |t| && MatchAt(u, t, from) == Some(e) && FindIter(u, t, rest, e)
    ensures FindIter(u, t, [Span(from, e)] + rest, from)
  {
    assert ([Span(from, e)] + rest)[1..] == rest;
  }

  lemma FindIterSkip(u: UnicodeTables, t: string, from: nat, rest: seq<Span>)
    requires from < |t| && MatchAt(u, t, from).None? && FindIter(u, t, rest, from + 1)
    ensures FindIter(u, t, rest, from)
  {
    if rest == [] {
      NoMatchExtend(u, t, from, |t|);
    } else {
      NoMatchExtend(u, t, from, rest[0].start);
    }
  }

  lemma NoMatchExtend(u: UnicodeTables, t: string, a: nat, b: nat)
    requires a < b <= |t|
    requires MatchAt(u, t, a).None? && NoMatchIn(u, t, a + 1, b)
    ensures NoMatchIn(u, t, a, b)
  {
  }



  // ---------------------------------------------------------------------------
  // The recogniser accepts exactly the grammar

  /** A character that ends a flag run, a count and a precision: what may follow them. */
  predicate IsStop(u: UnicodeTables, c: char) {
    !IsFlag(c) && !IsDecimalDigit(u, c) && c != '*'
  }

  lemma FlagsEndExact(t: string, q: nat, e: nat)
    requires q <= e < |t|
    requires forall x :: q <= x < e ==> IsFlag(t[x])
    requires !IsFlag(t[e])
    ensures FlagsEnd(t, q) == e
    decreases e - q
  {
    if q < e { FlagsEndExact(t, q + 1, e); }
  }

  lemma DigitsEndExact(u: UnicodeTables, t: string, q: nat, e: nat)
    requires q <= e < |t|
    requires forall x :: q <= x < e ==> IsDecimalDigit(u, t[x])
    requires !IsDecimalDigit(u, t[e])
    ensures DigitsEnd(u, t, q) == e
    decreases e - q
  {
    if q < e { DigitsEndExact(u, t, q + 1, e); }
  }

  /** A count (or nothing) at [a, b) followed by a stop character is consumed exactly. */
  lemma CountEndExact(u: UnicodeTables, t: string, a: nat, b: nat)
    requires a <= b < |t|
    requires WidthIn(u, t, a, b) && IsStop(u, t[b])
    ensures CountEnd(u, t, a) == b
  {
    if !(b == a + 1 && t[a] == '*') {
      DigitsEndExact(u, t, a, b);
    }
  }

  /** The characters right after the width and right after the precision of a TAIL. */
  lemma TailStops(u: UnicodeTables, t: string, q: nat, f: nat, w: nat, p: nat, l: nat, e: nat)
    requires TailSplit(u, t, q, f, w, p, l, e)
    ensures IsStop(u, t[w]) && IsStop(u, t[p])
    ensures w == p ==> t[w] != '.'
    ensures p == l ==> !IsLengthModifier(t[p])
    ensures q < |t| && t[q] != '('
  {
  }

  /** TailEnd only accepts a TAIL. */
  lemma TailEndSound(u: UnicodeTables, t: string, q: nat)
    requires q <= |t|
    requires TailEnd(u, t, q).Some?
    ensures TailIn(u, t, q, TailEnd(u, t, q).value)
  {
    var e := TailEnd(u, t, q).value;
    var f := FlagsEnd(t, q);
    var w := CountEnd(u, t, f);
    var p := PrecisionEnd(u, t, w).value;
    assert TailSplit(u, t, q, f, w, p, e - 1, e);
  }

  /** The greedy flag run stops inside the width, which it can only shorten by leading zeros. */
  lemma FlagsThenWidth(u: UnicodeTables, t: string, q: nat, f: nat, w: nat, p: nat, l: nat, e: nat)
    requires TailSplit(u, t, q, f, w, p, l, e)
    ensures CountEnd(u, t, FlagsEnd(t, q)) == w
  {
    TailStops(u, t, q, f, w, p, l, e);
    if w == f + 1 && t[f] == '*' {
      FlagsEndExact(t, q, f);
      CountEndExact(u, t, f, w);
    } else {
      var g := FlagsEndAtMost(t, q, f, w);
      assert WidthIn(u, t, g, w);
      CountEndExact(u, t, g, w);
    }
  }

  /** The greedy flag run from q covers the flags [q, f) and stops at w at the latest. */
  lemma FlagsEndAtMost(t: string, q: nat, f: nat, w: nat) returns (g: nat)
    requires q <= f <= w < |t|
    requires forall x :: q <= x < f ==> IsFlag(t[x])
    requires !IsFlag(t[w])
    ensures g == FlagsEnd(t, q) && f <= g <= w
    decreases f - q
  {
    if q < f {
      g := FlagsEndAtMost(t, q + 1, f, w);
    } else {
      g := FlagsEnd(t, q);
    }
  }

  /** Every TAIL at q is found by TailEnd, with the same end. */
  lemma TailEndComplete(u: UnicodeTables, t: string, q: nat, e: nat)
    requires TailIn(u, t, q, e)
    ensures TailEnd(u, t, q) == Some(e)
  {
    var f: nat, w: nat, p: nat, l: nat :| TailSplit(u, t, q, f, w, p, l, e);
    TailStops(u, t, q, f, w, p, l, e);
    FlagsThenWidth(u, t, q, f, w, p, l, e);
    if w < p {
      CountEndExact(u, t, w + 1, p);
    }
    assert PrecisionEnd(u, t, w) == Some(p);
  }

  lemma IndexFromExact(t: string, q: nat, c: nat, ch: char)
    requires q <= c < |t| && t[c] == ch
    requires forall x :: q <= x < c ==> t[x] != ch
    ensures IndexFrom(t, q, ch) == Some(c)
    decreases c - q
  {
    if q < c { IndexFromExact(t, q + 1, c, ch); }
  }

  /** MatchAt only reports ranges the regular expression matches. */
  lemma MatchAtSound(u: UnicodeTables, t: string, a: nat)
    requires a <= |t|
    requires MatchAt(u, t, a).Some?
    ensures SpecifierIn(u, t, a, MatchAt(u, t, a).value)
  {
    var e := MatchAt(u, t, a).value;
    if NamedEnd(u, t, a).Some? {
      var c := IndexFrom(t, a + 2, ')').value;
      TailEndSound(u, t, c + 1);
      assert NamedSplit(u, t, a, c, e);
    } else {
      TailEndSound(u, t, a + 1);
    }
  }

  lemma NamedComplete(u: UnicodeTables, t: string, a: nat, e: nat)
    requires NamedIn(u, t, a, e)
    ensures a <= |t| && NamedEnd(u, t, a) == Some(e)
  {
    var c: nat :| NamedSplit(u, t, a, c, e);
    IndexFromExact(t, a + 2, c, ')');
    TailEndComplete(u, t, c + 1, e);
    NamedEndAt(u, t, a, c);
  }

  lemma NamedEndAt(u: UnicodeTables, t: string, a: nat, c: nat)
    requires a + 2 < c < |t| && t[a] == '%' && t[a + 1] == '('
    requires IndexFrom(t, a + 2, ')') == Some(c)
    ensures NamedEnd(u, t, a) == TailEnd(u, t, c + 1)
  {
  }

  lemma PositionalComplete(u: UnicodeTables, t: string, a: nat, e: nat)
    requires PositionalIn(u, t, a, e)
    ensures NamedEnd(u, t, a).None? && PositionalEnd(u, t, a) == Some(e)
  {
    TailEndComplete(u, t, a + 1, e);
    var f: nat, w: nat, p: nat, l: nat :| TailSplit(u, t, a + 1, f, w, p, l, e);
    TailStops(u, t, a + 1, f, w, p, l, e);
  }

  /** MatchAt finds every range the regular expression matches, so the end of a match is unique. */
  lemma MatchAtComplete(u: UnicodeTables, t: string, a: nat, e: nat)
    requires SpecifierIn(u, t, a, e)
    ensures a <= |t| && MatchAt(u, t, a) == Some(e)
  {
    if NamedIn(u, t, a, e) {
      NamedComplete(u, t, a, e);
    } else {
      PositionalComplete(u, t, a, e);
    }
  }

  /** Every span `find_iter` reports is a match of the regular expression. */
  lemma {:induction false} FindIterSound(u: UnicodeTables, t: string, ms: seq<Span>, from: nat)
    requires from <= |t|
    requires FindIter(u, t, ms, from)
    ensures forall k :: 0 <= k < |ms| ==> SpecifierIn(u, t, ms[k].start, ms[k].end)
    decreases |ms|
  {
    if ms != [] {
      FindIterSound(u, t, ms[1..], ms[0].end);
      MatchAtSound(u, t, ms[0].start);
      forall k | 1 <= k < |ms| ensures ms[k] == ms[1..][k - 1] { }
    }
  }

  /**
   * Every range the regular expression matches at or after `from` starts
   * inside one of the spans: no match is skipped, and one that starts inside
   * an earlier match is hidden by it.
   */
  lemma {:induction false} FindIterCovers(u: UnicodeTables, t: string, ms: seq<Span>, from: nat, a: nat, e: nat)
    requires from <= |t|
    requires FindIter(u, t, ms, from)
    requires from <= a && SpecifierIn(u, t, a, e)
    ensures exists k :: 0 <= k < |ms| && ms[k].start <= a < ms[k].end
    decreases |ms|
  {
    MatchAtComplete(u, t, a, e);
    if ms == [] || a < ms[0].start {
      assert false;
    } else if a < ms[0].end {
      assert ms[0].start <= a < ms[0].end;
    } else {
      FindIterCovers(u, t, ms[1..], ms[0].end, a, e);
      var k :| 0 <= k < |ms[1..]| && ms[1..][k].start <= a < ms[1..][k].end;
      assert ms[k + 1] == ms[1..][k];
    }
  }

  /** The spans of Scan are exactly the specifiers `find_iter` reports. */
  lemma ScanMatchesGrammar(u: UnicodeTables, t: string)
    ensures var ms := Scan(u, t, 0);
      forall k :: 0 <= k < |ms| ==> SpecifierIn(u, t, ms[k].start, ms[k].end)
    ensures var ms := Scan(u, t, 0);
      forall a: nat, e: nat :: SpecifierIn(u, t, a, e) ==>
        exists k :: 0 <= k < |ms| && ms[k].start <= a < ms[k].end
  {
    var ms := Scan(u, t, 0);
    FindIterSound(u, t, ms, 0);
    forall a: nat, e: nat | SpecifierIn(u, t, a, e)
      ensures exists k :: 0 <= k < |ms| && ms[k].start <= a < ms[k].end
    {
      FindIterCovers(u, t, ms, 0, a, e);
    }
  }
}
