/**
 * `format_python_string`: Python's `template % args` as the finder emulates
 * it. `PercentFormat` states the result as a function of the template, the
 * positional arguments and the keyword arguments: every specifier the scan
 * finds is replaced by its substitution, the text between specifiers is kept,
 * and one failing substitution makes the whole result None.
 * `FormatPythonString` is the source's loop, which rewrites a copy of the
 * template in place from the last specifier to the first while counting the
 * positional arguments it has used; it is proved to compute `PercentFormat`.
 */
module PythonFormat {
  import opened Wrappers
  import opened RustText
  import opened SpecifierScan
  import opened Conversions

  type Kwargs = seq<(string, FinderType)>

  /** The text of one match. */
  function SpecText(t: string, s: Span): string
    requires s.start <= s.end <= |t|
  {
    t[s.start..s.end]
  }

  /** `specifier.starts_with("%(")`. */
  predicate IsNamed(spec: string) {
    |spec| >= 2 && spec[0] == '%' && spec[1] == '('
  }

  /** A specifier that takes the next positional argument: neither `%%` nor named. */
  predicate IsPositional(spec: string) {
    spec != "%%" && !IsNamed(spec)
  }

  /** The number of positional specifiers among `ms[k..]`. */
  function PositionalCount(t: string, ms: seq<Span>, k: nat): nat
    requires Placed(ms, 0, |t|) && k <= |ms|
    decreases |ms| - k
  {
    if k == |ms| then 0
    else (if IsPositional(SpecText(t, ms[k])) then 1 else 0) + PositionalCount(t, ms, k + 1)
  }

  /** The number of positional specifiers among `ms[..k]`. */
  function PositionalBefore(t: string, ms: seq<Span>, k: nat): nat
    requires Placed(ms, 0, |t|) && k <= |ms|
  {
    if k == 0 then 0
    else PositionalBefore(t, ms, k - 1) + (if IsPositional(SpecText(t, ms[k - 1])) then 1 else 0)
  }

  /** `kwargs.iter().find(|(k, _)| k == key).map(|(_, v)| v)`: the value of the first entry named `key`. */
  function Lookup(kwargs: Kwargs, key: string): (r: Option<FinderType>)
    ensures r.Some? ==> exists i :: 0 <= i < |kwargs| && kwargs[i] == (key, r.value)
                                    && forall j :: 0 <= j < i ==> kwargs[j].0 != key
    ensures r.None? <==> forall i :: 0 <= i < |kwargs| ==> kwargs[i].0 != key
  {
    if kwargs == [] then None
    else if kwargs[0].0 == key then Some(kwargs[0].1)
    else
      var r := Lookup(kwargs[1..], key);
      if r.None? then r
      else
        var i :| 0 <= i < |kwargs[1..]| && kwargs[1..][i] == (key, r.value)
                 && forall j :: 0 <= j < i ==> kwargs[1..][j].0 != key;
        assert kwargs[i + 1] == (key, r.value);
        assert forall j :: 1 <= j < i + 1 ==> kwargs[j] == kwargs[1..][j - 1];
        r
  }

  /** The key of a named specifier: what lies between `%(` and the first `)`. */
  function NamedKey(spec: string): (r: Option<string>)
    requires IsNamed(spec)
    ensures r.Some? ==> ')' !in r.value && |r.value| <= |spec| - 3
    ensures r.Some? ==> spec[..|r.value| + 3] == "%(" + r.value + ")"
  {
    match IndexOf(spec, ')')
    case None => None
    case Some(keyEnd) =>
      assert spec[..keyEnd] == "%(" + spec[2..keyEnd];
      Some(spec[2..keyEnd])
  }

  /**
   * The argument a specifier other than `%%` takes: the keyword argument named
   * by its key, or, for a positional one, `args[len - 1 - index]` where
   * `index` counts the positional specifiers to its right. None when the key
   * is missing or the arguments have run out.
   */
  function Argument(spec: string, index: nat, args: seq<FinderType>, kwargs: Kwargs): Option<FinderType> {
    if IsNamed(spec) then
      match NamedKey(spec)
      case None => None
      case Some(key) => Lookup(kwargs, key)
    else if index >= |args| then None
    else Some(args[|args| - 1 - index])
  }

  /** The replacement of one specifier: `%` for `%%`, else its argument converted by its last character. */
  function SpecSubstitution(env: Collaborators, spec: string, index: nat, args: seq<FinderType>, kwargs: Kwargs): Option<string>
    requires spec != []
  {
    if spec == "%%" then Some("%")
    else
      match Argument(spec, index, args, kwargs)
      case None => None
      case Some(value) => Replacement(env, spec, spec[|spec| - 1], value)
  }

  /** The replacement of match `j`, whose positional index is the count of positional matches after it. */
  function Substitution(env: Collaborators, t: string, ms: seq<Span>, j: nat, args: seq<FinderType>, kwargs: Kwargs): Option<string>
    requires Placed(ms, 0, |t|) && j < |ms|
  {
    SpecSubstitution(env, SpecText(t, ms[j]), PositionalCount(t, ms, j + 1), args, kwargs)
  }

  /** The substitutions of all the matches, in order. */
  function Substitutions(env: Collaborators, t: string, ms: seq<Span>, args: seq<FinderType>, kwargs: Kwargs): (r: seq<Option<string>>)
    requires Placed(ms, 0, |t|)
    ensures |r| == |ms|
    ensures forall j :: 0 <= j < |ms| ==> r[j] == Substitution(env, t, ms, j, args, kwargs)
  {
    seq(|ms|, j requires 0 <= j < |ms| => Substitution(env, t, ms, j, args, kwargs))
  }

  /** The values of `opts` when every one of them is present, or None as soon as one is missing. */
  function AllPresent(opts: seq<Option<string>>): (r: Option<seq<string>>)
    ensures r.Some? <==> forall j :: 0 <= j < |opts| ==> opts[j].Some?
    ensures r.Some? ==> |r.value| == |opts| && forall j :: 0 <= j < |opts| ==> opts[j] == Some(r.value[j])
  {
    if opts == [] then Some([])
    else
      var rest := AllPresent(opts[1..]);
      if opts[0].None? || rest.None? then None
      else
        assert forall j :: 1 <= j < |opts| ==> opts[j] == opts[1..][j - 1];
        Some([opts[0].value] + rest.value)
  }

  /** Present values gathered from the back: one more in front of those already gathered. */
  lemma AllPresentStep(opts: seq<Option<string>>, k: nat, rep: string, done: seq<string>)
    requires k < |opts| && opts[k] == Some(rep) && AllPresent(opts[k + 1..]) == Some(done)
    ensures AllPresent(opts[k..]) == Some([rep] + done)
  {
    assert opts[k..][1..] == opts[k + 1..];
  }

  /** Where the text before specifier `k` may start: the end of specifier `k - 1`. */
  function Bound(ms: seq<Span>, k: nat): nat
    requires k <= |ms|
  {
    if k == 0 then 0 else ms[k - 1].end
  }

  /** `t[from..]` with specifiers `k..` replaced by `reps`, in order. */
  function Splice(t: string, ms: seq<Span>, k: nat, reps: seq<string>, from: nat): string
    requires Placed(ms, 0, |t|) && k <= |ms| && |reps| == |ms| - k
    requires from <= |t| && (k < |ms| ==> from <= ms[k].start)
    decreases |ms| - k
  {
    if k == |ms| then t[from..]
    else
      assert k + 1 < |ms| ==> ms[k].end <= ms[k + 1].start;
      t[from..ms[k].start] + reps[0] + Splice(t, ms, k + 1, reps[1..], ms[k].end)
  }

  /** The template with every match in `ms` replaced by its substitution, or None when one fails. */
  function Render(env: Collaborators, t: string, ms: seq<Span>, args: seq<FinderType>, kwargs: Kwargs): Option<string>
    requires Placed(ms, 0, |t|)
  {
    match AllPresent(Substitutions(env, t, ms, args, kwargs))
    case None => None
    case Some(reps) => Some(Splice(t, ms, 0, reps, 0))
  }

  /** The result of `format_python_string(template, args, kwargs)`. */
  function PercentFormat(env: Collaborators, template: string, args: seq<FinderType>, kwargs: Kwargs): Option<string> {
    var ms := Scan(env.unicode, template, 0);
    FindIterPlaced(env.unicode, template, ms, 0);
    Render(env, template, ms, args, kwargs)
  }

  /** `format_python_string`: collects the matches of the specifier pattern, then replaces them. */
  method FormatPythonString(env: Collaborators, formatStr: string, args: seq<FinderType>, kwargs: Kwargs)
    returns (r: Option<string>)
    ensures r == PercentFormat(env, formatStr, args, kwargs)
  {
    var matches := Scan(env.unicode, formatStr, 0);
    FindIterPlaced(env.unicode, formatStr, matches, 0);
    r := ReplaceMatches(env, formatStr, matches, args, kwargs);
  }

  /**
   * The loop of `format_python_string`: walks the matches from the last to
   * the first, replacing each range of `result` in place. Ranges to the left
   * of the one being replaced still hold their template offsets because every
   * later replacement happened further right.
   */
  method ReplaceMatches(env: Collaborators, formatStr: string, matches: seq<Span>, args: seq<FinderType>, kwargs: Kwargs)
    returns (r: Option<string>)
    requires Placed(matches, 0, |formatStr|)
    ensures r == Render(env, formatStr, matches, args, kwargs)
  {
    var result := formatStr;
    var valueIndex := 0;
    var k := |matches|;
    ghost var subs := Substitutions(env, formatStr, matches, args, kwargs);
    ghost var done: seq<string> := [];
    while k > 0
      invariant 0 <= k <= |matches|
      invariant valueIndex == PositionalCount(formatStr, matches, k)
      invariant AllPresent(subs[k..]) == Some(done)
      invariant result == formatStr[..Bound(matches, k)] + Splice(formatStr, matches, k, done, Bound(matches, k))
      decreases k
    {
      k := k - 1;
      var m := matches[k];
      var specifier := formatStr[m.start..m.end];
      assert specifier == SpecText(formatStr, matches[k]);
      var replacement := ReplaceOne(env, specifier, valueIndex, args, kwargs);
      SubstitutionIs(env, formatStr, matches, k, args, kwargs, specifier, valueIndex);
      if replacement.None? {
        RenderFails(env, formatStr, matches, k, args, kwargs);
        return None;
      }
      if IsPositional(specifier) {
        valueIndex := valueIndex + 1;
      }
      AllPresentStep(subs, k, replacement.value, done);
      SpliceStep(formatStr, matches, k, replacement.value, done, result);
      result := result[..m.start] + replacement.value + result[m.end..];
      done := [replacement.value] + done;
    }
    assert subs[0..] == subs;
    RenderSucceeds(env, formatStr, matches, args, kwargs, done);
    return Some(result);
  }

  /**
   * The body of the loop for one specifier: `%` for `%%`; otherwise the
   * argument, looked up by key for a named specifier or taken at
   * `valueIndex` from the end of `args`, converted by the last character.
   * It is `SpecSubstitution` written as the source's statements, with an
   * early return at each `?` and `return None`.
   */
  method ReplaceOne(env: Collaborators, specifier: string, valueIndex: nat, args: seq<FinderType>, kwargs: Kwargs)
    returns (replacement: Option<string>)
    requires specifier != []
    ensures replacement == SpecSubstitution(env, specifier, valueIndex, args, kwargs)
  {
    if specifier == "%%" {
      return Some("%");
    }
    var value: FinderType;
    if IsNamed(specifier) {
      var keyEnd := IndexOf(specifier, ')');
      if keyEnd.None? {
        return None;
      }
      var key := specifier[2..keyEnd.value];
      var found := Lookup(kwargs, key);
      if found.None? {
        return None;
      }
      value := found.value;
    } else {
      if valueIndex >= |args| {
        return None;
      }
      value := args[|args| - 1 - valueIndex];
    }
    var conv := specifier[|specifier| - 1];
    replacement := Replacement(env, specifier, conv, value);
  }

  /** One step of the loop keeps the relation between `result` and the template. */
  lemma SpliceStep(t: string, ms: seq<Span>, k: nat, rep: string, done: seq<string>, result: string)
    requires Placed(ms, 0, |t|) && k < |ms| && |done| == |ms| - k - 1
    requires result == t[..Bound(ms, k + 1)] + Splice(t, ms, k + 1, done, Bound(ms, k + 1))
    ensures ms[k].end <= |result|
    ensures result[..ms[k].start] + rep + result[ms[k].end..]
         == t[..Bound(ms, k)] + Splice(t, ms, k, [rep] + done, Bound(ms, k))
  {
    var s, e := ms[k].start, ms[k].end;
    var b := Bound(ms, k);
    assert k > 0 ==> ms[k - 1].end <= s;
    var rest := Splice(t, ms, k + 1, done, e);
    assert result[..s] == t[..s];
    assert result[e..] == rest;
    assert ([rep] + done)[1..] == done;
    assert Splice(t, ms, k, [rep] + done, b) == t[b..s] + rep + rest;
    assert t[..b] + t[b..s] == t[..s];
  }

  /** The substitution of match `k` in terms of its text and the count of positional matches after it. */
  lemma SubstitutionIs(env: Collaborators, t: string, ms: seq<Span>, k: nat, args: seq<FinderType>, kwargs: Kwargs,
                       spec: string, index: nat)
    requires Placed(ms, 0, |t|) && k < |ms|
    requires spec == SpecText(t, ms[k]) && index == PositionalCount(t, ms, k + 1)
    ensures spec != []
    ensures Substitution(env, t, ms, k, args, kwargs) == SpecSubstitution(env, spec, index, args, kwargs)
  {
  }

  /** A failing substitution makes the whole result None. */
  lemma RenderFails(env: Collaborators, t: string, ms: seq<Span>, k: nat, args: seq<FinderType>, kwargs: Kwargs)
    requires Placed(ms, 0, |t|) && k < |ms|
    requires Substitution(env, t, ms, k, args, kwargs).None?
    ensures Render(env, t, ms, args, kwargs).None?
  {
    assert Substitutions(env, t, ms, args, kwargs)[k].None?;
  }

  /** Once every substitution is present, `Render` is the splice of all of them: the step that closes the loop. */
  lemma RenderSucceeds(env: Collaborators, t: string, ms: seq<Span>, args: seq<FinderType>, kwargs: Kwargs, reps: seq<string>)
    requires Placed(ms, 0, |t|) && |reps| == |ms|
    requires AllPresent(Substitutions(env, t, ms, args, kwargs)) == Some(reps)
    ensures Render(env, t, ms, args, kwargs) == Some(t[..Bound(ms, 0)] + Splice(t, ms, 0, reps, Bound(ms, 0)))
  {
    var body := Splice(t, ms, 0, reps, 0);
    assert t[..0] + body == body;
  }
}
