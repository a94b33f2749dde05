/**
 * What `format_python_string` promises, proved about `PercentFormat` and
 * `Render` (and therefore, by the ensures of `FormatPythonString`, about the
 * loop itself): which specifiers are found, which argument each of them
 * takes, when the whole result is None, and that the text around the
 * specifiers is kept.
 */
module FormatProperties {
  import opened Wrappers
  import opened RustText
  import opened SpecifierScan
  import opened Conversions
  import opened PythonFormat

  // ---------------------------------------------------------------------------
  // The scan

  /** Two `find_iter` results over the same text from the same position agree. */
  lemma {:induction false} FindIterUnique(u: UnicodeTables, t: string, ms: seq<Span>, ns: seq<Span>, from: nat)
    requires from <= |t| && FindIter(u, t, ms, from) && FindIter(u, t, ns, from)
    ensures ms == ns
    decreases |ms|
  {
    if ms == [] || ns == [] {
      BothEmpty(u, t, ms, ns, from);
    } else {
      SameFirst(u, t, ms, ns, from);
      FindIterUnique(u, t, ms[1..], ns[1..], ms[0].end);
      assert ms == [ms[0]] + ms[1..] && ns == [ns[0]] + ns[1..];
    }
  }

  /** When one `find_iter` result is empty, so is any other. */
  lemma BothEmpty(u: UnicodeTables, t: string, ms: seq<Span>, ns: seq<Span>, from: nat)
    requires from <= |t| && FindIter(u, t, ms, from) && FindIter(u, t, ns, from)
    requires ms == [] || ns == []
    ensures ms == [] && ns == []
  {
  }

  /** Two non-empty `find_iter` results start with the same match. */
  lemma SameFirst(u: UnicodeTables, t: string, ms: seq<Span>, ns: seq<Span>, from: nat)
    requires from <= |t| && FindIter(u, t, ms, from) && FindIter(u, t, ns, from)
    requires ms != [] && ns != []
    ensures ms[0] == ns[0] && FindIter(u, t, ms[1..], ms[0].end) && FindIter(u, t, ns[1..], ms[0].end)
  {
  }

  /** Every match starts with `%`, so a text without one has no match. */
  lemma NoPercentNoMatches(u: UnicodeTables, t: string)
    requires '%' !in t
    ensures Scan(u, t, 0) == []
  {
    var ms := Scan(u, t, 0);
    FindIterPlaced(u, t, ms, 0);
  }

  /** No match ends in `F`: `%F` is not a specifier, whatever precedes it. */
  lemma NoMatchEndsInF(u: UnicodeTables, t: string, k: nat)
    requires k < |Scan(u, t, 0)|
    ensures var m := Scan(u, t, 0)[k]; 0 < m.end <= |t| && t[m.end - 1] != 'F'
  {
    FindIterPlaced(u, t, Scan(u, t, 0), 0);
  }

  /**
   * A match that starts with `%(` is an instance of the named alternative, so
   * it holds a `)` and its key (the text between `%(` and the first `)`) is
   * the non-empty key the regular expression captured: the source's failure
   * for a named specifier without `)` cannot happen.
   */
  lemma ScannedNamedHasKey(u: UnicodeTables, t: string, k: nat)
    requires k < |Scan(u, t, 0)|
    ensures var ms := Scan(u, t, 0);
            Placed(ms, 0, |t|)
            && (IsNamed(SpecText(t, ms[k])) ==>
                  var key := NamedKey(SpecText(t, ms[k]));
                  key.Some? && key.value != [] && ')' !in key.value)
  {
    var ms := Scan(u, t, 0);
    FindIterPlaced(u, t, ms, 0);
    FindIterSound(u, t, ms, 0);
    NamedMatchHasKey(u, t, ms[k].start, ms[k].end);
  }

  lemma NamedMatchHasKey(u: UnicodeTables, t: string, a: nat, e: nat)
    requires a < e <= |t| && SpecifierIn(u, t, a, e)
    ensures IsNamed(t[a..e]) ==>
              var key := NamedKey(t[a..e]);
              key.Some? && key.value != [] && ')' !in key.value
  {
    var spec := t[a..e];
    if IsNamed(spec) {
      assert t[a + 1] == spec[1];
      var c := NamedAlternative(u, t, a, e);
      KeyEndOfNamed(u, t, a, c, e);
    }
  }

  /** A match whose second character is `(` can only be the named alternative. */
  lemma NamedAlternative(u: UnicodeTables, t: string, a: nat, e: nat) returns (c: nat)
    requires SpecifierIn(u, t, a, e) && a + 1 < |t| && t[a + 1] == '('
    ensures NamedSplit(u, t, a, c, e)
  {
    if PositionalIn(u, t, a, e) {
      var f: nat, w: nat, p: nat, l: nat :| TailSplit(u, t, a + 1, f, w, p, l, e);
      TailStops(u, t, a + 1, f, w, p, l, e);
    }
    c :| NamedSplit(u, t, a, c, e);
  }

  /** In the text of a named match, the first `)` is the one that closes the key. */
  lemma KeyEndOfNamed(u: UnicodeTables, t: string, a: nat, c: nat, e: nat)
    requires NamedSplit(u, t, a, c, e)
    ensures IsNamed(t[a..e]) && NamedKey(t[a..e]) == Some(t[a..e][2..c - a])
  {
    var spec := t[a..e];
    assert spec[c - a] == ')';
    assert ')' !in spec[..c - a] by {
      forall x | 0 <= x < c - a ensures spec[x] != ')' {
        assert spec[x] == t[a + x];
      }
    }
    IndexOfExact(spec, ')', c - a);
  }

  // ---------------------------------------------------------------------------
  // Text outside the specifiers

  /**
   * A template in which the scan finds no specifier comes back unchanged,
   * whatever the arguments: `"100%"`, `"5% off"` and `"%F"` as much as text
   * without any `%`.
   */
  lemma NoSpecifierUnchanged(env: Collaborators, t: string, args: seq<FinderType>, kwargs: Kwargs)
    requires Scan(env.unicode, t, 0) == []
    ensures PercentFormat(env, t, args, kwargs) == Some(t)
  {
    assert t[0..] == t;
  }

  /** A template without `%` comes back unchanged, whatever the arguments. */
  lemma TextWithoutPercent(env: Collaborators, t: string, args: seq<FinderType>, kwargs: Kwargs)
    requires '%' !in t
    ensures PercentFormat(env, t, args, kwargs) == Some(t)
  {
    NoPercentNoMatches(env.unicode, t);
    NoSpecifierUnchanged(env, t, args, kwargs);
  }

  /** Replacing every match by its own text gives the text back: only the matches change. */
  lemma {:induction false} SpliceOwnText(t: string, ms: seq<Span>, k: nat, reps: seq<string>, from: nat)
    requires Placed(ms, 0, |t|) && k <= |ms| && |reps| == |ms| - k
    requires from <= |t| && (k < |ms| ==> from <= ms[k].start)
    requires forall j :: 0 <= j < |reps| ==> reps[j] == SpecText(t, ms[k + j])
    ensures Splice(t, ms, k, reps, from) == t[from..]
    decreases |ms| - k
  {
    if k < |ms| {
      var s, e := ms[k].start, ms[k].end;
      assert k + 1 < |ms| ==> e <= ms[k + 1].start;
      assert forall j :: 0 <= j < |reps[1..]| ==> reps[1..][j] == reps[j + 1];
      SpliceOwnText(t, ms, k + 1, reps[1..], e);
      assert t[from..s] + t[s..e] + t[e..] == t[from..];
    }
  }

  /** Text after the last match is kept at the end of the result. */
  lemma {:induction false} SpliceKeepsSuffix(t: string, ms: seq<Span>, k: nat, reps: seq<string>, from: nat)
    requires Placed(ms, 0, |t|) && k <= |ms| && |reps| == |ms| - k
    requires from <= |t| && (k < |ms| ==> from <= ms[k].start)
    ensures var tail := if ms == [] then from else if k < |ms| then ms[|ms| - 1].end else from;
            var out := Splice(t, ms, k, reps, from);
            tail <= |t| && |t| - tail <= |out| && out[|out| - (|t| - tail)..] == t[tail..]
    decreases |ms| - k
  {
    if k < |ms| {
      var e := ms[k].end;
      assert k + 1 < |ms| ==> e <= ms[k + 1].start;
      SpliceKeepsSuffix(t, ms, k + 1, reps[1..], e);
    }
  }

  /** A successful result keeps the text before the first match and after the last one. */
  lemma RenderKeepsEnds(env: Collaborators, t: string, ms: seq<Span>, args: seq<FinderType>, kwargs: Kwargs)
    requires Placed(ms, 0, |t|) && ms != []
    requires Render(env, t, ms, args, kwargs).Some?
    ensures var out := Render(env, t, ms, args, kwargs).value;
            var head := ms[0].start;
            var tail := ms[|ms| - 1].end;
            head <= |out| && out[..head] == t[..head]
            && |t| - tail <= |out| && out[|out| - (|t| - tail)..] == t[tail..]
  {
    var reps := AllPresent(Substitutions(env, t, ms, args, kwargs)).value;
    SpliceKeepsSuffix(t, ms, 0, reps, 0);
    var out := Splice(t, ms, 0, reps, 0);
    assert out == t[0..ms[0].start] + reps[0] + Splice(t, ms, 1, reps[1..], ms[0].end);
  }

  // ---------------------------------------------------------------------------
  // Failures

  /** The result is None exactly when some substitution fails. */
  lemma RenderSomeIff(env: Collaborators, t: string, ms: seq<Span>, args: seq<FinderType>, kwargs: Kwargs)
    requires Placed(ms, 0, |t|)
    ensures Render(env, t, ms, args, kwargs).Some?
        <==> forall j :: 0 <= j < |ms| ==> Substitution(env, t, ms, j, args, kwargs).Some?
  {
    var subs := Substitutions(env, t, ms, args, kwargs);
    assert forall j :: 0 <= j < |ms| ==> subs[j] == Substitution(env, t, ms, j, args, kwargs);
  }

  /**
   * A specifier other than `%%` that ends in `%` (such as `%5%` or `%(k)%`)
   * has no conversion arm, so the whole result is None.
   */
  lemma PercentConversionFails(env: Collaborators, t: string, ms: seq<Span>, j: nat, args: seq<FinderType>, kwargs: Kwargs)
    requires Placed(ms, 0, |t|) && j < |ms|
    requires var spec := SpecText(t, ms[j]); spec[|spec| - 1] == '%' && spec != "%%"
    ensures Render(env, t, ms, args, kwargs).None?
  {
    RenderFails(env, t, ms, j, args, kwargs);
  }

  /** A named specifier whose key no keyword argument has makes the whole result None. */
  lemma MissingKeyFails(env: Collaborators, t: string, ms: seq<Span>, j: nat, args: seq<FinderType>, kwargs: Kwargs, key: string)
    requires Placed(ms, 0, |t|) && j < |ms|
    requires IsNamed(SpecText(t, ms[j])) && NamedKey(SpecText(t, ms[j])) == Some(key)
    requires forall i :: 0 <= i < |kwargs| ==> kwargs[i].0 != key
    ensures Render(env, t, ms, args, kwargs).None?
  {
    assert SpecText(t, ms[j]) != "%%";
    RenderFails(env, t, ms, j, args, kwargs);
  }

  /** Among keyword arguments with the same name, the first one wins. */
  lemma {:induction false} FirstKeywordWins(kwargs: Kwargs, more: Kwargs, key: string)
    requires Lookup(kwargs, key).Some?
    ensures Lookup(kwargs + more, key) == Lookup(kwargs, key)
  {
    if kwargs[0].0 != key {
      assert (kwargs + more)[1..] == kwargs[1..] + more;
      FirstKeywordWins(kwargs[1..], more, key);
    }
  }

  // ---------------------------------------------------------------------------
  // Positional arguments

  /** The positional specifiers before `k` and from `k` on add up to all of them. */
  lemma {:induction false} PositionalSplit(t: string, ms: seq<Span>, k: nat)
    requires Placed(ms, 0, |t|) && k <= |ms|
    ensures PositionalBefore(t, ms, k) + PositionalCount(t, ms, k) == PositionalCount(t, ms, 0)
  {
    if k > 0 {
      PositionalSplit(t, ms, k - 1);
    }
  }

  /**
   * With `P` positional specifiers and at least `P` arguments, the positional
   * specifier that has `b` positional specifiers to its left takes
   * `args[len - P + b]`: the last `P` arguments, consumed from the left.
   */
  lemma PositionalFromLeft(t: string, ms: seq<Span>, j: nat, args: seq<FinderType>, kwargs: Kwargs)
    requires Placed(ms, 0, |t|) && j < |ms|
    requires IsPositional(SpecText(t, ms[j])) && PositionalCount(t, ms, 0) <= |args|
    ensures var spec := SpecText(t, ms[j]);
            var index := |args| - PositionalCount(t, ms, 0) + PositionalBefore(t, ms, j);
            0 <= index < |args|
            && Argument(spec, PositionalCount(t, ms, j + 1), args, kwargs) == Some(args[index])
  {
    PositionalSplit(t, ms, j);
  }

  /** With exactly as many arguments as positional specifiers, the order is Python's: left to right. */
  lemma PositionalInOrder(t: string, ms: seq<Span>, j: nat, args: seq<FinderType>, kwargs: Kwargs)
    requires Placed(ms, 0, |t|) && j < |ms|
    requires IsPositional(SpecText(t, ms[j])) && PositionalCount(t, ms, 0) == |args|
    ensures var spec := SpecText(t, ms[j]);
            PositionalBefore(t, ms, j) < |args|
            && Argument(spec, PositionalCount(t, ms, j + 1), args, kwargs) == Some(args[PositionalBefore(t, ms, j)])
  {
    PositionalFromLeft(t, ms, j, args, kwargs);
  }

  /** Arguments in front of the ones the positional specifiers use are ignored. */
  lemma SurplusArgumentsIgnored(env: Collaborators, t: string, ms: seq<Span>, extra: seq<FinderType>, args: seq<FinderType>, kwargs: Kwargs)
    requires Placed(ms, 0, |t|) && PositionalCount(t, ms, 0) <= |args|
    ensures Render(env, t, ms, extra + args, kwargs) == Render(env, t, ms, args, kwargs)
  {
    var long := Substitutions(env, t, ms, extra + args, kwargs);
    var short := Substitutions(env, t, ms, args, kwargs);
    forall j | 0 <= j < |ms| ensures long[j] == short[j] {
      if SpecText(t, ms[j]) != "%%" {
        SameArgument(t, ms, j, extra, args, kwargs);
      }
    }
    assert long == short;
  }

  /** The argument of a specifier other than `%%` does not depend on the unused leading arguments. */
  lemma SameArgument(t: string, ms: seq<Span>, j: nat, extra: seq<FinderType>, args: seq<FinderType>, kwargs: Kwargs)
    requires Placed(ms, 0, |t|) && j < |ms| && PositionalCount(t, ms, 0) <= |args|
    requires SpecText(t, ms[j]) != "%%"
    ensures var spec := SpecText(t, ms[j]);
            var index := PositionalCount(t, ms, j + 1);
            Argument(spec, index, extra + args, kwargs) == Argument(spec, index, args, kwargs)
  {
    if !IsNamed(SpecText(t, ms[j])) {
      PositionalSplit(t, ms, j);
      IndexPastPrefix(extra, args, |args| - 1 - PositionalCount(t, ms, j + 1));
    }
  }

  lemma IndexPastPrefix(extra: seq<FinderType>, args: seq<FinderType>, i: int)
    requires 0 <= i < |args|
    ensures (extra + args)[|extra| + i] == args[i]
  {
  }

  /** A template with no positional specifier does not look at the positional arguments. */
  lemma NoPositionalIgnoresArgs(env: Collaborators, t: string, ms: seq<Span>, args: seq<FinderType>, kwargs: Kwargs)
    requires Placed(ms, 0, |t|) && PositionalCount(t, ms, 0) == 0
    ensures Render(env, t, ms, args, kwargs) == Render(env, t, ms, [], kwargs)
  {
    SurplusArgumentsIgnored(env, t, ms, args, [], kwargs);
    assert args + [] == args;
  }

  /** The positional specifiers from `k` on include one with `PositionalCount(k) - 1` after it. */
  lemma {:induction false} LeftmostPositional(t: string, ms: seq<Span>, k: nat) returns (j: nat)
    requires Placed(ms, 0, |t|) && k <= |ms| && PositionalCount(t, ms, k) > 0
    ensures k <= j < |ms| && IsPositional(SpecText(t, ms[j]))
    ensures PositionalCount(t, ms, j + 1) == PositionalCount(t, ms, k) - 1
    decreases |ms| - k
  {
    if IsPositional(SpecText(t, ms[k])) {
      j := k;
    } else {
      j := LeftmostPositional(t, ms, k + 1);
    }
  }

  /** More positional specifiers than arguments make the whole result None. */
  lemma TooFewArguments(env: Collaborators, t: string, ms: seq<Span>, args: seq<FinderType>, kwargs: Kwargs)
    requires Placed(ms, 0, |t|) && PositionalCount(t, ms, 0) > |args|
    ensures Render(env, t, ms, args, kwargs).None?
  {
    var j := LeftmostPositional(t, ms, 0);
    RenderFails(env, t, ms, j, args, kwargs);
  }
}
