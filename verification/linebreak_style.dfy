/**
 * The `linebreak-style` rule
 * (packages/eslint-plugin-js/rules/linebreak-style/linebreak-style.ts): a
 * left-to-right scan over the line breaks of the text, reporting every one
 * that differs from the expected terminator with a fix that replaces it.
 */
module LinebreakStyle {
  import opened Wrappers
  import opened EditorConfig
  import opened Fixes

  /** Option 0 of the rule. */
  datatype LinebreakOption = OptUnix | OptWindows | OptEditorconfig
  {
    function Name(): string
    {
      match this
      case OptUnix => "unix"
      case OptWindows => "windows"
      case OptEditorconfig => "editorconfig"
    }
  }

  /** The `fallback` of option 1. */
  datatype LinebreakFallback = FallbackUnix | FallbackWindows | FallbackOff
  {
    function Name(): string
    {
      match this
      case FallbackUnix => "unix"
      case FallbackWindows => "windows"
      case FallbackOff => "off"
    }
  }

  /** `context.options`, both entries optional. */
  datatype Options = Options(style: Option<LinebreakOption>, fallback: Option<LinebreakFallback>)

  datatype MessageId = ExpectedLF | ExpectedCRLF | EditorconfigMissing

  /** The `messages` table; the `editorconfig` notice names the property behind this rule. */
  function MessageText(id: MessageId): (text: string)
    ensures text != ""
    ensures id == EditorconfigMissing ==> text == Message(LinebreakStyle)
  {
    match id
    case ExpectedLF => "Expected linebreaks to be 'LF' but found 'CRLF'."
    case ExpectedCRLF => "Expected linebreaks to be 'CRLF' but found 'LF'."
    case EditorconfigMissing => Message(LinebreakStyle)
  }

  /** The notice quotes `end_of_line`. */
  lemma NoticeText()
    ensures MessageText(EditorconfigMissing) == "`" + "end_of_line" + "`" + MessageTail
  {
    var names := PropNames(LinebreakStyle);
    assert names == ["end_of_line"];
    JoinShort(names, "` and `");
  }

  /** `options[0] || 'unix'`. */
  function Configured(options: Options): (v: Value)
    ensures v.Str? && Truthy(v)
    ensures v == Str("editorconfig") <==> options.style == Some(OptEditorconfig)
    ensures v == Str("unix") <==> options.style == None || options.style == Some(OptUnix)
  {
    match options.style
    case Some(s) => Str(s.Name())
    case None => Str("unix")
  }

  /** `options[1]?.fallback`. */
  function FallbackValue(options: Options): (v: Option<Value>)
    ensures v.None? <==> options.fallback.None?
    ensures v.Some? ==> v.value.Str? && Truthy(v.value)
  {
    match options.fallback
    case Some(f) => Some(Str(f.Name()))
    case None => None
  }

  /** `expectedLF ? '\n' : '\r\n'`. */
  function Terminator(expectLF: bool): (t: string)
    ensures 0 < |t| && t[|t| - 1] == '\n'
    ensures t == "\n" <==> expectLF
  {
    if expectLF then "\n" else "\r\n"
  }

  // ---------------------------------------------------------------------------
  // The line-break matcher, abstractly
  // ---------------------------------------------------------------------------

  /** One result of `pattern.exec(source)`: where the line break starts, and its text. */
  datatype Match = Match(index: nat, text: string)

  function End(m: Match): nat
  {
    m.index + |m.text|
  }

  /** The first `n` matches are non-empty and come left to right without overlapping. */
  predicate Disjoint(ms: seq<Match>, n: nat)
    requires n <= |ms|
  {
    (forall k :: 0 <= k < n ==> 0 < |ms[k].text|) &&
    (forall j, k :: 0 <= j < k < n ==> End(ms[j]) <= ms[k].index)
  }

  /** Fewer matches are disjoint too. */
  lemma DisjointPrefix(ms: seq<Match>, n: nat, m: nat)
    requires m <= n <= |ms| && Disjoint(ms, n)
    ensures Disjoint(ms, m)
  {
  }

  /**
   * What is assumed of the first `n` results of the global line-break
   * matcher: they are disjoint, and each is the text found at its index.
   */
  predicate MatchesFit(src: string, ms: seq<Match>, n: nat)
    requires n <= |ms|
  {
    Disjoint(ms, n) &&
    forall k :: 0 <= k < n ==> End(ms[k]) <= |src| && src[ms[k].index..End(ms[k])] == ms[k].text
  }

  /** The first `n` matches are disjoint and end inside a text of length `len`. */
  predicate Inside(ms: seq<Match>, n: nat, len: nat)
    requires n <= |ms|
  {
    Disjoint(ms, n) && (0 < n ==> End(ms[n - 1]) <= len)
  }

  /** Matches that fit a text lie inside it. */
  lemma MatchesFitInside(src: string, ms: seq<Match>, n: nat)
    requires n <= |ms| && MatchesFit(src, ms, n)
    ensures Inside(ms, n, |src|)
  {
    if n > 0 {
      assert End(ms[n - 1]) <= |src|;
    }
  }

  /** The matches before the `n`-th one fit too, and end by its start. */
  lemma MatchesFitFewer(src: string, ms: seq<Match>, n: nat)
    requires 0 < n <= |ms| && MatchesFit(src, ms, n)
    ensures MatchesFit(src, ms, n - 1) && Inside(ms, n - 1, ms[n - 1].index)
  {
    DisjointPrefix(ms, n, n - 1);
    if n > 1 {
      assert End(ms[n - 2]) <= ms[n - 1].index;
    }
  }

  // ---------------------------------------------------------------------------
  // checkForLinebreakStyle
  // ---------------------------------------------------------------------------

  /** `createFix`: replace the given range by the given text. */
  function CreateFix(start: nat, end: nat, text: string): Fix
  {
    Fix(start, end, text)
  }

  /** The fix `createFix` asks for keeps the text outside the range and puts `text` in it. */
  lemma CreateFixReplaces(s: string, start: nat, end: nat, text: string)
    requires start <= end <= |s|
    ensures Fits(CreateFix(start, end, text), |s|)
    ensures var t := ApplyFix(s, CreateFix(start, end, text));
      t[..start] == s[..start] && t[start..start + |text|] == text && t[start + |text|..] == s[end..]
  {
  }

  /**
   * The report for the `k`-th match (0-based), counter `i == k + 1`: from the
   * end of line `i` to the start of line `i + 1`.
   */
  function ReportFor(lines: seq<string>, ms: seq<Match>, k: nat, expectLF: bool): (r: Report<MessageId>)
    requires k < |ms| && k < |lines|
    ensures r.loc == Span(Position(k + 1, |lines[k]|), Position(k + 2, 0))
    ensures r.messageId == ExpectedLF <==> Terminator(expectLF) == "\n"
    ensures r.messageId == ExpectedCRLF <==> Terminator(expectLF) == "\r\n"
    ensures r.fix.Some? && r.fix.value.start == ms[k].index && r.fix.value.end == End(ms[k]) &&
      r.fix.value.text == Terminator(expectLF)
  {
    var i := k + 1;
    Report(Span(Position(i, |lines[i - 1]|), Position(i + 1, 0)),
           if expectLF then ExpectedLF else ExpectedCRLF,
           Some(CreateFix(ms[k].index, End(ms[k]), Terminator(expectLF))))
  }

  /** The reports for the first `n` matches. */
  function StyleReports(lines: seq<string>, ms: seq<Match>, expectLF: bool, n: nat): (reports: seq<Report<MessageId>>)
    requires n <= |ms| <= |lines|
    ensures |reports| <= n
  {
    if n == 0 then []
    else
      StyleReports(lines, ms, expectLF, n - 1) +
      (if ms[n - 1].text == Terminator(expectLF) then [] else [ReportFor(lines, ms, n - 1, expectLF)])
  }

  /** The (0-based) indices of the first `n` matches whose text is not `term`. */
  function MismatchIndices(ms: seq<Match>, term: string, n: nat): (ks: seq<nat>)
    requires n <= |ms|
    ensures forall j :: 0 <= j < |ks| ==> ks[j] < n
  {
    if n == 0 then []
    else MismatchIndices(ms, term, n - 1) + (if ms[n - 1].text != term then [n - 1] else [])
  }

  /** `MismatchIndices` lists only mismatching matches. */
  lemma {:induction false} MismatchIndicesSound(ms: seq<Match>, term: string, n: nat)
    requires n <= |ms|
    ensures forall j :: 0 <= j < |MismatchIndices(ms, term, n)| ==>
      ms[MismatchIndices(ms, term, n)[j]].text != term
  {
    if n > 0 {
      MismatchIndicesSound(ms, term, n - 1);
      var ks := MismatchIndices(ms, term, n - 1);
      if ms[n - 1].text != term {
        var ks' := ks + [n - 1];
        assert MismatchIndices(ms, term, n) == ks';
        forall j | 0 <= j < |ks'|
          ensures ms[ks'[j]].text != term
        {
          if j < |ks| {
            assert ks'[j] == ks[j];
          } else {
            assert ks'[j] == n - 1;
          }
        }
      } else {
        assert MismatchIndices(ms, term, n) == ks;
      }
    }
  }

  /** `MismatchIndices` is strictly increasing. */
  lemma {:induction false} MismatchIndicesIncreasing(ms: seq<Match>, term: string, n: nat)
    requires n <= |ms|
    ensures forall j, l :: 0 <= j < l < |MismatchIndices(ms, term, n)| ==>
      MismatchIndices(ms, term, n)[j] < MismatchIndices(ms, term, n)[l]
  {
    if n > 0 {
      MismatchIndicesIncreasing(ms, term, n - 1);
      var ks := MismatchIndices(ms, term, n - 1);
      if ms[n - 1].text != term {
        var ks' := ks + [n - 1];
        assert MismatchIndices(ms, term, n) == ks';
        forall j, l | 0 <= j < l < |ks'|
          ensures ks'[j] < ks'[l]
        {
          assert ks'[j] == ks[j];
          if l < |ks| {
            assert ks'[l] == ks[l];
          } else {
            assert ks'[l] == n - 1 && ks[j] < n - 1;
          }
        }
      } else {
        assert MismatchIndices(ms, term, n) == ks;
      }
    }
  }

  /** `MismatchIndices` lists every mismatching match. */
  lemma {:induction false} MismatchIndicesComplete(ms: seq<Match>, term: string, n: nat)
    requires n <= |ms|
    ensures forall k :: 0 <= k < n && ms[k].text != term ==> k in MismatchIndices(ms, term, n)
  {
    if n > 0 {
      MismatchIndicesComplete(ms, term, n - 1);
      var ks := MismatchIndices(ms, term, n - 1);
      if ms[n - 1].text != term {
        var ks' := ks + [n - 1];
        assert MismatchIndices(ms, term, n) == ks';
        forall k | 0 <= k < n && ms[k].text != term
          ensures k in ks'
        {
          if k == n - 1 {
            assert ks'[|ks|] == k;
          }
        }
      } else {
        assert MismatchIndices(ms, term, n) == ks;
      }
    }
  }

  /**
   * One report per mismatching match and none for the others: the `j`-th
   * report belongs to the `j`-th mismatching match.
   */
  lemma {:induction false} StyleReportsAreMismatches(lines: seq<string>, ms: seq<Match>, expectLF: bool, n: nat)
    requires n <= |ms| <= |lines|
    ensures var ks := MismatchIndices(ms, Terminator(expectLF), n);
      var rs := StyleReports(lines, ms, expectLF, n);
      |rs| == |ks| && forall j :: 0 <= j < |rs| ==> rs[j] == ReportFor(lines, ms, ks[j], expectLF)
  {
    if n > 0 {
      StyleReportsAreMismatches(lines, ms, expectLF, n - 1);
      var term := Terminator(expectLF);
      var ks, rs := MismatchIndices(ms, term, n - 1), StyleReports(lines, ms, expectLF, n - 1);
      if ms[n - 1].text != term {
        var ks', rs' := MismatchIndices(ms, term, n), StyleReports(lines, ms, expectLF, n);
        assert ks' == ks + [n - 1];
        assert rs' == rs + [ReportFor(lines, ms, n - 1, expectLF)];
        forall j | 0 <= j < |rs'|
          ensures rs'[j] == ReportFor(lines, ms, ks'[j], expectLF)
        {
          if j < |rs| {
            assert rs'[j] == rs[j] && ks'[j] == ks[j];
          }
        }
      } else {
        assert MismatchIndices(ms, term, n) == ks;
        assert StyleReports(lines, ms, expectLF, n) == rs;
      }
    }
  }

  /** Every fix replaces a non-empty range by `term`. */
  predicate ReplaceBy(fixes: seq<Fix>, term: string)
  {
    forall k :: 0 <= k < |fixes| ==> fixes[k].start < fixes[k].end && fixes[k].text == term
  }

  /** A fix of the same kind appended to fixes that replace by `term`. */
  lemma ReplaceBySnoc(fixes: seq<Fix>, f: Fix, term: string)
    requires ReplaceBy(fixes, term) && f.start < f.end && f.text == term
    ensures ReplaceBy(fixes + [f], term)
  {
  }

  /** The fixes of the first `n` reports replace non-empty ranges by the expected terminator. */
  lemma {:induction false} StyleFixesReplace(lines: seq<string>, ms: seq<Match>, expectLF: bool, n: nat)
    requires n <= |ms| <= |lines| && Disjoint(ms, n)
    ensures ReplaceBy(FixesOf(StyleReports(lines, ms, expectLF, n)), Terminator(expectLF))
  {
    if n > 0 {
      DisjointPrefix(ms, n, n - 1);
      StyleFixesReplace(lines, ms, expectLF, n - 1);
      var before := StyleReports(lines, ms, expectLF, n - 1);
      var term := Terminator(expectLF);
      if ms[n - 1].text != term {
        var r := ReportFor(lines, ms, n - 1, expectLF);
        assert r.fix == Some(Fix(ms[n - 1].index, End(ms[n - 1]), term));
        FixesOfSnoc(before, r);
        assert 0 < |ms[n - 1].text|;
        ReplaceBySnoc(FixesOf(before), r.fix.value, term);
        assert FixesOf(StyleReports(lines, ms, expectLF, n)) == FixesOf(before) + [r.fix.value];
        assert ReplaceBy(FixesOf(StyleReports(lines, ms, expectLF, n)), term);
      } else {
        assert StyleReports(lines, ms, expectLF, n) == before;
        assert FixesOf(StyleReports(lines, ms, expectLF, n)) == FixesOf(before);
        assert ReplaceBy(FixesOf(StyleReports(lines, ms, expectLF, n)), term);
      }
    } else {
      assert ReplaceBy(FixesOf(StyleReports(lines, ms, expectLF, n)), Terminator(expectLF));
    }
  }

  /**
   * The fixes of the first `n` reports are left to right and disjoint, and
   * end by the end of the `n`-th match.
   */
  lemma {:induction false} StyleFixesOrdered(lines: seq<string>, ms: seq<Match>, expectLF: bool, n: nat)
    requires 0 < n <= |ms| <= |lines| && Disjoint(ms, n)
    ensures Ordered(FixesOf(StyleReports(lines, ms, expectLF, n)), End(ms[n - 1]))
  {
    var before := StyleReports(lines, ms, expectLF, n - 1);
    var earlier := FixesOf(before);
    if n > 1 {
      DisjointPrefix(ms, n, n - 1);
      StyleFixesOrdered(lines, ms, expectLF, n - 1);
      assert End(ms[n - 2]) <= ms[n - 1].index;
      OrderedWithin(earlier, End(ms[n - 2]), ms[n - 1].index);
    } else {
      assert before == [];
    }
    if ms[n - 1].text != Terminator(expectLF) {
      var r := ReportFor(lines, ms, n - 1, expectLF);
      var f := Fix(ms[n - 1].index, End(ms[n - 1]), Terminator(expectLF));
      assert r.fix == Some(f);
      FixesOfSnoc(before, r);
      assert StyleReports(lines, ms, expectLF, n) == before + [r];
      OrderedSnoc(earlier, f, End(ms[n - 1]));
    } else {
      assert StyleReports(lines, ms, expectLF, n) == before;
      OrderedWithin(earlier, ms[n - 1].index, End(ms[n - 1]));
    }
  }

  /** The first `end` characters of `src` with each of the first `n` matches replaced by `term`. */
  function NormalizeTo(src: string, ms: seq<Match>, term: string, n: nat, end: nat): string
    requires n <= |ms| && end <= |src| && Inside(ms, n, end)
  {
    if n == 0 then src[..end]
    else NormalizeTo(src, ms, term, n - 1, ms[n - 1].index) + term + src[End(ms[n - 1])..end]
  }

  /** The text with every one of the first `n` matches replaced by `term`. */
  function Normalize(src: string, ms: seq<Match>, term: string, n: nat): string
    requires n <= |ms| && Inside(ms, n, |src|)
  {
    NormalizeTo(src, ms, term, n, |src|)
  }

  /** The fixes for the first `n - 1` matches end by the start of the `n`-th. */
  lemma EarlierFixesOrdered(lines: seq<string>, ms: seq<Match>, expectLF: bool, n: nat)
    requires 0 < n <= |ms| <= |lines| && Disjoint(ms, n)
    ensures Ordered(FixesOf(StyleReports(lines, ms, expectLF, n - 1)), ms[n - 1].index)
  {
    if n > 1 {
      DisjointPrefix(ms, n, n - 1);
      StyleFixesOrdered(lines, ms, expectLF, n - 1);
      assert End(ms[n - 2]) <= ms[n - 1].index;
      OrderedWithin(FixesOf(StyleReports(lines, ms, expectLF, n - 1)), End(ms[n - 2]), ms[n - 1].index);
    }
  }

  /** `FixesStep` when the `n`-th match is not the expected terminator: its fix is the last one. */
  lemma FixesStepMismatch(src: string, lines: seq<string>, ms: seq<Match>, expectLF: bool, n: nat, end: nat)
    requires 0 < n <= |ms| <= |lines| && end <= |src| && Inside(ms, n, end)
    requires ms[n - 1].text != Terminator(expectLF)
    ensures Ordered(FixesOf(StyleReports(lines, ms, expectLF, n - 1)), ms[n - 1].index)
    ensures Ordered(FixesOf(StyleReports(lines, ms, expectLF, n)), end)
    ensures ApplyFixesTo(src, FixesOf(StyleReports(lines, ms, expectLF, n)), end) ==
            ApplyFixesTo(src, FixesOf(StyleReports(lines, ms, expectLF, n - 1)), ms[n - 1].index) +
            Terminator(expectLF) + src[End(ms[n - 1])..end]
  {
    var m := ms[n - 1];
    EarlierFixesOrdered(lines, ms, expectLF, n);
    var before := StyleReports(lines, ms, expectLF, n - 1);
    var r := ReportFor(lines, ms, n - 1, expectLF);
    var f := Fix(m.index, End(m), Terminator(expectLF));
    assert r.fix == Some(f);
    assert StyleReports(lines, ms, expectLF, n) == before + [r];
    FixesOfSnoc(before, r);
    ApplyFixesToSnoc(src, FixesOf(before), f, end);
  }

  /** `FixesStep` when the `n`-th match is already the expected terminator: no fix touches it. */
  lemma FixesStepMatch(src: string, lines: seq<string>, ms: seq<Match>, expectLF: bool, n: nat, end: nat)
    requires 0 < n <= |ms| <= |lines| && end <= |src| && Inside(ms, n, end)
    requires src[ms[n - 1].index..End(ms[n - 1])] == ms[n - 1].text == Terminator(expectLF)
    ensures Ordered(FixesOf(StyleReports(lines, ms, expectLF, n - 1)), ms[n - 1].index)
    ensures Ordered(FixesOf(StyleReports(lines, ms, expectLF, n)), end)
    ensures ApplyFixesTo(src, FixesOf(StyleReports(lines, ms, expectLF, n)), end) ==
            ApplyFixesTo(src, FixesOf(StyleReports(lines, ms, expectLF, n - 1)), ms[n - 1].index) +
            Terminator(expectLF) + src[End(ms[n - 1])..end]
  {
    var m := ms[n - 1];
    var before := StyleReports(lines, ms, expectLF, n - 1);
    EarlierFixesOrdered(lines, ms, expectLF, n);
    assert StyleReports(lines, ms, expectLF, n) == before;
    ApplyFixesToKeep(src, FixesOf(before), m.index, End(m), end, m.text);
  }

  /**
   * The fixes for the first `n` matches act as those for the first `n - 1`
   * up to the `n`-th match, then that match turned into the expected
   * terminator, then the text after it.
   */
  lemma FixesStep(src: string, lines: seq<string>, ms: seq<Match>, expectLF: bool, n: nat, end: nat)
    requires 0 < n <= |ms| <= |lines| && end <= |src| && MatchesFit(src, ms, n) && Inside(ms, n, end)
    ensures Ordered(FixesOf(StyleReports(lines, ms, expectLF, n - 1)), ms[n - 1].index)
    ensures Ordered(FixesOf(StyleReports(lines, ms, expectLF, n)), end)
    ensures ApplyFixesTo(src, FixesOf(StyleReports(lines, ms, expectLF, n)), end) ==
            ApplyFixesTo(src, FixesOf(StyleReports(lines, ms, expectLF, n - 1)), ms[n - 1].index) +
            Terminator(expectLF) + src[End(ms[n - 1])..end]
  {
    assert src[ms[n - 1].index..End(ms[n - 1])] == ms[n - 1].text;
    if ms[n - 1].text != Terminator(expectLF) {
      FixesStepMismatch(src, lines, ms, expectLF, n, end);
    } else {
      FixesStepMatch(src, lines, ms, expectLF, n, end);
    }
  }

  /** Up to any `end` after the matches, the fixes give the text with those matches normalized. */
  lemma {:induction false} FixesNormalizeTo(src: string, lines: seq<string>, ms: seq<Match>, expectLF: bool, n: nat, end: nat)
    requires n <= |ms| <= |lines| && end <= |src| && MatchesFit(src, ms, n) && Inside(ms, n, end)
    ensures Ordered(FixesOf(StyleReports(lines, ms, expectLF, n)), end)
    ensures ApplyFixesTo(src, FixesOf(StyleReports(lines, ms, expectLF, n)), end) ==
            NormalizeTo(src, ms, Terminator(expectLF), n, end)
  {
    if n == 0 {
      assert FixesOf(StyleReports(lines, ms, expectLF, 0)) == [];
    } else {
      FixesStep(src, lines, ms, expectLF, n, end);
      MatchesFitFewer(src, ms, n);
      FixesNormalizeTo(src, lines, ms, expectLF, n - 1, ms[n - 1].index);
    }
  }

  /** Applying the fixes of all reports gives the text with every line break replaced by the expected one. */
  lemma FixesNormalize(src: string, lines: seq<string>, ms: seq<Match>, expectLF: bool)
    requires |ms| <= |lines| && MatchesFit(src, ms, |ms|)
    ensures Inside(ms, |ms|, |src|)
    ensures Ordered(FixesOf(StyleReports(lines, ms, expectLF, |ms|)), |src|)
    ensures ApplyFixes(src, FixesOf(StyleReports(lines, ms, expectLF, |ms|))) ==
            Normalize(src, ms, Terminator(expectLF), |ms|)
  {
    MatchesFitInside(src, ms, |ms|);
    FixesNormalizeTo(src, lines, ms, expectLF, |ms|, |src|);
  }

  /**
   * Where the first `n` matches stand once they are normalized; each now
   * has the text `term`.
   */
  function NormalizedMatches(src: string, ms: seq<Match>, term: string, n: nat): (out: seq<Match>)
    requires n <= |ms| && Inside(ms, n, |src|)
    ensures |out| == n
    ensures forall k :: 0 <= k < n ==> out[k].text == term
  {
    seq(n, k requires 0 <= k < n => Match(|NormalizeTo(src, ms, term, k, ms[k].index)|, term))
  }

  /** A match of `term` appended right after the text the others fit in fits too. */
  lemma MatchesFitAppend(head: string, before: seq<Match>, term: string, rest: string)
    requires MatchesFit(head, before, |before|) && |term| > 0
    ensures MatchesFit(head + term + rest, before + [Match(|head|, term)], |before| + 1)
  {
    var whole := head + term + rest;
    var out := before + [Match(|head|, term)];
    forall k | 0 <= k < |before|
      ensures out[k] == before[k]
      ensures End(out[k]) <= |head| && whole[out[k].index..End(out[k])] == out[k].text
    {
      assert whole[out[k].index..End(out[k])] == head[out[k].index..End(out[k])];
    }
    assert whole[|head|..|head| + |term|] == term;
  }

  /** In the normalized text every former line break is found again, and it is `term`. */
  lemma {:induction false} NormalizedMatchesFit(src: string, ms: seq<Match>, term: string, n: nat, end: nat)
    requires n <= |ms| && end <= |src| && Inside(ms, n, end) && |term| > 0
    ensures Inside(ms, n, |src|)
    ensures MatchesFit(NormalizeTo(src, ms, term, n, end), NormalizedMatches(src, ms, term, n), n)
  {
    if n > 0 {
      var i := ms[n - 1].index;
      DisjointPrefix(ms, n, n - 1);
      assert n > 1 ==> End(ms[n - 2]) <= i;
      NormalizedMatchesFit(src, ms, term, n - 1, i);
      var head, before := NormalizeTo(src, ms, term, n - 1, i), NormalizedMatches(src, ms, term, n - 1);
      assert NormalizeTo(src, ms, term, n, end) == head + term + src[End(ms[n - 1])..end];
      assert NormalizedMatches(src, ms, term, n) == before + [Match(|head|, term)];
      MatchesFitAppend(head, before, term, src[End(ms[n - 1])..end]);
    }
  }

  /** Matches that all equal the expected terminator give no report. */
  lemma {:induction false} ExpectedBreaksAreSilent(lines: seq<string>, ms: seq<Match>, expectLF: bool, n: nat)
    requires n <= |ms| <= |lines|
    requires forall k :: 0 <= k < n ==> ms[k].text == Terminator(expectLF)
    ensures StyleReports(lines, ms, expectLF, n) == []
  {
    if n > 0 {
      ExpectedBreaksAreSilent(lines, ms, expectLF, n - 1);
      assert ms[n - 1].text == Terminator(expectLF);
    }
  }

  /**
   * Applying every fix yields a text in which each former line break is
   * found again, now as the expected terminator.
   */
  lemma FixedTextKeepsBreaks(src: string, lines: seq<string>, ms: seq<Match>, expectLF: bool)
    requires |ms| <= |lines| && MatchesFit(src, ms, |ms|)
    ensures Inside(ms, |ms|, |src|)
    ensures Ordered(FixesOf(StyleReports(lines, ms, expectLF, |ms|)), |src|)
    ensures MatchesFit(ApplyFixes(src, FixesOf(StyleReports(lines, ms, expectLF, |ms|))),
                       NormalizedMatches(src, ms, Terminator(expectLF), |ms|), |ms|)
  {
    var term := Terminator(expectLF);
    FixesNormalize(src, lines, ms, expectLF);
    assert MatchesFit(Normalize(src, ms, term, |ms|), NormalizedMatches(src, ms, term, |ms|), |ms|) by {
      assert 0 < |term|;
      NormalizedMatchesFit(src, ms, term, |ms|, |src|);
    }
  }

  /** A scan over the line breaks of the fixed text reports nothing. */
  lemma FixedTextIsSilent(src: string, ms: seq<Match>, expectLF: bool, fixedLines: seq<string>)
    requires Inside(ms, |ms|, |src|) && |ms| <= |fixedLines|
    ensures StyleReports(fixedLines, NormalizedMatches(src, ms, Terminator(expectLF), |ms|), expectLF, |ms|) == []
  {
    ExpectedBreaksAreSilent(fixedLines, NormalizedMatches(src, ms, Terminator(expectLF), |ms|), expectLF, |ms|);
  }

  /** A report's fix replaces exactly its match's range by the expected terminator. */
  lemma ReportFixReplacesItsMatch(src: string, lines: seq<string>, ms: seq<Match>, expectLF: bool, k: nat)
    requires k < |ms| <= |lines| && MatchesFit(src, ms, |ms|)
    ensures var f := ReportFor(lines, ms, k, expectLF).fix;
      f.Some? && f.value.start == ms[k].index && f.value.end == ms[k].index + |ms[k].text| &&
      Fits(f.value, |src|) &&
      ApplyFix(src, f.value) == src[..ms[k].index] + Terminator(expectLF) + src[End(ms[k])..]
  {
  }

  /** The scanning loop of `checkForLinebreakStyle`, with its running line counter `i`. */
  method ScanLinebreaks(lines: seq<string>, ms: seq<Match>, expectLF: bool) returns (reports: seq<Report<MessageId>>)
    requires |ms| <= |lines|
    ensures reports == StyleReports(lines, ms, expectLF, |ms|)
    ensures var ks := MismatchIndices(ms, Terminator(expectLF), |ms|);
      |reports| == |ks| && forall j :: 0 <= j < |reports| ==> reports[j] == ReportFor(lines, ms, ks[j], expectLF)
  {
    var expectedLFChars := Terminator(expectLF);
    reports := [];
    var next := 0;
    var i := 0;
    while next < |ms|
      invariant 0 <= next <= |ms| && i == next
      invariant reports == StyleReports(lines, ms, expectLF, next)
    {
      var m := ms[next];
      next := next + 1;
      i := i + 1;
      if m.text == expectedLFChars {
        continue;
      }
      var index := m.index;
      reports := reports + [Report(Span(Position(i, |lines[i - 1]|), Position(i + 1, 0)),
                                   if expectLF then ExpectedLF else ExpectedCRLF,
                                   Some(CreateFix(index, index + |m.text|, expectedLFChars)))];
    }
    StyleReportsAreMismatches(lines, ms, expectLF, |ms|);
  }

  /**
   * `checkForLinebreakStyle`, given the outcome of the editorconfig lookup
   * (consulted only when option 0 is "editorconfig"): "\n" is expected only
   * for exactly "unix", and a missing-fallback failure adds the notice but
   * scanning still runs.
   */
  function LinebreakReports(lines: seq<string>, ms: seq<Match>, options: Options, lookup: Result<Value, Error>)
    : (r: Result<seq<Report<MessageId>>, Error>)
    requires |ms| <= |lines|
    ensures r.Err? ==> options.style == Some(OptEditorconfig) && lookup == Err(r.error) &&
                       r.error != NoFallbackAndEditorconfig
  {
    match ResolveMode(Configured(options), lookup)
    case Err(e) => Err(e)
    case Ok(res) =>
      var scanned := StyleReports(lines, ms, res.mode == Str("unix"), |ms|);
      Ok(if res.notice then [Notice(EditorconfigMissing)] + scanned else scanned)
  }

  /** `checkForLinebreakStyle` step by step: resolve the style, then run the scanning loop. */
  method CheckForLinebreakStyle(lines: seq<string>, ms: seq<Match>, options: Options, lookup: Result<Value, Error>)
    returns (r: Result<seq<Report<MessageId>>, Error>)
    requires |ms| <= |lines|
    ensures r == LinebreakReports(lines, ms, options, lookup)
  {
    var linebreakStyle := Configured(options);
    var missing := false;
    if linebreakStyle == Str("editorconfig") {
      if lookup.Ok? {
        linebreakStyle := lookup.value;
      } else if lookup.error == NoFallbackAndEditorconfig {
        missing := true;
      } else {
        return Err(lookup.error);
      }
    }
    var expectedLF := linebreakStyle == Str("unix");
    var scanned := ScanLinebreaks(lines, ms, expectedLF);
    r := Ok(if missing then [Notice(EditorconfigMissing)] + scanned else scanned);
  }

  /**
   * A lookup that resolves "editorconfig" to a value expects "\n" exactly
   * when that value is "unix", and scans with no notice.
   */
  lemma EditorconfigResolvedStyle(lines: seq<string>, ms: seq<Match>, fallback: Option<LinebreakFallback>, v: Value)
    requires |ms| <= |lines|
    ensures LinebreakReports(lines, ms, Options(Some(OptEditorconfig), fallback), Ok(v)) ==
            Ok(StyleReports(lines, ms, v == Str("unix"), |ms|))
  {
  }

  /**
   * A style configured directly, or resolved to its name, expects "\n"
   * exactly when it is "unix"; the lookup is not consulted.
   */
  lemma ConfiguredStyle(lines: seq<string>, ms: seq<Match>, style: LinebreakOption,
                        fallback: Option<LinebreakFallback>, lookup: Result<Value, Error>)
    requires style != OptEditorconfig && |ms| <= |lines|
    ensures LinebreakReports(lines, ms, Options(Some(style), fallback), lookup) ==
            Ok(StyleReports(lines, ms, style == OptUnix, |ms|))
    ensures LinebreakReports(lines, ms, Options(Some(OptEditorconfig), fallback), Ok(Str(style.Name()))) ==
            LinebreakReports(lines, ms, Options(Some(style), fallback), lookup)
  {
  }

  /** A missing option means "unix". */
  lemma DefaultIsUnix(lines: seq<string>, ms: seq<Match>, fallback: Option<LinebreakFallback>, lookup: Result<Value, Error>)
    requires |ms| <= |lines|
    ensures LinebreakReports(lines, ms, Options(None, fallback), lookup) ==
            LinebreakReports(lines, ms, Options(Some(OptUnix), fallback), lookup)
  {
  }

  /**
   * Every resolved value other than exactly "unix" expects "\r\n": a lookup
   * answering "off" checks as "windows" does, so "off" does not switch this
   * rule off.
   */
  lemma OffExpectsCRLF(lines: seq<string>, ms: seq<Match>, fallback: Option<LinebreakFallback>, lookup: Result<Value, Error>)
    requires |ms| <= |lines|
    ensures LinebreakReports(lines, ms, Options(Some(OptEditorconfig), fallback), Ok(Str("off"))) ==
            LinebreakReports(lines, ms, Options(Some(OptWindows), fallback), lookup)
    ensures LinebreakReports(lines, ms, Options(Some(OptWindows), fallback), lookup) ==
            Ok(StyleReports(lines, ms, false, |ms|))
  {
  }

  /**
   * A missing-fallback failure gives the notice at (0,0) and then the scan
   * under "\r\n", since the style stays "editorconfig"; any other failure is
   * passed on.
   */
  lemma LookupFailureStillScans(lines: seq<string>, ms: seq<Match>, fallback: Option<LinebreakFallback>, lookup: Result<Value, Error>)
    requires |ms| <= |lines| && lookup.Err?
    ensures var r := LinebreakReports(lines, ms, Options(Some(OptEditorconfig), fallback), lookup);
      if lookup.error == NoFallbackAndEditorconfig then
        r == Ok([Notice(EditorconfigMissing)] + StyleReports(lines, ms, false, |ms|))
      else r == Err(lookup.error)
  {
  }

  /** "a\nb\r\nc\n" under "unix": one report, at the "\r\n" ending line 2. */
  lemma ExampleReports()
    ensures var ms := [Match(1, "\n"), Match(3, "\r\n"), Match(6, "\n")];
      MatchesFit("a\nb\r\nc\n", ms, 3) &&
      StyleReports(["a", "b", "c", ""], ms, true, 3) ==
        [Report(Span(Position(2, 1), Position(3, 0)), ExpectedLF, Some(Fix(3, 5, "\n")))]
  {
    var src := "a\nb\r\nc\n";
    var ms := [Match(1, "\n"), Match(3, "\r\n"), Match(6, "\n")];
    var lines := ["a", "b", "c", ""];
    assert src[1..2] == "\n" && src[3..5] == "\r\n" && src[6..7] == "\n";
    assert StyleReports(lines, ms, true, 1) == [];
    assert StyleReports(lines, ms, true, 2) == [ReportFor(lines, ms, 1, true)];
  }

  /** Its fix turns the text into "a\nb\nc\n". */
  lemma ExampleFixed()
    ensures Ordered([Fix(3, 5, "\n")], 7) && ApplyFixes("a\nb\r\nc\n", [Fix(3, 5, "\n")]) == "a\nb\nc\n"
  {
    var src := "a\nb\r\nc\n";
    assert ApplyFixes(src, [Fix(3, 5, "\n")]) == ApplyFixesTo(src, [], 3) + "\n" + src[5..7];
    assert src[..3] == "a\nb" && src[5..7] == "c\n";
  }

  /**
   * The rule wired to the resolver object: the lookup happens only under
   * "editorconfig"; otherwise the cache is untouched.
   */
  method CheckForLinebreakStyleWith(ec: EditorConfig, filename: Path, lines: seq<string>, ms: seq<Match>,
                                    options: Options)
    returns (r: Result<seq<Report<MessageId>>, Error>)
    requires ec.Valid() && |ms| <= |lines|
    modifies ec
    ensures ec.Valid()
    ensures r == LinebreakReports(lines, ms, options,
                                  OptionsFor(ec.fs, old(ec.cache), LinebreakStyle, filename, FallbackValue(options)))
    ensures options.style != Some(OptEditorconfig) ==>
      ec.cache == old(ec.cache) && ec.parseLog == old(ec.parseLog)
    ensures options.style == Some(OptEditorconfig) ==>
      var o := Resolve(ec.fs, old(ec.cache), filename);
      ec.cache == o.cache && ec.parseLog == old(ec.parseLog) + o.parsed
  {
    var style := Configured(options);
    var lookup := Ok(style);
    if style == Str("editorconfig") {
      lookup := ec.GetOptions(LinebreakStyle, filename, FallbackValue(options));
    }
    r := CheckForLinebreakStyle(lines, ms, options, lookup);
  }
}
