/**
 * The `eol-last` rule (packages/eslint-plugin-js/rules/eol-last/eol-last.ts):
 * one decision over the whole source text, giving at most one report whose
 * fix either appends a line terminator or removes the trailing run of them.
 */
module EolLast {
  import opened Wrappers
  import opened EditorConfig
  import opened Fixes

  /** Option 0 of the rule. */
  datatype EolLastOption = OptAlways | OptNever | OptEditorconfig | OptUnix | OptWindows
  {
    function Name(): string
    {
      match this
      case OptAlways => "always"
      case OptNever => "never"
      case OptEditorconfig => "editorconfig"
      case OptUnix => "unix"
      case OptWindows => "windows"
    }
  }

  /** The `fallback` of option 1. */
  datatype EolLastFallback = FallbackAlways | FallbackNever | FallbackOff
  {
    function Name(): string
    {
      match this
      case FallbackAlways => "always"
      case FallbackNever => "never"
      case FallbackOff => "off"
    }
  }

  /** `context.options`, both entries optional. */
  datatype Options = Options(mode: Option<EolLastOption>, fallback: Option<EolLastFallback>)

  datatype MessageId = Missing | Unexpected | EditorconfigMissing

  /** The `messages` table; the `editorconfig` notice names the property behind this rule. */
  function MessageText(id: MessageId): (text: string)
    ensures text != ""
    ensures id == EditorconfigMissing ==> text == Message(EolLast)
  {
    match id
    case Missing => "Newline required at end of file but not found."
    case Unexpected => "Newline not allowed at end of file."
    case EditorconfigMissing => Message(EolLast)
  }

  /** The notice quotes `insert_final_newline`. */
  lemma NoticeText()
    ensures MessageText(EditorconfigMissing) == "`" + "insert_final_newline" + "`" + MessageTail
  {
    var names := PropNames(EolLast);
    assert names == ["insert_final_newline"];
    JoinShort(names, "` and `");
  }

  const LF := "\n"
  const CRLF := "\r\n"

  predicate EndsWithNewline(s: string)
    ensures EndsWithNewline(s) <==> EndsWith(s, LF)
  {
    |s| > 0 && s[|s| - 1] == '\n'
  }

  /**
   * What the host's line array guarantees and the rule relies on: there is a
   * last line, and a second-last one when the text ends with a newline.
   */
  predicate LinesFit(src: string, lines: seq<string>)
  {
    |lines| >= 1 && (EndsWithNewline(src) ==> |lines| >= 2)
  }

  /** `options[0] || 'always'`. */
  function Configured(options: Options): (v: Value)
    ensures v.Str? && Truthy(v)
    ensures v == Str("editorconfig") <==> options.mode == Some(OptEditorconfig)
    ensures options.mode == None ==> v == Str("always")
  {
    match options.mode
    case Some(m) => Str(m.Name())
    case None => Str("always")
  }

  /** `options[1]?.fallback`. */
  function FallbackValue(options: Options): (v: Option<Value>)
    ensures v.None? <==> options.fallback.None?
    ensures v.Some? ==> v.value.Str? && Truthy(v.value)
  {
    match options.fallback
    case Some(f) => Some(Str(f.Name()))
    case None => None
  }

  // ---------------------------------------------------------------------------
  // The trailing run of line terminators: `(?:\r?\n)+$`
  // ---------------------------------------------------------------------------

  /** `t` is one or more `\n` / `\r\n` units: `(?:\r?\n)+` matches all of it. */
  predicate IsEolRun(t: string)
    decreases |t|
  {
    t == LF || t == CRLF ||
    (|t| > 1 && t[0] == '\n' && IsEolRun(t[1..])) ||
    (|t| > 2 && t[0] == '\r' && t[1] == '\n' && IsEolRun(t[2..]))
  }

  /** Where the last `\r?\n` unit of a text ending in `\n` starts. */
  function LastUnitStart(t: string): (k: nat)
    requires |t| >= 1
    ensures k < |t|
  {
    if |t| >= 2 && t[|t| - 2] == '\r' then |t| - 2 else |t| - 1
  }

  /** A run followed by one more unit is a run. */
  lemma {:induction false} RunAppendUnit(a: string, u: string)
    requires a == "" || IsEolRun(a)
    requires u == LF || u == CRLF
    ensures IsEolRun(a + u)
  {
    if a == "" {
      assert a + u == u;
    } else if a == LF {
      assert (a + u)[1..] == u;
    } else if a == CRLF {
      assert (a + u)[2..] == u;
    } else if |a| > 1 && a[0] == '\n' && IsEolRun(a[1..]) {
      RunAppendUnit(a[1..], u);
      assert (a + u)[1..] == a[1..] + u;
    } else {
      RunAppendUnit(a[2..], u);
      assert (a + u)[2..] == a[2..] + u;
    }
  }

  /** A run ends in `\n`, and what precedes its last unit is empty or again a run. */
  lemma {:induction false} RunLastUnit(t: string)
    requires IsEolRun(t)
    ensures |t| >= 1 && t[|t| - 1] == '\n'
    ensures LastUnitStart(t) == 0 || IsEolRun(t[..LastUnitStart(t)])
  {
    if t == LF || t == CRLF {
    } else if |t| > 1 && t[0] == '\n' && IsEolRun(t[1..]) {
      var rest := t[1..];
      RunLastUnit(rest);
      if |rest| == 1 {
        assert t[..LastUnitStart(t)] == LF;
      } else {
        assert LastUnitStart(t) == LastUnitStart(rest) + 1;
        if LastUnitStart(rest) != 0 {
          assert t[..LastUnitStart(t)][1..] == rest[..LastUnitStart(rest)];
        } else {
          assert t[..LastUnitStart(t)] == LF;
        }
      }
    } else {
      var rest := t[2..];
      RunLastUnit(rest);
      if |rest| == 1 {
        assert t[..LastUnitStart(t)] == CRLF;
      } else {
        assert LastUnitStart(t) == LastUnitStart(rest) + 2;
        if LastUnitStart(rest) != 0 {
          assert t[..LastUnitStart(t)][2..] == rest[..LastUnitStart(rest)];
        } else {
          assert t[..LastUnitStart(t)] == CRLF;
        }
      }
    }
  }

  /**
   * `finalEOLs.exec(text).index`: where the trailing run of terminators
   * starts, or `|s|` when the text does not end in `\n`.
   */
  function TrailingEolStart(s: string): (start: nat)
    ensures start <= |s|
    ensures start < |s| <==> EndsWithNewline(s)
    decreases |s|
  {
    if !EndsWithNewline(s) then |s|
    else
      var k := LastUnitStart(s);
      var pre := TrailingEolStart(s[..k]);
      if pre < k then pre else k
  }

  /** The last unit of a text ending in `\n` is `\n` or `\r\n`. */
  lemma LastUnit(s: string)
    requires EndsWithNewline(s)
    ensures s[LastUnitStart(s)..] == LF || s[LastUnitStart(s)..] == CRLF
    ensures s == s[..LastUnitStart(s)] + s[LastUnitStart(s)..]
  {
    var k := LastUnitStart(s);
    if k == |s| - 2 {
      assert s[k..] == [s[k], s[k + 1]];
    } else {
      assert s[k..] == [s[k]];
    }
  }

  /** From `TrailingEolStart(s)` on, the text is a run of terminators. */
  lemma {:induction false} TrailingRunIsRun(s: string)
    requires EndsWithNewline(s)
    ensures IsEolRun(s[TrailingEolStart(s)..])
    decreases |s|
  {
    var k := LastUnitStart(s);
    var prefix := s[..k];
    var unit := s[k..];
    LastUnit(s);
    var pre := TrailingEolStart(prefix);
    if pre < k {
      TrailingRunIsRun(prefix);
      assert s[pre..] == prefix[pre..] + unit;
      RunAppendUnit(prefix[pre..], unit);
    }
  }

  /** From no index before `TrailingEolStart(s)` is the rest of the text a run. */
  lemma {:induction false} NoRunBeforeTrailing(s: string, j: nat)
    requires j < TrailingEolStart(s)
    ensures !IsEolRun(s[j..])
    decreases |s|
  {
    if IsEolRun(s[j..]) {
      var t := s[j..];
      RunLastUnit(t);
      var k := LastUnitStart(s);
      var prefix := s[..k];
      assert LastUnitStart(t) == k - j;
      assert t[..k - j] == prefix[j..];
      RunLastUnit(prefix[j..]);
      NoRunBeforeTrailing(prefix, j);
      assert false;
    }
  }

  /**
   * The match found is the leftmost one: from `TrailingEolStart(s)` on the
   * text is a run of terminators, from no earlier index is it, and the text
   * left in front of it does not end in `\n`.
   */
  lemma TrailingEolStartIsLeftmostRun(s: string)
    requires EndsWithNewline(s)
    ensures IsEolRun(s[TrailingEolStart(s)..])
    ensures forall j :: 0 <= j < TrailingEolStart(s) ==> !IsEolRun(s[j..])
    ensures !EndsWithNewline(s[..TrailingEolStart(s)])
  {
    var start := TrailingEolStart(s);
    TrailingRunIsRun(s);
    forall j | 0 <= j < start
      ensures !IsEolRun(s[j..])
    {
      NoRunBeforeTrailing(s, j);
    }
    if start > 0 {
      assert s[start - 1..][1..] == s[start..];
    }
  }

  // ---------------------------------------------------------------------------
  // checkBadEOF
  // ---------------------------------------------------------------------------

  /** The `missing` report: at the end of the last line; its fix inserts after the last byte. */
  function MissingReport(src: string, lines: seq<string>, appendCRLF: bool): (r: Report<MessageId>)
    requires |lines| >= 1
    ensures r.messageId == Missing && r.loc.Point? && r.loc.at.line == |lines|
    ensures r.fix.Some? && Fits(r.fix.value, |src|) &&
      ApplyFix(src, r.fix.value) == src + (if appendCRLF then CRLF else LF)
  {
    Report(Point(Position(|lines|, |lines[|lines| - 1]|)), Missing,
           Some(Fix(|src|, |src|, if appendCRLF then CRLF else LF)))
  }

  /** The `unexpected` report: from the end of the second-last line; its fix deletes the trailing run. */
  function UnexpectedReport(src: string, lines: seq<string>): (r: Report<MessageId>)
    requires |lines| >= 2
    ensures r.messageId == Unexpected && r.loc.Span? &&
      r.loc.start.line == |lines| - 1 && r.loc.end == Position(|lines|, 0)
    ensures r.fix.Some? && Fits(r.fix.value, |src|) && r.fix.value.text == "" &&
      ApplyFix(src, r.fix.value) == src[..TrailingEolStart(src)]
  {
    Report(Span(Position(|lines| - 1, |lines[|lines| - 2]|), Position(|lines|, 0)), Unexpected,
           Some(Fix(TrailingEolStart(src), |src|, "")))
  }

  /** The checks after mode resolution: aliases, "off", then "always" and "never". */
  function Decide(src: string, lines: seq<string>, mode: Value): (reports: seq<Report<MessageId>>)
    requires LinesFit(src, lines)
    ensures |reports| <= 1
  {
    var aliased := if mode == Str("unix") then Str("always") else mode;
    var appendCRLF := aliased == Str("windows");
    var effective := if appendCRLF then Str("always") else aliased;
    if effective == Str("off") then []
    else if effective == Str("always") && !EndsWithNewline(src) then [MissingReport(src, lines, appendCRLF)]
    else if effective == Str("never") && EndsWithNewline(src) then [UnexpectedReport(src, lines)]
    else []
  }

  /**
   * `checkBadEOF`, given the outcome of the editorconfig lookup (consulted
   * only when option 0 is "editorconfig").
   */
  function CheckBadEOF(src: string, lines: seq<string>, options: Options, lookup: Result<Value, Error>)
    : (r: Result<seq<Report<MessageId>>, Error>)
    requires LinesFit(src, lines)
    ensures |src| == 0 ==> r == Ok([])
    ensures r.Ok? ==> |r.value| <= 1
    ensures r.Err? ==> options.mode == Some(OptEditorconfig) && lookup == Err(r.error) &&
                       r.error != NoFallbackAndEditorconfig
  {
    if |src| == 0 then Ok([])
    else
      match ResolveMode(Configured(options), lookup)
      case Err(e) => Err(e)
      case Ok(res) =>
        Ok(if res.notice then [Notice(EditorconfigMissing)] + Decide(src, lines, res.mode)
           else Decide(src, lines, res.mode))
  }

  /** A missing option, "always" and "unix" are the same mode. */
  lemma DefaultAndUnixMeanAlways(src: string, lines: seq<string>, fallback: Option<EolLastFallback>, lookup: Result<Value, Error>)
    requires LinesFit(src, lines)
    ensures CheckBadEOF(src, lines, Options(None, fallback), lookup) ==
            CheckBadEOF(src, lines, Options(Some(OptAlways), fallback), lookup)
    ensures CheckBadEOF(src, lines, Options(Some(OptUnix), fallback), lookup) ==
            CheckBadEOF(src, lines, Options(Some(OptAlways), fallback), lookup)
  {
  }

  /** "windows" checks exactly as "always"; only the fix inserts `\r\n` instead of `\n`. */
  lemma WindowsAppendsCRLF(src: string, lines: seq<string>, fallback: Option<EolLastFallback>, lookup: Result<Value, Error>)
    requires LinesFit(src, lines)
    ensures var always := CheckBadEOF(src, lines, Options(Some(OptAlways), fallback), lookup);
      var windows := CheckBadEOF(src, lines, Options(Some(OptWindows), fallback), lookup);
      if |src| > 0 && !EndsWithNewline(src) then
        always == Ok([MissingReport(src, lines, false)]) && windows == Ok([MissingReport(src, lines, true)])
      else
        always == windows == Ok([])
  {
  }

  /**
   * A lookup that resolves "editorconfig" to a mode's name checks exactly as
   * that mode configured directly, whatever the fallback.
   */
  lemma EolResolved(src: string, lines: seq<string>, m: EolLastOption, fallback: Option<EolLastFallback>,
                    lookup: Result<Value, Error>)
    requires m != OptEditorconfig && LinesFit(src, lines)
    ensures CheckBadEOF(src, lines, Options(Some(OptEditorconfig), fallback), Ok(Str(m.Name()))) ==
            CheckBadEOF(src, lines, Options(Some(m), fallback), lookup)
  {
  }

  /** A lookup answering "off" switches the rule off. */
  lemma OffDisables(src: string, lines: seq<string>, fallback: Option<EolLastFallback>)
    requires LinesFit(src, lines)
    ensures CheckBadEOF(src, lines, Options(Some(OptEditorconfig), fallback), Ok(Str("off"))) == Ok([])
  {
  }

  /**
   * "always" on a text without a final newline: one `missing` report at the
   * end of the last line whose fix appends one terminator, keeps every byte,
   * and leaves a text the rule accepts.
   */
  lemma AlwaysAppendsNewline(src: string, lines: seq<string>, options: Options, lookup: Result<Value, Error>,
                             fixedLines: seq<string>)
    requires options.mode == Some(OptAlways) || options.mode == Some(OptWindows)
    requires |src| > 0 && !EndsWithNewline(src) && LinesFit(src, lines)
    ensures var r := CheckBadEOF(src, lines, options, lookup);
      var term := if options.mode == Some(OptWindows) then CRLF else LF;
      r.Ok? && |r.value| == 1 && r.value[0].messageId == Missing &&
      r.value[0].loc == Point(Position(|lines|, |lines[|lines| - 1]|)) &&
      r.value[0].fix == Some(Fix(|src|, |src|, term)) &&
      ApplyFix(src, r.value[0].fix.value) == src + term &&
      (LinesFit(src + term, fixedLines) ==> CheckBadEOF(src + term, fixedLines, options, lookup) == Ok([]))
  {
    var term := if options.mode == Some(OptWindows) then CRLF else LF;
    assert (src + term)[|src + term| - 1] == '\n';
  }

  /**
   * "never" on a text ending in `\n`: one `unexpected` report spanning the
   * last line break; its fix deletes exactly the trailing run of `\r?\n`
   * units, keeps the text in front of it, and leaves a text the rule accepts.
   */
  lemma NeverTrimsTrailingRun(src: string, lines: seq<string>, fallback: Option<EolLastFallback>,
                              lookup: Result<Value, Error>, fixedLines: seq<string>)
    requires EndsWithNewline(src) && LinesFit(src, lines)
    ensures var options := Options(Some(OptNever), fallback);
      var r := CheckBadEOF(src, lines, options, lookup);
      var start := TrailingEolStart(src);
      r.Ok? && |r.value| == 1 && r.value[0].messageId == Unexpected &&
      r.value[0].loc == Span(Position(|lines| - 1, |lines[|lines| - 2]|), Position(|lines|, 0)) &&
      r.value[0].fix == Some(Fix(start, |src|, "")) &&
      IsEolRun(src[start..]) && (forall j :: 0 <= j < start ==> !IsEolRun(src[j..])) &&
      ApplyFix(src, r.value[0].fix.value) == src[..start] &&
      !EndsWithNewline(src[..start]) &&
      (LinesFit(src[..start], fixedLines) ==> CheckBadEOF(src[..start], fixedLines, options, lookup) == Ok([]))
  {
    TrailingEolStartIsLeftmostRun(src);
    var start := TrailingEolStart(src);
    assert src[..start] + "" + src[|src|..] == src[..start];
  }

  /** A text that already satisfies "always" or "never" gets no report. */
  lemma SatisfiedModesAreSilent(src: string, lines: seq<string>, fallback: Option<EolLastFallback>, lookup: Result<Value, Error>)
    requires LinesFit(src, lines)
    ensures EndsWithNewline(src) ==> CheckBadEOF(src, lines, Options(Some(OptAlways), fallback), lookup) == Ok([])
    ensures !EndsWithNewline(src) ==> CheckBadEOF(src, lines, Options(Some(OptNever), fallback), lookup) == Ok([])
  {
  }

  /**
   * When the lookup fails for want of both a value and a fallback, the only
   * report is the file-level notice; any other failure is passed on.
   */
  lemma LookupFailure(src: string, lines: seq<string>, fallback: Option<EolLastFallback>, lookup: Result<Value, Error>)
    requires |src| > 0 && LinesFit(src, lines) && lookup.Err?
    ensures var r := CheckBadEOF(src, lines, Options(Some(OptEditorconfig), fallback), lookup);
      if lookup.error == NoFallbackAndEditorconfig then r == Ok([Notice(EditorconfigMissing)])
      else r == Err(lookup.error)
  {
    assert [Notice(EditorconfigMissing)] + [] == [Notice(EditorconfigMissing)];
  }

  /** "foo" under "always" is fixed to "foo\n"; "foo\r\n" under "never" is fixed to "foo". */
  lemma Examples()
    ensures var r := CheckBadEOF("foo", ["foo"], Options(Some(OptAlways), None), Ok(Str("always")));
      r.Ok? && |r.value| == 1 && r.value[0].fix.Some? && Fits(r.value[0].fix.value, 3) &&
      ApplyFix("foo", r.value[0].fix.value) == "foo\n"
    ensures var r := CheckBadEOF("foo\r\n", ["foo", ""], Options(Some(OptNever), None), Ok(Str("never")));
      r.Ok? && |r.value| == 1 && r.value[0].fix.Some? && Fits(r.value[0].fix.value, 5) &&
      ApplyFix("foo\r\n", r.value[0].fix.value) == "foo"
  {
    var s := "foo\r\n";
    assert LastUnitStart(s) == 3;
    assert s[..3] == "foo";
    assert TrailingEolStart("foo") == 3;
    assert TrailingEolStart(s) == 3;
  }

  /**
   * The rule wired to the resolver object: the lookup happens only for a
   * non-empty text under "editorconfig"; otherwise the cache is untouched.
   */
  method CheckBadEOFWith(ec: EditorConfig, filename: Path, src: string, lines: seq<string>, options: Options)
    returns (r: Result<seq<Report<MessageId>>, Error>)
    requires ec.Valid() && LinesFit(src, lines)
    modifies ec
    ensures ec.Valid()
    ensures r == CheckBadEOF(src, lines, options, OptionsFor(ec.fs, old(ec.cache), EolLast, filename, FallbackValue(options)))
    ensures |src| == 0 || options.mode != Some(OptEditorconfig) ==>
      ec.cache == old(ec.cache) && ec.parseLog == old(ec.parseLog)
    ensures |src| > 0 && options.mode == Some(OptEditorconfig) ==>
      var o := Resolve(ec.fs, old(ec.cache), filename);
      ec.cache == o.cache && ec.parseLog == old(ec.parseLog) + o.parsed
  {
    if |src| == 0 {
      return Ok([]);
    }
    var mode := Configured(options);
    var lookup := Ok(mode);
    if mode == Str("editorconfig") {
      lookup := ec.GetOptions(EolLast, filename, FallbackValue(options));
    }
    r := CheckBadEOF(src, lines, options, lookup);
  }
}
