/**
 * What the two text rules hand to the host: report locations, message ids and
 * byte-range fixes, with the meaning of applying fixes to a text. Also the
 * `mode === 'editorconfig'` block both rules share.
 */
module Fixes {
  import opened Wrappers
  import opened EditorConfig

  /** A line (1-based in reports, 0 for the file-level notice) and a column. */
  datatype Position = Position(line: int, column: int)

  /** `loc: {line, column}` or `loc: {start, end}`. */
  datatype Location = Point(at: Position) | Span(start: Position, end: Position)

  /** Replace `[start, end)` by `text`; with `start == end` it is an insertion. */
  datatype Fix = Fix(start: nat, end: nat, text: string)

  /** One `context.report` call. */
  datatype Report<M> = Report(loc: Location, messageId: M, fix: Option<Fix>)

  predicate Fits(f: Fix, n: nat)
  {
    f.start <= f.end <= n
  }

  /** The text after one fix: nothing before `start` or from `end` on changes. */
  function ApplyFix(s: string, f: Fix): (t: string)
    requires Fits(f, |s|)
    ensures |t| == |s| - (f.end - f.start) + |f.text|
    ensures t[..f.start] == s[..f.start]
    ensures t[f.start..f.start + |f.text|] == f.text
    ensures t[f.start + |f.text|..] == s[f.end..]
  {
    s[..f.start] + f.text + s[f.end..]
  }

  /** Fixes inside a text of length `n`, left to right, pairwise disjoint. */
  predicate Ordered(fixes: seq<Fix>, n: nat)
  {
    (forall k :: 0 <= k < |fixes| ==> Fits(fixes[k], n)) &&
    (forall j, k :: 0 <= j < k < |fixes| ==> fixes[j].end <= fixes[k].start)
  }

  /** Fixes inside a shorter text are inside a longer one. */
  lemma OrderedWithin(fixes: seq<Fix>, n: nat, m: nat)
    requires Ordered(fixes, n) && n <= m
    ensures Ordered(fixes, m)
  {
  }

  /** A fix after all the others extends a list of disjoint fixes. */
  lemma OrderedSnoc(fixes: seq<Fix>, f: Fix, n: nat)
    requires Fits(f, n) && Ordered(fixes, f.start)
    ensures Ordered(fixes + [f], n)
  {
  }

  /**
   * The first `end` characters of `s` with a list of disjoint fixes applied:
   * each fix replaces its own range of the original text.
   */
  function ApplyFixesTo(s: string, fixes: seq<Fix>, end: nat): string
    requires end <= |s| && Ordered(fixes, end)
    decreases |fixes|
  {
    if fixes == [] then s[..end]
    else
      var last := fixes[|fixes| - 1];
      ApplyFixesTo(s, fixes[..|fixes| - 1], last.start) + last.text + s[last.end..end]
  }

  /** Applying a whole list of disjoint fixes to a text. */
  function ApplyFixes(s: string, fixes: seq<Fix>): string
    requires Ordered(fixes, |s|)
  {
    ApplyFixesTo(s, fixes, |s|)
  }

  /** Fixes that all end by `p` leave the text from `p` to `end` as it is. */
  lemma ApplyFixesToExtend(s: string, fixes: seq<Fix>, p: nat, end: nat)
    requires p <= end <= |s| && Ordered(fixes, p)
    ensures Ordered(fixes, end)
    ensures ApplyFixesTo(s, fixes, end) == ApplyFixesTo(s, fixes, p) + s[p..end]
  {
    if fixes == [] {
      assert s[..end] == s[..p] + s[p..end];
    } else {
      var last := fixes[|fixes| - 1];
      var head := ApplyFixesTo(s, fixes[..|fixes| - 1], last.start) + last.text;
      SplitAt(head, s, last.end, p, end, s[last.end..p]);
    }
  }

  /** Text put in front of `s[p..end]`, where `s[p..e]` is `t`. */
  lemma SplitAt(a: string, s: string, p: nat, e: nat, end: nat, t: string)
    requires p <= e <= end <= |s| && s[p..e] == t
    ensures a + s[p..end] == a + t + s[e..end]
  {
    assert s[p..end] == t + s[e..end];
  }

  /** Fixes that all end by `p` leave a piece `t` of the text from `p` on untouched. */
  lemma ApplyFixesToKeep(s: string, fixes: seq<Fix>, p: nat, e: nat, end: nat, t: string)
    requires p <= e <= end <= |s| && Ordered(fixes, p) && s[p..e] == t
    ensures Ordered(fixes, end)
    ensures ApplyFixesTo(s, fixes, end) == ApplyFixesTo(s, fixes, p) + t + s[e..end]
  {
    ApplyFixesToExtend(s, fixes, p, end);
    SplitAt(ApplyFixesTo(s, fixes, p), s, p, e, end, t);
  }

  /** The last fix replaces its own range; the others work on the text before it. */
  lemma ApplyFixesToSnoc(s: string, fixes: seq<Fix>, f: Fix, end: nat)
    requires Fits(f, end) && end <= |s| && Ordered(fixes, f.start)
    ensures Ordered(fixes + [f], end)
    ensures ApplyFixesTo(s, fixes + [f], end) == ApplyFixesTo(s, fixes, f.start) + f.text + s[f.end..end]
  {
    assert (fixes + [f])[..|fixes|] == fixes;
  }

  /** The fixes of a list of reports, in report order. */
  function FixesOf<M>(reports: seq<Report<M>>): (fixes: seq<Fix>)
    ensures |fixes| <= |reports|
  {
    if reports == [] then []
    else
      var last := reports[|reports| - 1];
      FixesOf(reports[..|reports| - 1]) + (if last.fix.Some? then [last.fix.value] else [])
  }

  /** A report appended at the end adds its fix, if any, at the end. */
  lemma FixesOfSnoc<M>(reports: seq<Report<M>>, r: Report<M>)
    ensures FixesOf(reports + [r]) == FixesOf(reports) + (if r.fix.Some? then [r.fix.value] else [])
  {
    assert (reports + [r])[..|reports|] == reports;
  }

  /** The file-level report a rule gives when the editorconfig lookup has no answer. */
  function Notice<M>(id: M): (r: Report<M>)
    ensures r.messageId == id && r.fix.None? && r.loc == Point(Position(0, 0))
  {
    Report(Point(Position(0, 0)), id, None)
  }

  /** A notice in front of a rule's reports adds no fix: the fixed text is the same. */
  lemma {:induction false} NoticeAddsNoFix<M>(id: M, reports: seq<Report<M>>)
    ensures FixesOf([Notice(id)] + reports) == FixesOf(reports)
    decreases |reports|
  {
    if reports == [] {
      assert FixesOf([Notice(id)]) == FixesOf<M>([]) + [];
    } else {
      var front := reports[..|reports| - 1];
      var last := reports[|reports| - 1];
      assert reports == front + [last];
      assert [Notice(id)] + reports == ([Notice(id)] + front) + [last];
      NoticeAddsNoFix(id, front);
      FixesOfSnoc([Notice(id)] + front, last);
      FixesOfSnoc(front, last);
    }
  }

  /** The mode a rule goes on with, and whether it has reported the missing configuration. */
  datatype Resolution = Resolution(mode: Value, notice: bool)

  /**
   * The `mode === 'editorconfig'` block: a configured mode other than
   * "editorconfig" stands; otherwise the lookup's value replaces it, the
   * missing-fallback error is reported and leaves the mode "editorconfig",
   * and every other error is rethrown.
   */
  function ResolveMode(configured: Value, lookup: Result<Value, Error>): (r: Result<Resolution, Error>)
    ensures r.Err? <==> configured == Str("editorconfig") && lookup.Err? && lookup.error != NoFallbackAndEditorconfig
    ensures r.Err? ==> r.error == lookup.error
    ensures r.Ok? && r.value.notice <==> configured == Str("editorconfig") && lookup == Err(NoFallbackAndEditorconfig)
    ensures r.Ok? && r.value.notice ==> r.value.mode == Str("editorconfig")
    ensures r.Ok? && !r.value.notice ==>
      r.value.mode == if configured == Str("editorconfig") then lookup.value else configured
  {
    if configured != Str("editorconfig") then Ok(Resolution(configured, false))
    else
      match lookup
      case Ok(v) => Ok(Resolution(v, false))
      case Err(e) =>
        if e == NoFallbackAndEditorconfig then Ok(Resolution(configured, true)) else Err(e)
  }
}
