/**
 * Rule options read from `.editorconfig` files (packages/shared/editorconfig.ts).
 *
 * The filesystem and the `.editorconfig` parser are handed in as a `FileSystem`
 * of total functions; the resolver itself is the class `EditorConfig`, whose
 * cache is a map that only ever grows.
 */
module EditorConfig {
  import opened Wrappers

  type Path = string

  // ---------------------------------------------------------------------------
  // Values, rule names and the rulesVsProps table
  // ---------------------------------------------------------------------------

  /** A JavaScript value as it flows into and out of `getOptions`. */
  datatype Value = Str(s: string) | Num(n: int) | Bool(b: bool)

  /** JavaScript truthiness, as tested by `if (eslintOption)` and `else if (fallback)`. */
  predicate Truthy(v: Value)
    ensures Truthy(v) <==> v != Str("") && v != Num(0) && v != Bool(false)
  {
    match v
    case Str(s) => s != ""
    case Num(n) => n != 0
    case Bool(b) => b
  }

  datatype RuleName = EolLast | Indent | JsxIndentProps | LinebreakStyle | NoTrailingSpaces

  /** The `rulesVsProps` table: the editorconfig properties behind each rule. */
  function PropNames(rule: RuleName): (names: seq<string>)
    ensures 1 <= |names| <= 2
    ensures |names| == 2 <==> rule == Indent || rule == JsxIndentProps
  {
    match rule
    case EolLast => ["insert_final_newline"]
    case Indent => ["indent_style", "indent_size"]
    case JsxIndentProps => ["indent_style", "indent_size"]
    case LinebreakStyle => ["end_of_line"]
    case NoTrailingSpaces => ["trim_trailing_whitespace"]
  }

  /** `Array.prototype.join`. */
  function Join(parts: seq<string>, sep: string): string
  {
    if |parts| == 0 then ""
    else if |parts| == 1 then parts[0]
    else parts[0] + sep + Join(parts[1..], sep)
  }

  const MessageTail := " is not set in .editorconfig and `fallback` option is not given either. Set one of them."

  /** `t` is a suffix of `s`. */
  predicate EndsWith(s: string, t: string)
  {
    |t| <= |s| && s[|s| - |t|..] == t
  }

  /** The `message` helper: the text of every rule's `editorconfig` message. */
  function Message(rule: RuleName): (m: string)
    ensures |m| > |MessageTail| && m[0] == '`' && EndsWith(m, MessageTail)
  {
    "`" + Join(PropNames(rule), "` and `") + "`" + MessageTail
  }

  /** Joining one or two parts. */
  lemma JoinShort(parts: seq<string>, sep: string)
    ensures |parts| == 1 ==> Join(parts, sep) == parts[0]
    ensures |parts| == 2 ==> Join(parts, sep) == parts[0] + sep + parts[1]
  {
    if |parts| == 2 {
      assert parts[1..] == [parts[1]];
    }
  }

  /** A single property name is wrapped in backticks; two are joined by "` and `". */
  lemma MessageQuotesProperties(rule: RuleName)
    ensures |PropNames(rule)| == 1 ==>
      Message(rule) == "`" + PropNames(rule)[0] + "`" + MessageTail
    ensures |PropNames(rule)| == 2 ==>
      Message(rule) == "`" + PropNames(rule)[0] + "` and `" + PropNames(rule)[1] + "`" + MessageTail
  {
    JoinShort(PropNames(rule), "` and `");
  }

  // ---------------------------------------------------------------------------
  // editorconfig properties and their conversion into rule options
  // ---------------------------------------------------------------------------

  /** A property value as the editorconfig parser hands it over. */
  datatype PropValue = Text(s: string) | Number(n: int) | Boolean(b: bool) | Null

  /** The properties that apply to one path; a missing key is `undefined`. */
  type Props = map<string, PropValue>

  function Prop(props: Props, key: string): Option<PropValue>
  {
    if key in props then Some(props[key]) else None
  }

  datatype EolLastSetting = Always | Never
  datatype IndentSetting = IndentWidth(width: int) | IndentTab
  datatype LinebreakSetting = Unix | Windows

  /**
   * The `ESLintConfig` record built from one set of properties. There is no
   * field for `jsx-indent-props`: the conversion never sets it.
   */
  datatype RuleConfig = RuleConfig(
    eolLast: Option<EolLastSetting>,
    indent: Option<IndentSetting>,
    linebreakStyle: Option<LinebreakSetting>,
    noTrailingSpaces: Option<bool>)

  /** The errors the resolver and the two rules raise or let through, told apart by kind. */
  datatype Error =
    | NoFallbackAndEditorconfig
    | IndentSizeRequired
    | IndentSizeConflict(indentSize: PropValue)
    | ParseFailure(reason: string)

  /** `#convertToESLintRules`; its only failure is a configuration error, never the missing-fallback one. */
  function ConvertToESLintRules(props: Props): (r: Result<RuleConfig, Error>)
    ensures r.Err? ==> r.error == IndentSizeRequired || r.error.IndentSizeConflict?
  {
    var finalNewline := Prop(props, "insert_final_newline");
    var style := Prop(props, "indent_style");
    var size := Prop(props, "indent_size");
    var endOfLine := Prop(props, "end_of_line");
    var trim := Prop(props, "trim_trailing_whitespace");
    if style == Some(Text("space")) && !(size.Some? && size.value.Number?) then
      if size == None || size == Some(Null) then Err(IndentSizeRequired)
      else Err(IndentSizeConflict(size.value))
    else
      var eolLast :=
        if finalNewline == Some(Boolean(true)) then Some(Always)
        else if finalNewline == Some(Boolean(false)) then Some(Never)
        else None;
      var indent :=
        if style == Some(Text("space")) then Some(IndentWidth(size.value.n))
        else if style == Some(Text("tab")) then Some(IndentTab)
        else None;
      var linebreakStyle :=
        if endOfLine == Some(Text("lf")) then Some(Unix)
        else if endOfLine == Some(Text("crlf")) then Some(Windows)
        else None;
      var noTrailingSpaces := if trim == Some(Boolean(true)) then Some(true) else None;
      Ok(RuleConfig(eolLast, indent, linebreakStyle, noTrailingSpaces))
  }

  /** `config[ruleName]`: the value `getOptions` reads for a rule. */
  function RuleValue(config: RuleConfig, rule: RuleName): (v: Option<Value>)
    ensures rule == JsxIndentProps ==> v == None
    ensures rule == EolLast ==>
      (v.Some? <==> config.eolLast.Some?) && (v.Some? ==> v.value == Str("always") || v.value == Str("never"))
    ensures rule == Indent ==>
      (v.Some? <==> config.indent.Some?) && (v.Some? ==> v.value == Str("tab") || v.value.Num?)
    ensures rule == LinebreakStyle ==>
      (v.Some? <==> config.linebreakStyle.Some?) && (v.Some? ==> v.value == Str("unix") || v.value == Str("windows"))
    ensures rule == NoTrailingSpaces ==>
      (v.Some? <==> config.noTrailingSpaces.Some?) && (v.Some? ==> v.value.Bool?)
  {
    match rule
    case EolLast =>
      (match config.eolLast
       case Some(Always) => Some(Str("always"))
       case Some(Never) => Some(Str("never"))
       case None => None)
    case Indent =>
      (match config.indent
       case Some(IndentWidth(w)) => Some(Num(w))
       case Some(IndentTab) => Some(Str("tab"))
       case None => None)
    case JsxIndentProps => None
    case LinebreakStyle =>
      (match config.linebreakStyle
       case Some(Unix) => Some(Str("unix"))
       case Some(Windows) => Some(Str("windows"))
       case None => None)
    case NoTrailingSpaces =>
      (match config.noTrailingSpaces
       case Some(b) => Some(Bool(b))
       case None => None)
  }

  /** `insert_final_newline`: `true` gives "always", `false` gives "never", anything else nothing. */
  lemma ConvertFinalNewline(props: Props)
    requires ConvertToESLintRules(props).Ok?
    ensures var v := RuleValue(ConvertToESLintRules(props).value, EolLast);
      var p := Prop(props, "insert_final_newline");
      (v == Some(Str("always")) <==> p == Some(Boolean(true))) &&
      (v == Some(Str("never")) <==> p == Some(Boolean(false))) &&
      (v == None <==> p != Some(Boolean(true)) && p != Some(Boolean(false)))
  {
  }

  /** `end_of_line`: "lf" gives "unix", "crlf" gives "windows", anything else nothing. */
  lemma ConvertEndOfLine(props: Props)
    requires ConvertToESLintRules(props).Ok?
    ensures var v := RuleValue(ConvertToESLintRules(props).value, LinebreakStyle);
      var p := Prop(props, "end_of_line");
      (v == Some(Str("unix")) <==> p == Some(Text("lf"))) &&
      (v == Some(Str("windows")) <==> p == Some(Text("crlf"))) &&
      (v == None <==> p != Some(Text("lf")) && p != Some(Text("crlf")))
  {
  }

  /**
   * `indent_style` and `indent_size`: "space" needs a numeric size and fails
   * otherwise, with an error that is not the missing-fallback one; "tab" gives
   * "tab"; any other style gives nothing.
   */
  lemma ConvertIndent(props: Props)
    ensures var r := ConvertToESLintRules(props);
      var style := Prop(props, "indent_style");
      var size := Prop(props, "indent_size");
      (r.Err? <==> style == Some(Text("space")) && !(size.Some? && size.value.Number?)) &&
      (r.Err? ==> r.error != NoFallbackAndEditorconfig &&
                  (r.error == IndentSizeRequired <==> size == None || size == Some(Null))) &&
      (r.Ok? && style == Some(Text("space")) ==> RuleValue(r.value, Indent) == Some(Num(size.value.n))) &&
      (r.Ok? && style == Some(Text("tab")) ==> RuleValue(r.value, Indent) == Some(Str("tab"))) &&
      (r.Ok? && style != Some(Text("space")) && style != Some(Text("tab")) ==> RuleValue(r.value, Indent) == None)
  {
  }

  /** `trim_trailing_whitespace`: only exactly `true` gives `true`; it is never mapped to `false`. */
  lemma ConvertTrimTrailingWhitespace(props: Props)
    requires ConvertToESLintRules(props).Ok?
    ensures var v := RuleValue(ConvertToESLintRules(props).value, NoTrailingSpaces);
      (v == Some(Bool(true)) <==> Prop(props, "trim_trailing_whitespace") == Some(Boolean(true))) &&
      (v != Some(Bool(true)) ==> v == None)
  {
  }

  // ---------------------------------------------------------------------------
  // The decision of getOptions
  // ---------------------------------------------------------------------------

  /**
   * What `getOptions` returns once the rule config for the path is known: the
   * configured value when truthy, else the fallback when truthy, else the
   * tagged error.
   */
  function SelectOption(config: RuleConfig, rule: RuleName, fallback: Option<Value>): (r: Result<Value, Error>)
    ensures r.Ok? ==> Truthy(r.value)
    ensures r.Ok? ==> Some(r.value) == RuleValue(config, rule) || Some(r.value) == fallback
    ensures r.Ok? <==> (RuleValue(config, rule).Some? && Truthy(RuleValue(config, rule).value))
                       || (fallback.Some? && Truthy(fallback.value))
    ensures r.Err? ==> r.error == NoFallbackAndEditorconfig
  {
    var eslintOption := RuleValue(config, rule);
    if eslintOption.Some? && Truthy(eslintOption.value) then Ok(eslintOption.value)
    else if fallback.Some? && Truthy(fallback.value) then Ok(fallback.value)
    else Err(NoFallbackAndEditorconfig)
  }

  /** A truthy configured value wins over any fallback. */
  lemma ConfiguredValueWins(config: RuleConfig, rule: RuleName, fallback: Option<Value>)
    requires RuleValue(config, rule).Some? && Truthy(RuleValue(config, rule).value)
    ensures SelectOption(config, rule, fallback) == Ok(RuleValue(config, rule).value)
  {
  }

  /** The fallback "off" is truthy, so it is returned rather than treated as missing. */
  lemma OffFallbackIsReturned(config: RuleConfig, rule: RuleName)
    requires RuleValue(config, rule).None?
    ensures SelectOption(config, rule, Some(Str("off"))) == Ok(Str("off"))
  {
  }

  /** An `indent_size` of 0 is falsy, so the fallback (or the error) decides. */
  lemma ZeroIndentFallsThrough(config: RuleConfig, fallback: Option<Value>)
    requires config.indent == Some(IndentWidth(0))
    ensures SelectOption(config, Indent, fallback) ==
      if fallback.Some? && Truthy(fallback.value) then Ok(fallback.value) else Err(NoFallbackAndEditorconfig)
  {
  }

  // ---------------------------------------------------------------------------
  // The cache, as a value
  // ---------------------------------------------------------------------------

  /** `CacheValue`: a converted config, or `{redirectTo: dir}` (`#isRedirectDirPath` is `RedirectTo?`). */
  datatype CacheValue = Config(config: RuleConfig) | RedirectTo(dir: Path)

  type Cache = map<Path, CacheValue>

  /**
   * The collaborators the resolver calls: `lstat(p).isDirectory()`, `dirname`
   * and the editorconfig parser, which may fail.
   */
  datatype FileSystem = FileSystem(
    isDirectory: Path -> bool,
    dirname: Path -> Path,
    parse: Path -> Result<Props, string>)

  /** Assumed of the filesystem: the directory name of a non-directory is a directory. */
  ghost predicate DirnameIsDirectory(fs: FileSystem)
  {
    forall p :: !fs.isDirectory(p) ==> fs.isDirectory(fs.dirname(p))
  }

  /** The only entries `#setCache` can write for a path. */
  predicate EntryFits(fs: FileSystem, path: Path, v: CacheValue)
  {
    match v
    case Config(_) => fs.isDirectory(path)
    case RedirectTo(dir) => !fs.isDirectory(path) && dir == fs.dirname(path)
  }

  /** Cache invariant: directories hold configs, everything else redirects to its directory. */
  ghost predicate CacheInvariant(fs: FileSystem, cache: Cache)
  {
    forall p :: p in cache ==> EntryFits(fs, p, cache[p])
  }

  /** The entry `#setCache` stores for a path whose configs were just loaded. */
  function EntryFor(fs: FileSystem, path: Path, config: RuleConfig): (v: CacheValue)
    ensures EntryFits(fs, path, v)
    ensures v.Config? ==> v.config == config
  {
    if fs.isDirectory(path) then Config(config) else RedirectTo(fs.dirname(path))
  }

  /** `#loadConfigs`: parse the properties for a path and convert them. */
  function ParseAndConvert(fs: FileSystem, targetDirName: Path): (r: Result<RuleConfig, Error>)
    ensures r.Err? ==> r.error != NoFallbackAndEditorconfig
  {
    match fs.parse(targetDirName)
    case Err(reason) => Err(ParseFailure(reason))
    case Ok(props) => ConvertToESLintRules(props)
  }

  /** Directories are looked up first: a redirect always leads to one. */
  function Rank(fs: FileSystem, path: Path): nat
  {
    if fs.isDirectory(path) then 0 else 1
  }

  /** One `#getCache` call: what it returns, the cache after it, the paths it parsed. */
  datatype Lookup = Lookup(result: Result<RuleConfig, Error>, cache: Cache, parsed: seq<Path>)

  /** The behaviour of `#getCache` on a given cache. */
  function Resolve(fs: FileSystem, cache: Cache, path: Path): (o: Lookup)
    requires DirnameIsDirectory(fs) && CacheInvariant(fs, cache)
    ensures CacheInvariant(fs, o.cache)
    ensures forall p :: p in cache ==> p in o.cache && o.cache[p] == cache[p]
    ensures forall p :: p in o.cache && p !in cache ==> p in o.parsed
    ensures |o.parsed| <= 1
    ensures o.parsed == [] ==> o.cache == cache && o.result.Ok?
    ensures o.result.Err? ==> o.result.error != NoFallbackAndEditorconfig
    decreases Rank(fs, path)
  {
    if path !in cache then
      var loaded := ParseAndConvert(fs, path);
      var after := if loaded.Ok? then cache[path := EntryFor(fs, path, loaded.value)] else cache;
      Lookup(loaded, after, [path])
    else
      match cache[path]
      case Config(c) => Lookup(Ok(c), cache, [])
      case RedirectTo(dir) => Resolve(fs, cache, dir)
  }

  /**
   * A miss on `path` parses `path` itself and returns that result; the cache
   * then holds the config for a directory and a redirect for anything else.
   */
  lemma ResolveMiss(fs: FileSystem, cache: Cache, path: Path)
    requires DirnameIsDirectory(fs) && CacheInvariant(fs, cache)
    requires path !in cache
    ensures var o := Resolve(fs, cache, path);
      o.result == ParseAndConvert(fs, path) && o.parsed == [path] &&
      (o.result.Ok? ==> o.cache == cache[path := if fs.isDirectory(path) then Config(o.result.value)
                                                 else RedirectTo(fs.dirname(path))]) &&
      (o.result.Err? ==> o.cache == cache)
  {
  }

  /** A hit on a config entry returns it and parses nothing. */
  lemma ResolveHit(fs: FileSystem, cache: Cache, path: Path)
    requires DirnameIsDirectory(fs) && CacheInvariant(fs, cache)
    requires path in cache && cache[path].Config?
    ensures Resolve(fs, cache, path) == Lookup(Ok(cache[path].config), cache, [])
  {
  }

  /**
   * A redirect leads to a directory, whose entry (if any) is a config: at most
   * one redirect is followed.
   */
  lemma RedirectFollowedOnce(fs: FileSystem, cache: Cache, path: Path)
    requires DirnameIsDirectory(fs) && CacheInvariant(fs, cache)
    requires path in cache && cache[path].RedirectTo?
    ensures var dir := cache[path].dir;
      fs.isDirectory(dir) && (dir in cache ==> cache[dir].Config?) &&
      Resolve(fs, cache, path) == Resolve(fs, cache, dir) &&
      (dir in cache ==> Resolve(fs, cache, path).parsed == []) &&
      (dir !in cache ==> Resolve(fs, cache, path).parsed == [dir])
  {
  }

  /**
   * Looking up a new file three times, when the first lookup succeeds: the
   * first parses the file itself and stores a redirect; the second parses the
   * directory and, when that parse succeeds, stores its config; the third then
   * parses nothing.
   */
  lemma FileLookedUpRepeatedly(fs: FileSystem, cache: Cache, file: Path)
    requires DirnameIsDirectory(fs) && CacheInvariant(fs, cache)
    requires !fs.isDirectory(file) && file !in cache && fs.dirname(file) !in cache
    requires Resolve(fs, cache, file).result.Ok?
    ensures var dir := fs.dirname(file);
      var o1 := Resolve(fs, cache, file);
      var o2 := Resolve(fs, o1.cache, file);
      o1.parsed == [file] && o1.cache[file] == RedirectTo(dir) && dir !in o1.cache &&
      o2.parsed == [dir] && o2.result == ParseAndConvert(fs, dir) &&
      (o2.result.Ok? ==> dir in o2.cache && o2.cache[dir] == Config(o2.result.value) &&
                         Resolve(fs, o2.cache, file) == Lookup(o2.result, o2.cache, []))
  {
    var dir := fs.dirname(file);
    var o1 := Resolve(fs, cache, file);
    ResolveMiss(fs, cache, file);
    assert dir != file;
    RedirectFollowedOnce(fs, o1.cache, file);
    var o2 := Resolve(fs, o1.cache, file);
    ResolveMiss(fs, o1.cache, dir);
    if o2.result.Ok? {
      RedirectFollowedOnce(fs, o2.cache, file);
      ResolveHit(fs, o2.cache, dir);
    }
  }

  /**
   * Two new files of one directory are each parsed on their first lookup; the
   * directory itself is parsed by neither.
   */
  lemma SiblingFilesParsedSeparately(fs: FileSystem, cache: Cache, a: Path, b: Path)
    requires DirnameIsDirectory(fs) && CacheInvariant(fs, cache)
    requires a != b && !fs.isDirectory(a) && !fs.isDirectory(b) && fs.dirname(a) == fs.dirname(b)
    requires a !in cache && b !in cache && fs.dirname(a) !in cache
    ensures var o1 := Resolve(fs, cache, a);
      var o2 := Resolve(fs, o1.cache, b);
      o1.parsed == [a] && o2.parsed == [b] && o2.result == ParseAndConvert(fs, b) &&
      fs.dirname(a) !in o2.cache
  {
    var o1 := Resolve(fs, cache, a);
    ResolveMiss(fs, cache, a);
    assert b !in o1.cache;
    ResolveMiss(fs, o1.cache, b);
    assert fs.dirname(a) != a && fs.dirname(a) != b;
  }

  /** The behaviour of `getOptions` on a given cache. */
  function OptionsFor(fs: FileSystem, cache: Cache, rule: RuleName, path: Path, fallback: Option<Value>): (r: Result<Value, Error>)
    requires DirnameIsDirectory(fs) && CacheInvariant(fs, cache)
    ensures r.Ok? ==> Truthy(r.value)
    ensures r.Err? ==> (r.error == NoFallbackAndEditorconfig <==> Resolve(fs, cache, path).result.Ok?)
    ensures Resolve(fs, cache, path).result.Err? ==> r == Err(Resolve(fs, cache, path).result.error)
    ensures Resolve(fs, cache, path).result.Ok? ==> r == SelectOption(Resolve(fs, cache, path).result.value, rule, fallback)
  {
    match Resolve(fs, cache, path).result
    case Err(e) => Err(e)
    case Ok(c) => SelectOption(c, rule, fallback)
  }

  // ---------------------------------------------------------------------------
  // The resolver object
  // ---------------------------------------------------------------------------

  /** The `EditorConfig` class: a private cache from paths to configs or redirects. */
  class EditorConfig {
    const fs: FileSystem
    var cache: Cache
    /** Every path handed to the parser so far, in order. */
    ghost var parseLog: seq<Path>

    ghost predicate Valid()
      reads this
    {
      DirnameIsDirectory(fs) && CacheInvariant(fs, cache)
    }

    constructor (fs: FileSystem)
      requires DirnameIsDirectory(fs)
      ensures Valid() && this.fs == fs && cache == map[] && parseLog == []
    {
      this.fs := fs;
      cache := map[];
      parseLog := [];
    }

    /** `getOptions`. */
    method GetOptions(rule: RuleName, lintTargetPath: Path, fallback: Option<Value>) returns (r: Result<Value, Error>)
      requires Valid()
      modifies this
      ensures Valid()
      ensures r == OptionsFor(fs, old(cache), rule, lintTargetPath, fallback)
      ensures var o := Resolve(fs, old(cache), lintTargetPath);
        cache == o.cache && parseLog == old(parseLog) + o.parsed
    {
      var config := GetCache(lintTargetPath);
      if config.Err? {
        return Err(config.error);
      }
      r := SelectOption(config.value, rule, fallback);
    }

    /** `#getCache`. */
    method GetCache(lintTargetPath: Path) returns (r: Result<RuleConfig, Error>)
      requires Valid()
      modifies this
      ensures Valid()
      ensures var o := Resolve(fs, old(cache), lintTargetPath);
        r == o.result && cache == o.cache && parseLog == old(parseLog) + o.parsed
      decreases Rank(fs, lintTargetPath)
    {
      if lintTargetPath !in cache {
        r := LoadConfigs(lintTargetPath);
        if r.Ok? {
          SetCache(lintTargetPath, r.value);
        }
      } else if cache[lintTargetPath].RedirectTo? {
        r := GetCache(cache[lintTargetPath].dir);
      } else {
        r := Ok(cache[lintTargetPath].config);
      }
    }

    /** `#setCache`: the config itself under a directory, a redirect under anything else. */
    method SetCache(lintTargetPath: Path, config: RuleConfig)
      requires Valid()
      modifies this`cache
      ensures Valid()
      ensures cache == old(cache)[lintTargetPath := EntryFor(fs, lintTargetPath, config)]
    {
      if fs.isDirectory(lintTargetPath) {
        cache := cache[lintTargetPath := Config(config)];
      } else {
        var lintTargetDirName := fs.dirname(lintTargetPath);
        cache := cache[lintTargetPath := RedirectTo(lintTargetDirName)];
      }
    }

    /** `#loadConfigs`. */
    method LoadConfigs(targetDirName: Path) returns (r: Result<RuleConfig, Error>)
      modifies this`parseLog
      ensures r == ParseAndConvert(fs, targetDirName)
      ensures parseLog == old(parseLog) + [targetDirName]
    {
      parseLog := parseLog + [targetDirName];
      var ecParams := fs.parse(targetDirName);
      if ecParams.Err? {
        return Err(ParseFailure(ecParams.error));
      }
      r := ConvertToESLintRules(ecParams.value);
    }
  }
}
