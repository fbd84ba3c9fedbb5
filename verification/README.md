# editorconfig-driven layout rules, modelled in Dafny

This project models a core part of a set of stylistic lint rules for JavaScript.
It covers three pieces:

- **The resolver** (`packages/shared/editorconfig.ts`). This is the `EditorConfig` class.
  - It keeps a private cache from paths to rule configurations. A directory gets its converted config. Any other path gets a redirect to its directory.
  - It converts the editorconfig properties `insert_final_newline`, `indent_style`/`indent_size`, `end_of_line` and `trim_trailing_whitespace` into rule option values.
  - `getOptions` returns the configured value when truthy, else the fallback when truthy, else throws the missing-fallback error.
  - `message` builds the text of that error's notice.
- **`eol-last`** (`checkBadEOF`). It requires or forbids a newline at the end of the text. Its fixes append `\n` or `\r\n`, or delete the whole trailing run of `\r?\n`.
- **`linebreak-style`** (`checkForLinebreakStyle`, `createFix`). It scans every line break and reports each one that is not the expected terminator. Each report carries a fix that replaces that break.

The modules are:

- `Wrappers` holds `Option` and `Result`.
- `EditorConfig` holds values and truthiness, the conversion, the `getOptions` decision, and the cache. The cache is specified twice: as the function `Resolve` and as the class `EditorConfig`. The class methods are proved equal to `Resolve`.
- `Fixes` holds report locations and fixes, and what it means to apply a list of disjoint fixes. It also holds the `mode === 'editorconfig'` block that both rules share (`ResolveMode`).
- `EolLast` and `LinebreakStyle` hold the rules. Each rule is a pure function of its options and of the lookup outcome. Next to it sits a method that wires the rule to an `EditorConfig` object. The line-break scan is also a method with a loop, proved against the function `StyleReports`.

A text is a `string` with one character per UTF-16 code unit of the source text, as JavaScript strings hold them. The code units of `\r` and `\n` are those characters themselves; every other code unit, including each half of a surrogate pair, stands as some character other than `\r` and `\n` (a lone surrogate is not a Dafny `char`, so it is written as a stand-in). Every length, offset and column in the model (`|src|`, a match's index, a line's length, a fix's range) therefore counts code units, as `src.length`, `match.index` and `lines[i].length` do. Every claim of the model depends only on `\r`, `\n` and lengths.

Where the documented intent and the code differ, the model follows the code:

- A cache miss on a file path parses the file path itself and stores a redirect. The directory's entry appears only on the second lookup of that file. So two new files of one directory are each parsed once, and the directory is not parsed at all (`SiblingFilesParsedSeparately`). It is not "one parse per directory".
- `getOptions` tests truthiness. An `indent_size` of 0 therefore counts as unset (`ZeroIndentFallsThrough`).
- `indent_style = space` accepts any number as `indent_size`, including zero and negative numbers.
- The converter never sets `jsx-indent-props`.
- In `linebreak-style`, every resolved value other than exactly `"unix"` expects `\r\n`. That includes `"off"` and the unresolved `"editorconfig"`. After the missing-fallback notice the scan still runs (`OffExpectsCRLF`, `LookupFailureStillScans`).

## Model

| member | source | states |
|---|---|---|
| EditorConfig.MessageQuotesProperties | packages/shared/editorconfig.ts:182-187 | The notice quotes a single property in backticks. Two properties are joined by "` and `". The fixed tail follows. |
| EditorConfig.Truthy | packages/shared/editorconfig.ts:66-70 | A value is truthy iff it is not the empty string, the number 0 or `false`, the falsy values these options can take. |
| EditorConfig.PropNames | packages/shared/editorconfig.ts:50-56 | Each rule is backed by one property, except the two indent rules, which are backed by two. |
| EditorConfig.Message | packages/shared/editorconfig.ts:182-187 | The notice starts with a backtick and ends with the fixed tail. |
| EditorConfig.ConvertToESLintRules | packages/shared/editorconfig.ts:110-169 | Conversion fails only with a configuration error, never with the missing-fallback error. |
| EditorConfig.ConvertFinalNewline | packages/shared/editorconfig.ts:119-122 | `insert_final_newline` true gives "always", false gives "never", anything else nothing (each as an iff). |
| EditorConfig.ConvertIndent | packages/shared/editorconfig.ts:127-143 | It fails iff the style is "space" and the size is not a number. The error is "required" iff the size is missing or null. A numeric size gives that number. "tab" gives "tab". Any other style gives nothing. |
| EditorConfig.ConvertEndOfLine | packages/shared/editorconfig.ts:148-151 | "lf" gives "unix", "crlf" gives "windows", anything else nothing (each as an iff). |
| EditorConfig.ConvertTrimTrailingWhitespace | packages/shared/editorconfig.ts:156-161 | Only exactly `true` gives `true`. The value is never `false`. |
| EditorConfig.RuleValue | packages/shared/editorconfig.ts:64 | The value read for a rule is present iff the converted config sets it, and is one of that rule's option values: "always"/"never", "tab" or a width, "unix"/"windows", a boolean. `jsx-indent-props` never has one, whatever the config: the converted object at lines 163-168 has no such key. |
| EditorConfig.SelectOption | packages/shared/editorconfig.ts:63-78 | A result is truthy and is the configured value or the fallback. It succeeds iff one of them is truthy. Otherwise the error is the missing-fallback one. |
| EditorConfig.ConfiguredValueWins | packages/shared/editorconfig.ts:64-68 | A truthy configured value is returned whatever the fallback. |
| EditorConfig.OffFallbackIsReturned | packages/shared/editorconfig.ts:69-71 | The fallback "off" is returned, not treated as missing. |
| EditorConfig.ZeroIndentFallsThrough | packages/shared/editorconfig.ts:66-77 | An indent of 0 is falsy: the fallback or the error decides. |
| EditorConfig.EntryFor | packages/shared/editorconfig.ts:96-104 | The stored entry fits the path: a config for a directory, a redirect to `dirname` otherwise. |
| EditorConfig.ParseAndConvert | packages/shared/editorconfig.ts:171-174 | Loading fails only with a parse or configuration error, never with the missing-fallback one. |
| EditorConfig.Resolve | packages/shared/editorconfig.ts:80-94 | Keeps the cache invariant. Existing entries never change. Every new entry was parsed. At most one path is parsed. A lookup that parses nothing leaves the cache unchanged and succeeds. |
| EditorConfig.ResolveMiss | packages/shared/editorconfig.ts:83-87 | A miss parses exactly that path and returns its result. On success it stores a config (directory) or a redirect (otherwise). On failure it stores nothing. |
| EditorConfig.ResolveHit | packages/shared/editorconfig.ts:91-93 | A config entry is returned as is, with no parse and no change. |
| EditorConfig.RedirectFollowedOnce | packages/shared/editorconfig.ts:88-90 | A redirect leads to a directory whose entry, if any, is a config. The lookup equals the directory's lookup and parses only that directory, when it is new. |
| EditorConfig.FileLookedUpRepeatedly | packages/shared/editorconfig.ts:80-104 | A new file whose first lookup succeeds, looked up three times: the 1st parses the file and stores a redirect, the 2nd parses the directory and, when that parse succeeds, stores its config, and the 3rd then parses nothing. |
| EditorConfig.SiblingFilesParsedSeparately | packages/shared/editorconfig.ts:80-104 | Two new files of one directory are each parsed, and the directory gets no entry. |
| EditorConfig.OptionsFor | packages/shared/editorconfig.ts:63-78 | A failed cache lookup's error is returned unchanged. A successful one gives `SelectOption`'s answer for the stored config: the configured value when truthy, else the fallback when truthy, else the missing-fallback error. A result is truthy, and an error is the missing-fallback one iff the cache lookup itself succeeded. |
| EditorConfig.EditorConfig.constructor | packages/shared/editorconfig.ts:60-61 | Starts with an empty cache and nothing parsed. |
| EditorConfig.EditorConfig.GetOptions | packages/shared/editorconfig.ts:63-78 | Returns `OptionsFor` on the old cache. The new cache and the parse log are those of `Resolve`. |
| EditorConfig.EditorConfig.GetCache | packages/shared/editorconfig.ts:80-94 | The recursive method returns, stores and parses exactly what `Resolve` says. |
| EditorConfig.EditorConfig.SetCache | packages/shared/editorconfig.ts:96-104 | Only that path's entry changes, to a config for a directory or a redirect to `dirname` otherwise. The invariant is kept. |
| EditorConfig.EditorConfig.LoadConfigs | packages/shared/editorconfig.ts:171-174 | Parses exactly that path, logs it, and returns the converted result. |
| Fixes.ApplyFix | packages/eslint-plugin-js/rules/linebreak-style/linebreak-style.ts:63-67 | The effect of the host fixer's `replaceTextRange` (and of `insertTextAfterRange` on an empty range at the end): everything before the range and everything after it is kept, and the fix's text is put in between. |
| Fixes.Notice | packages/eslint-plugin-js/rules/eol-last/eol-last.ts:85-92 | The missing-fallback notice carries the `editorconfig` message, no fix, and sits at line 0, column 0, before every line of the text. |
| Fixes.NoticeAddsNoFix | packages/eslint-plugin-js/rules/eol-last/eol-last.ts:85-92 | Putting the notice in front of a rule's reports leaves their fixes, and so the fixed text, unchanged. |
| Fixes.ResolveMode | packages/eslint-plugin-js/rules/linebreak-style/linebreak-style.ts:74-95 | A configured mode other than "editorconfig" stands. Otherwise a found value replaces it. The missing-fallback error gives the notice and leaves the mode "editorconfig". Every other error is passed on (each as an iff). |
| EolLast.Configured | packages/eslint-plugin-js/rules/eol-last/eol-last.ts:76 | The mode the rule starts from is a truthy string. It is "editorconfig" iff option 0 is, and "always" when option 0 is missing. |
| EolLast.FallbackValue | packages/eslint-plugin-js/rules/eol-last/eol-last.ts:77 | The fallback handed to the lookup is present iff option 1 gives one, and is then a truthy string. |
| EolLast.MessageText | packages/eslint-plugin-js/rules/eol-last/eol-last.ts:49-53 | Every message is non-empty, and the `editorconfig` one is `message('eol-last')`. |
| EolLast.NoticeText | packages/eslint-plugin-js/rules/eol-last/eol-last.ts:49-53 | The `editorconfig` message quotes `insert_final_newline` followed by the fixed tail. |
| EolLast.EndsWithNewline | packages/eslint-plugin-js/rules/eol-last/eol-last.ts:67 | `src.endsWith(LF)`: the text ends with `\n` as a suffix (`EndsWith`). |
| EolLast.TrailingEolStart | packages/eslint-plugin-js/rules/eol-last/eol-last.ts:136-138 | The start is inside the text. It is before the end iff the text ends with `\n`. |
| EolLast.TrailingEolStartIsLeftmostRun | packages/eslint-plugin-js/rules/eol-last/eol-last.ts:136-140 | From the start to the end is a run of `\r?\n` units, no earlier offset starts such a run, and the text before it does not end with `\n`: the match of `/(?:\r?\n)+$/`. |
| EolLast.MissingReport | packages/eslint-plugin-js/rules/eol-last/eol-last.ts:113-123 | The `missing` report sits on the last line. Its fix fits the text and yields the text followed by `\n`, or by `\r\n` when appending CRLF. |
| EolLast.UnexpectedReport | packages/eslint-plugin-js/rules/eol-last/eol-last.ts:124-143 | The `unexpected` report spans from the second-last line to the start of the last. Its fix fits the text, inserts nothing and yields the text before its trailing run of `\r?\n`. |
| EolLast.Decide | packages/eslint-plugin-js/rules/eol-last/eol-last.ts:100-144 | At most one report after mode resolution. |
| EolLast.CheckBadEOF | packages/eslint-plugin-js/rules/eol-last/eol-last.ts:57-144 | An empty text gives nothing. At most one report. An error happens only under "editorconfig", and only when the lookup failed with an error other than the missing-fallback one, which is passed on. |
| EolLast.DefaultAndUnixMeanAlways | packages/eslint-plugin-js/rules/eol-last/eol-last.ts:76-103 | No option and "unix" behave exactly as "always". |
| EolLast.EolResolved | packages/eslint-plugin-js/rules/eol-last/eol-last.ts:76-103 | A lookup that resolves "editorconfig" to a mode's name checks exactly as that mode configured directly, whatever the fallback. |
| EolLast.WindowsAppendsCRLF | packages/eslint-plugin-js/rules/eol-last/eol-last.ts:104-108 | "windows" reports exactly where "always" does. Its fix appends `\r\n` instead of `\n`. |
| EolLast.OffDisables | packages/eslint-plugin-js/rules/eol-last/eol-last.ts:110-111 | A lookup answering "off" gives no report. |
| EolLast.AlwaysAppendsNewline | packages/eslint-plugin-js/rules/eol-last/eol-last.ts:113-123 | The text lacks a final newline: one `missing` report at the end of the last line. Its fix yields the text plus the terminator, and the rule accepts the fixed text. |
| EolLast.NeverTrimsTrailingRun | packages/eslint-plugin-js/rules/eol-last/eol-last.ts:124-143 | The text ends with a newline: one `unexpected` report spanning the last break. Its fix deletes exactly the leftmost-starting trailing run of `\r?\n` and keeps what precedes it. The rule accepts the fixed text. |
| EolLast.SatisfiedModesAreSilent | packages/eslint-plugin-js/rules/eol-last/eol-last.ts:113-124 | A text that already satisfies "always" or "never" gets no report. |
| EolLast.LookupFailure | packages/eslint-plugin-js/rules/eol-last/eol-last.ts:80-98 | A missing-fallback failure gives only the (0,0) notice. Other failures are passed on. |
| EolLast.Examples | packages/eslint-plugin-js/rules/eol-last/eol-last.ts:113-143 | "foo" under "always" is fixed to "foo\n". "foo\r\n" under "never" is fixed to "foo". |
| EolLast.CheckBadEOFWith | packages/eslint-plugin-js/rules/eol-last/eol-last.ts:73-98 | Returns `CheckBadEOF` with the resolver's answer. For an empty text or another mode, the resolver is not consulted and its cache is unchanged. |
| LinebreakStyle.MismatchIndicesSound | packages/eslint-plugin-js/rules/linebreak-style/linebreak-style.ts:105-108 | Every listed break differs from the expected terminator. |
| LinebreakStyle.MismatchIndicesComplete | packages/eslint-plugin-js/rules/linebreak-style/linebreak-style.ts:105-108 | Every break that differs from the expected terminator is listed. |
| LinebreakStyle.MismatchIndicesIncreasing | packages/eslint-plugin-js/rules/linebreak-style/linebreak-style.ts:105-108 | The listed breaks are in strictly increasing order, as the scan visits them. |
| LinebreakStyle.Configured | packages/eslint-plugin-js/rules/linebreak-style/linebreak-style.ts:71 | The style the rule starts from is a truthy string. It is "editorconfig" iff option 0 is, and "unix" iff option 0 is missing or "unix". |
| LinebreakStyle.FallbackValue | packages/eslint-plugin-js/rules/linebreak-style/linebreak-style.ts:72 | The fallback handed to the lookup is present iff option 1 gives one, and is then a truthy string. |
| LinebreakStyle.MessageText | packages/eslint-plugin-js/rules/linebreak-style/linebreak-style.ts:46-50 | Every message is non-empty, and the `editorconfig` one is `message('linebreak-style')`. |
| LinebreakStyle.NoticeText | packages/eslint-plugin-js/rules/linebreak-style/linebreak-style.ts:46-50 | The `editorconfig` message quotes `end_of_line` followed by the fixed tail. |
| LinebreakStyle.Terminator | packages/eslint-plugin-js/rules/linebreak-style/linebreak-style.ts:98 | The expected terminator ends with `\n`, and it is exactly `\n` iff LF is expected. |
| LinebreakStyle.CreateFixReplaces | packages/eslint-plugin-js/rules/linebreak-style/linebreak-style.ts:63-67 | The fix `createFix` asks for fits the text, keeps what lies before and after the range, and puts the given text in it. |
| LinebreakStyle.ReportFor | packages/eslint-plugin-js/rules/linebreak-style/linebreak-style.ts:110-126 | The report for the k-th break spans from the end of line k+1 to the start of line k+2. Its message is `expectedLF` iff the terminator is `\n`, and `expectedCRLF` iff it is `\r\n`, so never the `editorconfig` notice. Its fix replaces exactly that break by the terminator. |
| LinebreakStyle.StyleReports | packages/eslint-plugin-js/rules/linebreak-style/linebreak-style.ts:103-128 | The scan over the first n breaks gives at most n reports; which ones is stated by `StyleReportsAreMismatches`. |
| LinebreakStyle.StyleReportsAreMismatches | packages/eslint-plugin-js/rules/linebreak-style/linebreak-style.ts:103-128 | There is one report per mismatching break, in order. The j-th report is the one for the j-th mismatch. |
| LinebreakStyle.StyleFixesReplace | packages/eslint-plugin-js/rules/linebreak-style/linebreak-style.ts:110-126 | Every fix replaces a non-empty range by the expected terminator. |
| LinebreakStyle.StyleFixesOrdered | packages/eslint-plugin-js/rules/linebreak-style/linebreak-style.ts:105-128 | The fixes are left to right and disjoint. They end by the end of the last match scanned. |
| LinebreakStyle.FixesNormalizeTo | packages/eslint-plugin-js/rules/linebreak-style/linebreak-style.ts:105-128 | Up to any offset after the first n breaks, their fixes are disjoint and give the text with exactly those breaks replaced by the expected terminator. |
| LinebreakStyle.FixesNormalize | packages/eslint-plugin-js/rules/linebreak-style/linebreak-style.ts:105-128 | Applying all fixes yields the text with every line break replaced by the expected terminator. |
| LinebreakStyle.FixedTextKeepsBreaks | packages/eslint-plugin-js/rules/linebreak-style/linebreak-style.ts:105-128 | The fixed text holds, at the moved offsets, each former break as the terminator. |
| LinebreakStyle.FixedTextIsSilent | packages/eslint-plugin-js/rules/linebreak-style/linebreak-style.ts:105-108 | Re-scanning those breaks reports nothing. It holds because every normalized break is the terminator by construction; where the breaks are found is stated by `FixedTextKeepsBreaks`. |
| LinebreakStyle.ReportFixReplacesItsMatch | packages/eslint-plugin-js/rules/linebreak-style/linebreak-style.ts:110-126 | A report's fix covers exactly its match's range and puts the terminator there. |
| LinebreakStyle.ScanLinebreaks | packages/eslint-plugin-js/rules/linebreak-style/linebreak-style.ts:97-128 | The loop with its counter `i` yields one report per mismatching break. Each report spans from the end of line `i` to the start of line `i+1`, with the matching message and fix. |
| LinebreakStyle.LinebreakReports | packages/eslint-plugin-js/rules/linebreak-style/linebreak-style.ts:70-128 | An error happens only under "editorconfig", and only when the lookup failed with an error other than the missing-fallback one, which is passed on. |
| LinebreakStyle.CheckForLinebreakStyle | packages/eslint-plugin-js/rules/linebreak-style/linebreak-style.ts:70-128 | The method (resolution, then the scanning loop) gives exactly `LinebreakReports`. |
| LinebreakStyle.DefaultIsUnix | packages/eslint-plugin-js/rules/linebreak-style/linebreak-style.ts:71 | No option behaves exactly as "unix". |
| LinebreakStyle.ConfiguredStyle | packages/eslint-plugin-js/rules/linebreak-style/linebreak-style.ts:71-98 | A style configured directly, or resolved to its name, scans expecting `\n` iff it is "unix". The lookup is then not consulted. |
| LinebreakStyle.EditorconfigResolvedStyle | packages/eslint-plugin-js/rules/linebreak-style/linebreak-style.ts:74-98 | A lookup that resolves "editorconfig" to a value scans with no notice, expecting `\n` iff the value is exactly "unix". |
| LinebreakStyle.OffExpectsCRLF | packages/eslint-plugin-js/rules/linebreak-style/linebreak-style.ts:97-98 | A lookup answering "off" checks exactly as "windows": `\r\n` is expected. |
| LinebreakStyle.LookupFailureStillScans | packages/eslint-plugin-js/rules/linebreak-style/linebreak-style.ts:81-98 | A missing-fallback failure gives the (0,0) notice followed by the full scan under `\r\n`. Other failures are passed on. |
| LinebreakStyle.ExampleReports | packages/eslint-plugin-js/rules/linebreak-style/linebreak-style.ts:105-127 | "a\nb\r\nc\n" under "unix" gives one report, for line 2, with fix [3,5) → "\n". |
| LinebreakStyle.ExampleFixed | packages/eslint-plugin-js/rules/linebreak-style/linebreak-style.ts:63-67 | That fix turns the text into "a\nb\nc\n". |
| LinebreakStyle.CheckForLinebreakStyleWith | packages/eslint-plugin-js/rules/linebreak-style/linebreak-style.ts:70-95 | Returns `LinebreakReports` with the resolver's answer. Under any other style the resolver is not consulted and its cache is unchanged. |

## Left out

- The filesystem calls (`lstat(...).isDirectory()`, `dirname`) and the editorconfig parser (`parseSync`) are parameters of the resolver (`FileSystem`). They are assumed total and deterministic. The model also assumes that the directory of a non-directory is a directory. `lstat` throwing on a missing path is not modelled.
- Symbolic links: `lstat` does not follow a symbolic link that is the last component of the path it is given, so a path that is itself a symbolic link to a directory counts as a non-directory. Then the directory of a non-directory need not be a directory, and the assumption `DirnameIsDirectory` fails. For `/a/link/x.js` with `/a/link` a link, the second lookup parses `/a/link` and stores a redirect to `/a`, and the third follows two redirects and returns the config parsed for `/a`. `Resolve` and `RedirectFollowedOnce` (at most one redirect) do not cover that case.
- The editorconfig file format, section matching and property merging belong to the external parser and are not part of this model. Its result is a flat map of typed values, and a parse failure is an error value.
- The module-level singleton is not modelled. Each rule method takes the `EditorConfig` object it uses.
- The text of thrown errors (the `getOptions` and conversion messages) is not modelled. Errors are told apart by kind; the missing-fallback kind stands for `cause: 'NO_FALLBACK_AND_EDITORCONFIG'`.
- Non-integer and NaN numbers are not modelled: `indent_size` values are integers.
- The line-break matcher (`createGlobalLinebreakMatcher`) is given as its sequence of results. They are assumed non-empty, to be the text at their index, and to come in order without overlap. The split of the text into `sourceCode.lines` is a parameter too. `linebreak-style` assumes at least as many lines as matches. `eol-last` assumes at least one line, and two when the text ends with `\n`.
- `createFix` returns a fixer callback in the source. Here it is the replacement it asks for (`Fix`), and applying fixes is given as a function (`ApplyFixes`). How the host merges fixes across passes is not modelled.
- The host API (`context.report`, `node`, the rule schemas) is left out. A rule returns its reports as a sequence, in report order.
- The `indent`, `jsx-indent-props` and `no-trailing-spaces` rules that consume the other resolved values are not part of this model. Only their conversion and lookup are.
