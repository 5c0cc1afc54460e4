# Ignore-pattern matching of a code digest tool, in Dafny

The tool walks a project and collects its source files into one digest.
Its core decides which paths to leave out. It does this with a set of
gitignore-like patterns, read from a `.digestignore` or `.gitignore` file
or built from defaults for the project's main language. This project
models that core and proves what each kind of pattern excludes.

The model follows the two crates of the repository:

- The library crate, `src/lib.rs`:
  - `Matcher`: `should_ignore`. `Matches(path, pattern)` is one pattern's
    whole cascade, in source order. The cascade has five shortcuts that
    compare the untrimmed pattern. Then come the `.git` check, trimming,
    skipping blank, `#` and `!` patterns, the `**/`, `/**` and `/**/` rules,
    directory patterns, the `*.test.*` shortcut, single-`*` globs and literals.
    `IsIgnored` says that some pattern of the set matches.
    `MatchPattern` and `ShouldIgnore` are the loops with their early
    returns, proved equal to those predicates.
  - `MatcherFacts`: a plain characterisation for each shape of pattern
    (`dir/`, `name`, `*.ext`, `pre*`, `pre*suf`, `pre/**`, `pre/**/suf`,
    `**/pre*suf/`, the five shortcuts). Also facts about pattern sets:
    the empty set, monotonicity, union, `.git`, and skipped lines.
  - `MatcherExamples`: verdicts for the path and pattern pairs that the
    repository's tests and example programs check.
  - `IgnoreFile`: `check_for_digestignore` and `check_for_gitignore`. These
    cover Rust's `str::lines` and the parse loop that builds the pattern
    set, with a missing or unreadable file as an error result.
  - `CodeFiles`: `is_common_code_file`, in both copies.
- The binary crate, `src/main.rs`:
  - `BinaryMatcher` and `BinaryMatcherFacts`: the older, simpler
    `should_ignore`, its rules, and two paths where it and the library's
    matcher disagree.
  - `BinarySetup`: `get_main_language`, `build_ignore_patterns`, the
    binary's own `check_for_digestignore`, and the choice between the
    file's patterns and the defaults.
- `Strings`: the Rust `str` operations the code uses.
  - `starts_with`, `ends_with` and `contains`.
  - `split` on a character.
  - `trim`, with the Unicode White_Space set of `char::is_whitespace`.
  - `replace('\\', "/")`.
- `Wrappers`: `Option` and `Result`.

A hash set's iteration order is unknown, so each loop over a pattern set
picks its next pattern by an arbitrary choice. Its result is proved to be
the same whatever that order is. A hash map's iteration order is a
parameter of `GetMainLanguage`.

## Model

| member | source | states |
|---|---|---|
| Matcher.HasTestPrefixSegment | src/lib.rs:32-51 | the segment scan of the `**/test*/**` shortcut returns true iff some non-empty `/`-segment starts with `test` and is either not the last segment or followed by a final `/` |
| Matcher.MatchPattern | src/lib.rs:24-248 | one pass of the loop body returns true exactly when the pattern's cascade `Matches` holds |
| Matcher.MatchShortcuts | src/lib.rs:25-71 | the five hard-coded checks on the untrimmed pattern fire exactly when `ShortcutRule` holds |
| Matcher.MatchTrimmed | src/lib.rs:79-248 | the checks after trimming (skip rules, `**/`, `/**`, `/**/`, directory, `*.test.*`, glob, literal) return true exactly when `GeneralRules` holds |
| Matcher.ShouldIgnore | src/lib.rs:15-252 | in any visiting order, the path is excluded iff some pattern of the set matches the backslash-normalised path |
| Matcher.IndexOf | src/lib.rs:122-123 | the position found is an occurrence of `/**/` with none before it |
| Matcher.MiddlePieces | src/lib.rs:123-127 | the first two items of `split("/**/")`: neither holds the marker, and the pattern starts with `first/**/second` |
| Matcher.NextOccurrenceOrEnd | src/lib.rs:123 | the next position at or after `from` where the separator starts, or the end of the text, with no occurrence in between |
| Matcher.PiecesBetween | src/lib.rs:123 | the text before the first separator and the text from it to the next one hold no separator, and the text starts with them joined by it |
| Strings.ReplaceBackslashes | src/lib.rs:20 | the normalised path has the same length, every `\` becomes `/` and every other character is kept, and no `\` is left |
| Strings.ReplaceBackslashesIdempotent | src/lib.rs:20 | normalising twice is normalising once |
| Strings.TrimShape | src/lib.rs:79 | `trim` yields a factor of the pattern with no whitespace at either end and only whitespace removed around it |
| Strings.TrimIdempotent | src/lib.rs:79 | trimming twice is trimming once |
| Strings.TrimStartSnoc | src/lib.rs:272 | `trim_start` of a string with a character appended: empty if everything is whitespace, otherwise the old result with that character appended |
| Strings.TrimDropsFinalWhitespace | src/lib.rs:272 | a whitespace character at the end, such as a `\r`, does not change `trim` |
| Strings.SplitJoin | src/lib.rs:34 | joining the pieces of `split('/')` with `/` gives back the path |
| Strings.LastSegmentShape | src/lib.rs:210 | the last `/`-piece is a suffix of the path with no `/` in it, preceded by a `/` unless it is the whole path |
| MatcherFacts.NoPatternsKeepEverything | src/lib.rs:23-251 | an empty pattern set excludes nothing |
| MatcherFacts.IgnoredMonotone | src/lib.rs:23-251 | adding patterns never re-includes a path |
| MatcherFacts.IgnoredUnion | src/lib.rs:23-251 | the verdict for a union of sets is the disjunction of the verdicts |
| MatcherFacts.SinglePatternIgnored | src/lib.rs:23-251 | a one-pattern set excludes exactly what that pattern matches |
| MatcherFacts.IgnoredAfterNormalising | src/lib.rs:20 | a path and its backslash-normalised form get the same verdict |
| MatcherFacts.GitPathsIgnored | src/lib.rs:73-76 | any non-empty set excludes a path equal to `.git` or containing `/.git/` |
| MatcherFacts.TrimKeepsFirst | src/lib.rs:79 | a pattern starting with a non-whitespace character keeps it as its first character after trimming |
| MatcherFacts.MarkedLineIsSkipped | src/lib.rs:81-89 | a pattern starting with `#` or `!` is skipped after trimming |
| MatcherFacts.SkippedPatternMatchesOnlyGit | src/lib.rs:73-89 | a blank, comment or negated pattern matches exactly the `.git` paths |
| MatcherFacts.SkippedPatternIsInert | src/lib.rs:81-89 | adding a blank, comment or negated pattern to a non-empty set changes no verdict, so `!p` never re-includes |
| MatcherFacts.TrimmedPatternCascade | src/lib.rs:91-248 | for a trimmed, non-skipped pattern, a match is a shortcut, `.git`, one of the three any-depth rules, or the directory rules for a pattern ending in `/` and the file rules otherwise |
| MatcherFacts.NoDoubleStarSkipsAnyDepthRules | src/lib.rs:91-144 | a pattern without `**` never matches by the `**/`, `/**` or `/**/` rules |
| MatcherFacts.PlainPatternMatches | src/lib.rs:146-248 | a trimmed pattern without `**` matches iff `.git` or its directory rule (if it ends in `/`) or its file rules (otherwise) hold; the shortcuts add nothing |
| MatcherFacts.ShortcutCoveredByDirRule | src/lib.rs:60-71 | for a pattern without `**`, the `node_modules/` and `build/` shortcuts only fire where the general directory rule also does |
| MatcherFacts.OneStarNoDouble | src/lib.rs:202 | `pre*suf` with no `*` in either part contains no `**` |
| MatcherFacts.DirPatternMatches | src/lib.rs:181-189 | `dir/` without `*` matches iff `.git`, or the path is `dir`, starts with `dir/` or contains `/dir/` |
| MatcherFacts.LiteralPatternMatches | src/lib.rs:240-248 | a literal without `*` or trailing `/` matches iff `.git`, or the path is `p`, ends with `/p` or contains `/p/` |
| MatcherFacts.StarSuffixShape | src/lib.rs:202-207 | `*suf` is trimmed, not skipped, has no `**`, and splits on `*` into an empty piece and `suf` |
| MatcherFacts.StarSuffixPatternMatches | src/lib.rs:207-217 | `*suf` matches iff `.git`, or the last segment ends with `suf` and `suf` is empty, starts with `.`, or is that whole segment |
| MatcherFacts.PrefixStarPatternMatches | src/lib.rs:218-226 | `pre*` matches iff `.git`, or the path starts with `pre` and is `pre`, starts with `pre/` or contains `/pre/` |
| MatcherFacts.PrefixStarSuffixPatternMatches | src/lib.rs:227-238 | `pre*suf` with both parts non-empty matches iff `.git` or the path contains `pre` directly followed by `suf`: the `*` matches only the empty string |
| MatcherFacts.TestInfixPatternShape | src/lib.rs:194-206 | `*.test.*` is trimmed, not skipped, has no `**`, and splits into three or more pieces, so no glob rule applies to it |
| MatcherFacts.TestInfixPatternMatches | src/lib.rs:194-199 | `*.test.*` matches iff `.git` or the path contains `.test.` |
| MatcherFacts.AnyDepthSuffixShape | src/lib.rs:108-122 | `pre/**` is trimmed, not skipped, ends with `/**` and holds no `/**/` |
| MatcherFacts.LiteralUnderPrefix | src/lib.rs:240-248 | what the literal rule matches for `pre/**` starts with `pre/` or contains `/pre/` |
| MatcherFacts.AnyDepthSuffixPatternMatches | src/lib.rs:108-119 | `pre/**` matches iff `.git`, or the path starts with `pre/` or contains `/pre/` |
| MatcherFacts.MarkdownShortcut | src/lib.rs:53-58 | the `**/*.md` shortcut fires iff the path ends with `.md` |
| MatcherFacts.MarkdownLeadingRules | src/lib.rs:91-144 | for `**/*.md` the `**/` rule matches only `.md` paths, and the `/**` and `/**/` rules match nothing |
| MatcherFacts.MarkdownLiteralRule | src/lib.rs:240-248 | for `**/*.md` the literal rule matches only `.md` paths or paths containing the text `/**/*.md/` |
| MatcherFacts.MarkdownPatternMatches | src/lib.rs:53-58 | `**/*.md` matches iff `.git`, the path ends with `.md`, or it contains the text `/**/*.md/` |
| MatcherFacts.TestDirShortcut | src/lib.rs:24-29 | the `**/test/**` shortcut fires iff the path starts with `test/` or contains `/test/` |
| MatcherFacts.TestDirLeadingRules | src/lib.rs:91-106 | the `**/` rule on `**/test/**` matches only paths that start with `test/` or contain `/test/` |
| MatcherFacts.TestDirTrailingRules | src/lib.rs:108-144 | the `/**` rule on `**/test/**` matches only paths containing `/test/`, and the `/**/` rule matches nothing |
| MatcherFacts.TestDirLiteralRule | src/lib.rs:240-248 | the literal rule on `**/test/**` matches only paths containing `/test/` |
| MatcherFacts.TestDirPatternMatches | src/lib.rs:24-29 | `**/test/**` matches iff `.git`, or the path starts with `test/` or contains `/test/` |
| MatcherFacts.TestPrefixShortcut | src/lib.rs:31-51 | the `**/test*/**` shortcut fires iff the segment scan finds a segment |
| MatcherFacts.TestPrefixShortcutIsDirectoryScan | src/lib.rs:34-50 | the scan's "last segment unless the path ends with `/`" test means the same as "some non-empty segment starting with `test` that is not the last one": the exception for a trailing `/` never changes the answer |
| MatcherFacts.InnerTestPrefixDirectory | src/lib.rs:96-101 | `test*` between two `/` is a directory segment starting with `test` |
| MatcherFacts.InnerTestDirectory | src/lib.rs:37-48 | any segment between two `/` that starts with `test` is a directory the scan accepts |
| MatcherFacts.LeadingTestPrefixDirectory | src/lib.rs:96-101 | a leading `test*/` is a directory segment starting with `test` |
| MatcherFacts.TestPrefixLeadingRule | src/lib.rs:91-106 | the `**/` rule on `**/test*/**` matches only paths with a `test`-prefixed directory |
| MatcherFacts.InnerTestPrefix | src/lib.rs:96-101 | a path holding the text `/test*/` has a `test`-prefixed directory |
| MatcherFacts.ContainsTestPrefixRun | src/lib.rs:96-101 | a path holding any text that contains `/test*/` has a `test`-prefixed directory |
| MatcherFacts.TestPrefixTrailingRules | src/lib.rs:108-144 | the `/**` rule on `**/test*/**` matches only paths with a `test`-prefixed directory, and the `/**/` rule matches nothing |
| MatcherFacts.TestPrefixLiteralRule | src/lib.rs:240-248 | the literal rule on `**/test*/**` matches only paths with a `test`-prefixed directory |
| MatcherFacts.LiteralTestPrefixRun | src/lib.rs:242-244 | a path the literal rule matches for `**/test*/**` (the pattern itself, `…/**/test*/**` or `…/**/test*/**/…`) has a `test`-prefixed directory |
| MatcherFacts.TestPrefixDirPatternMatches | src/lib.rs:31-51 | `**/test*/**` matches iff `.git` or some directory segment (not the last segment) starts with `test` |
| MatcherFacts.MiddlePiecesAreSplit | src/lib.rs:123-127 | the pieces the rule takes are those of `split("/**/")`: the pattern starts with `first/**/second`, no `/**/` starts before the first marker, none starts inside `second`, and `second` reaches the end of the pattern or the next `/**/` |
| MatcherFacts.MiddlePiecesUnique | src/lib.rs:123-127 | any two pieces meeting the `split("/**/")` conditions are exactly the pieces returned, so the split is fully determined |
| MatcherFacts.MiddlePiecesOf | src/lib.rs:122-127 | for `pre/**/suf` with no `*` in either part, the pieces the rule takes are exactly `pre` and `suf` |
| MatcherFacts.MiddleShape | src/lib.rs:121-144 | `pre/**/suf` is trimmed, not skipped, neither starts with `**/` nor ends with `/` or `/**`, and holds `**` |
| MatcherFacts.EndCharsShape | src/lib.rs:79-109 | a pattern whose first and last characters are ordinary and which has `**` inside is trimmed, not skipped, and escapes the `**/`, `/**` and directory branches |
| MatcherFacts.MiddleNoShortcut | src/lib.rs:25-71 | a pattern neither starting with `*` nor ending with `/` triggers no shortcut |
| MatcherFacts.MiddleLiteralRule | src/lib.rs:240-248 | what the literal rule matches for `pre/**/suf` also satisfies the middle rule's two conditions |
| MatcherFacts.MiddlePatternMatches | src/lib.rs:121-144 | `pre/**/suf` matches iff `.git`, or (`pre` is empty, starts the path or follows a `/`) and (`suf` ends the path or precedes a `/`) |
| MatcherFacts.UnanchoredWildcardDirIsInert | src/lib.rs:150-178 | a directory pattern with `*` in its name but no `**` matches exactly the `.git` paths |
| MatcherFacts.InnerSegmentAround | src/lib.rs:164-168 | a segment between two `/` that starts with `pre` and ends with `suf` is found by the wildcard scan |
| MatcherFacts.AnchoredWildcardDirShape | src/lib.rs:147-160 | `**/pre*suf/` is trimmed, not skipped, ends with `/`, and its wildcard part splits into `pre` and `suf` |
| MatcherFacts.StarDirNoShortcut | src/lib.rs:25-71 | a pattern starting with `*` and ending with `/` triggers no shortcut |
| MatcherFacts.AnchoredWildcardDirLeadingRule | src/lib.rs:91-106 | the `**/` rule on `**/pre*suf/` matches iff the path ends with `pre*suf` or contains `pre*suf/` |
| MatcherFacts.AnchoredWildcardDirRule | src/lib.rs:150-179 | the wildcard-directory rule on `**/pre*suf/` matches iff some non-empty segment starts with `pre` and ends with `suf` |
| MatcherFacts.AnchoredWildcardDirPatternMatches | src/lib.rs:147-179 | `**/pre*suf/` matches iff `.git`, the `**/` rule's text match, or a segment starting with `pre` and ending with `suf` |
| MatcherExamples.NoDotAfterSlash | src/lib.rs:73-76 | a path where no `/` is followed by `.` and that is not `.git` is not a `.git` path |
| MatcherExamples.TestDirectoryExcludesNested | src/lib.rs:181-189 | `test/` excludes `src/test/file.rs` |
| MatcherExamples.TestDirectoryKeepsTesting | src/lib.rs:182-185 | `test/` keeps `testing/file.rs` |
| MatcherExamples.LiteralExcludesNested | tests/ignore_pattern_tests/mod.rs:172 | `README.md` excludes `docs/README.md` |
| MatcherExamples.LiteralKeepsLongerName | src/lib.rs:242-244 | `README.md` keeps `notREADME.md` |
| MatcherExamples.TestPrefixDirectoryExcludes | examples/test_complex_directory.rs:18 | `**/test*/**` excludes `src/testing/file.js` |
| MatcherExamples.TestPrefixDirectoryKeepsFile | examples/test_complex_directory.rs:24 | `**/test*/**` keeps `test_file.js` |
| MatcherExamples.TestPrefixDirectoryKeepsTst | examples/test_complex_directory.rs:22 | `**/test*/**` keeps `tst/file.js` |
| MatcherExamples.BuildTreeExcludes | examples/test_build_pattern.rs:16 | `build/**` excludes `build/output/bundle.js` |
| MatcherExamples.BuildTreeKeepsBuilds | examples/test_build_pattern.rs:18 | `build/**` keeps `builds/file.js` |
| MatcherExamples.BuildTreeKeepsBuildFile | examples/test_build_pattern.rs:19 | `build/**` keeps `src/build.js` |
| MatcherExamples.ExtensionExcludes | examples/test_complex_patterns.rs:71 | `*.js` excludes `src/app.js` |
| MatcherExamples.ExtensionKeepsLongerExtension | examples/test_complex_patterns.rs:75 | `*.js` keeps `file.jsx` |
| MatcherExamples.ExtensionKeepsDirectoryName | examples/test_complex_patterns.rs:77 | `*.js` keeps `js/file.ts` |
| MatcherExamples.TestInfixExcludes | tests/ignore_pattern_tests/mod.rs:133-147 | `*.test.*` excludes `src/file.test.rs` |
| MatcherExamples.TestInfixKeepsPlainName | examples/test_complex_patterns.rs:126 | `*.test.*` keeps `filetest.js` |
| MatcherExamples.MiddleExcludes | examples/test_complex_patterns.rs:108 | `src/**/config.json` excludes `src/app/config.json` |
| MatcherExamples.MiddleKeepsTopLevel | examples/test_complex_patterns.rs:112 | `src/**/config.json` keeps `config.json` |
| MatcherExamples.PrefixStarExcludesSegment | src/lib.rs:218-226 | `test*` excludes `test/file.rs` |
| MatcherExamples.PrefixStarKeepsLongerName | src/lib.rs:218-226 | `test*` keeps `test_file.js`: the prefix must be a whole segment |
| MatcherExamples.PrefixStarSuffixExcludesEmptyStar | src/lib.rs:227-237 | `file*.rs` excludes `src/file.rs` |
| MatcherExamples.PrefixStarSuffixKeepsFilledStar | src/lib.rs:227-237 | `file*.rs` keeps `src/file_a.rs`: the `*` stands for the empty string only |
| MatcherExamples.NegationExcludesNothing | tests/ignore_pattern_tests/pattern_generator.rs:266-283 | the set `{"!dist/app.js"}` keeps `dist/app.js`: negations are skipped, not applied |
| MatcherExamples.GitEntryNeedsLeadingDirectory | src/lib.rs:73-76 | the pattern `.git` matches `repo/.git/config` but not the relative `.git/config` |
| MatcherExamples.AnchoredWildcardDirExcludes | src/lib.rs:150-172 | `**/test*/` excludes `src/testing/file.js` |
| MatcherExamples.UnanchoredWildcardDirKeeps | src/lib.rs:150-178 | `src/*/` keeps `src/app/main.rs` |
| MatcherExamples.RepeatedMarkerPieces | src/lib.rs:123-127 | the matches of `split("/**/")` do not overlap: `x/**/**/y` splits into `x` and `**/y` |
| IgnoreFile.Lines | src/lib.rs:272 | no line that `lines()` gives contains `\n` |
| IgnoreFile.LinesOfTerminated | src/lib.rs:272 | writing lines (no `\n` in them, no `\r` at their end) each followed by `\n`, then reading them back with `lines()`, gives the same lines |
| IgnoreFile.SplitTerminated | src/lib.rs:272 | newline-terminated lines split on `\n` into those lines and a final empty piece |
| IgnoreFile.LinesOfEndedText | src/lib.rs:272 | for text ending in `\n`, `lines()` gives every piece but the last, each with a final `\r` dropped |
| IgnoreFile.SplitTerminatedThen | src/lib.rs:272 | newline-terminated lines and a tail split on `\n` into those lines and the pieces of the tail |
| IgnoreFile.LinesOfUnterminated | src/lib.rs:272 | a last line with no `\n` after it is still a line, given back as written |
| IgnoreFile.FinalLineEndingOptional | src/lib.rs:272 | a plain last line reads the same with or without a final `\n` |
| IgnoreFile.KeptPatternsSnoc | src/lib.rs:272-278 | one more line adds its trimmed text to the set exactly when that is non-blank and not a `#` comment |
| IgnoreFile.ParseIgnoreText | src/lib.rs:269-278 | the parse loop yields `.git` plus every trimmed line that is non-blank and does not start with `#` |
| IgnoreFile.ParsedPatternsAreClean | src/lib.rs:272-277 | every parsed pattern is non-blank, already trimmed and not a `#` comment |
| IgnoreFile.PatternsOfTerminated | src/lib.rs:269-280 | a file written line by line parses to `.git` plus exactly its kept lines |
| IgnoreFile.PatternsOfUnterminated | src/lib.rs:269-280 | when the last line has no `\n` after it, that line's pattern is still in the set |
| IgnoreFile.FinalNewlineChangesNothing | src/lib.rs:269-280 | adding a final `\n` to any file text gives the same pattern set |
| IgnoreFile.LinesAddNewline | src/lib.rs:272 | a final `\n` makes the last piece a line of its own with its `\r` dropped; without it that piece is a line, as written, only when non-empty |
| IgnoreFile.SplitWithNewline | src/lib.rs:272 | a final `\n` adds exactly one empty piece to the split |
| IgnoreFile.TrimStripCr | src/lib.rs:272-273 | dropping a `\r` at the end of a line does not change its trimmed form |
| IgnoreFile.SameTrimSameKept | src/lib.rs:272-276 | two last lines with the same trimmed form give the same pattern set, and a last line that trims to nothing adds none |
| IgnoreFile.SkippedLinesContributeNothing | src/lib.rs:273-275 | a blank or `#` line adds no pattern |
| IgnoreFile.PaddedLineGivesTrimmedPattern | src/lib.rs:273-276 | a padded pattern line contributes its trimmed text, which has no surrounding whitespace |
| IgnoreFile.TrailingSpaceDropped | src/lib.rs:273-276 | the file `node_modules/ ` (with a trailing space and newline) parses to `{".git", "node_modules/"}` |
| IgnoreFile.LoadedPatternsIgnoreGit | src/lib.rs:269-270 | every loaded set makes the library matcher exclude `.git` paths |
| IgnoreFile.LoadIgnoreFile | src/lib.rs:254-281 | a missing file gives the not-found error, an unreadable file gives the read error, and a readable file gives its parsed set |
| IgnoreFile.CheckForDigestignore | src/lib.rs:254-281 | `.digestignore`: missing or unreadable is an error naming the file, otherwise the parsed set |
| IgnoreFile.CheckForGitignore | src/lib.rs:283-306 | `.gitignore`: the same outcomes and the same parse as `.digestignore` |
| CodeFiles.IsCommonCodeFile | src/lib.rs:451-478 | an accepted extension is one to six lower-case ASCII letters, so the test is case-sensitive and takes no dot |
| CodeFiles.BinaryIsCommonCodeFile | src/main.rs:587-593 | the binary's copy has the same guarantee |
| CodeFiles.CopiesAgree | src/main.rs:587-593 | both copies accept exactly the same extensions |
| CodeFiles.GodotFilesAreCode | src/lib.rs:475-477 | `gd`, `tscn`, `tres` and `shader` are code |
| CodeFiles.NonCodeExtensions | src/lib.rs:451-478 | `lock`, `log`, `RS` and `.rs` are not code |
| BinaryMatcher.MatchPattern | src/main.rs:262-307 | one pass of the older loop body returns true exactly when the older `Matches` holds |
| BinaryMatcher.ShouldIgnore | src/main.rs:253-311 | in any visiting order, the older matcher excludes the path iff some pattern matches the normalised path |
| BinaryMatcherFacts.GitCheckNeedsAPattern | src/main.rs:261-265 | a `.git` path is excluded iff the set is non-empty, because the check sits inside the loop |
| BinaryMatcherFacts.IgnoredMonotone | src/main.rs:261-310 | adding patterns never re-includes a path |
| BinaryMatcherFacts.SkippedPatternMatchesOnlyGit | src/main.rs:267-278 | blank, comment and negated patterns match exactly the `.git` paths |
| BinaryMatcherFacts.DirPatternMatches | src/main.rs:280-283 | `dir/` without `*` matches iff `.git` or the path contains `dir` anywhere, even inside a longer name |
| BinaryMatcherFacts.SlashPatternMatchesEverything | src/main.rs:281 | the pattern `/` matches every path |
| BinaryMatcherFacts.OneStarPatternMatches | src/main.rs:286-301 | `pre*suf` with one `*` matches iff `.git`, or the path starts with `pre` and ends with `suf` (the two may overlap) |
| BinaryMatcherFacts.ManyStarsAreInert | src/main.rs:286-301 | a pattern with two or more `*` that does not end in `/` matches exactly the `.git` paths |
| BinaryMatcherFacts.SuffixPatternMatches | src/main.rs:302-307 | a pattern without `*` matches iff `.git`, or the path ends with it or contains `/` followed by it |
| BinaryMatcherFacts.MarkdownGlobOnlyInLibrary | src/main.rs:286-301 | `**/*.md` excludes `docs/guide.md` in the library but keeps it in the binary |
| BinaryMatcherFacts.TestDirectoryOnlyInBinary | src/main.rs:280-283 | `test/` excludes `testing/file.rs` in the binary but keeps it in the library |
| BinarySetup.MaxByCount | src/main.rs:151 | `max_by_key` gives nothing for no entries; otherwise an entry with the greatest count, and no later entry has as many |
| BinarySetup.GetMainLanguage | src/main.rs:148-153 | no language iff the breakdown is empty; otherwise a language of the breakdown with no other having more lines, the last such one in iteration order |
| BinarySetup.UniqueLeaderWins | src/main.rs:148-153 | a language with strictly more lines than all others is chosen in every iteration order |
| BinarySetup.BuildIgnorePatterns | src/main.rs:155-224 | the default set is the 17 common entries plus the language's entries, minus `.import` and `addons` in a Godot project |
| BinarySetup.GodotRemovalsChangeNothing | src/main.rs:215-221 | the Godot removals take nothing out, so the default set contains all the common entries |
| BinarySetup.CSharpBuildFoldersOutsideGodot | src/main.rs:203-209 | for C#, `bin`, `obj` and `*.dll` are in the default set iff the project is not a Godot project |
| BinarySetup.CommonPatternsAreClean | src/main.rs:157-175 | every common entry is non-blank, trimmed, and neither a comment nor a negation |
| BinarySetup.LanguagePatternsAreClean | src/main.rs:178-212 | so is every language entry |
| BinarySetup.DefaultPatternsAreClean | src/main.rs:155-224 | so every default entry is read by the matchers as written |
| BinarySetup.CheckForDigestignore | src/main.rs:226-251 | the binary's loader: missing or unreadable is an error naming `.digestignore`, otherwise `.git` plus the trimmed non-blank, non-`#` lines |
| BinarySetup.SelectIgnorePatterns | src/main.rs:86-87 | the `.digestignore` set when that file can be read, the default set otherwise |
| BinarySetup.SelectedPatternsIgnoreGit | src/main.rs:86-87 | whichever set is chosen holds `.git`, so the binary always excludes `.git` paths |

## Left out

- File-system access: the loaders' existence check and `read_to_string` are a `FileState` parameter (`Missing`, `Unreadable` or `Text`). The text of the error messages is reduced to the error kind and the file name.
- `Path::to_string_lossy`: paths are taken as strings already. Replacing invalid UTF-8 with U+FFFD is not modelled.
- `collect_relevant_files` (both copies): a directory walk through the `ignore` crate, with file metadata, size limits and logging. Only the decision it asks of `should_ignore` and `is_common_code_file` is modelled.
- `main`, the command-line interface, `detect_languages`, `get_language_breakdown`, `output_digest`, `format_markdown` and `is_godot_project`. These depend on the `tokei` and `serde_json` libraries, on files and on standard output. The line counts of the breakdown and the Godot flag are parameters.
- Hash iteration order: the set loops choose arbitrarily. `GetMainLanguage` takes the map's iteration order as a parameter, so which of two equally large languages wins is left to that order.
- `usize` counts are unbounded naturals. Line counts never come near the limit.
- Logging (`debug!`, `info!`).

## Notes on the source

These are behaviours of the code as written. The model keeps them.

- A `.git` path is only recognised when it equals `.git` or contains `/.git/`. A relative `.git/config` is therefore not excluded by the `.git` check. The walker passes paths under the project root, where the leading directory supplies the `/`.
- `test*` does not exclude `test_file.js`. The `prefix*` rule demands a whole segment.
- `file*.rs` does not exclude `file_a.rs`. The `prefix*suffix` rule lets `*` match only the empty string.
- A wildcard directory pattern without a leading `**/` and without `**`, such as `src/*/`, excludes nothing but `.git` paths. With `**` another rule can still apply: `x/**/` excludes `x/a` through the `/**/` rule.
- In the `**/test*/**` shortcut, the exception for a path ending in `/` never changes the answer. The last segment of such a path is empty and fails the non-empty test.
- Matching with `**/*.md` also catches a path containing the literal text `/**/*.md/`, through the literal rule.
- The binary's older matcher does not have the library's segment boundaries:
  - `dir/` matches `dir` anywhere, even inside a longer name.
  - The pattern `/` matches every path.
  - A pattern with two `*` that does not end in `/`, such as `**/*.md`, matches only `.git` paths. A pattern ending in `/` still goes through the raw-substring directory rule, so `**/` excludes every path containing `**`.
- `trim` follows `char::is_whitespace`, the full Unicode White_Space set, not only ASCII whitespace.
