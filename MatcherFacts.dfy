/**
 * What `should_ignore` in src/lib.rs means for the pattern shapes a
 * `.gitignore` or `.digestignore` file uses: for each shape, an exact
 * characterisation of the paths the cascade of `Matcher.Matches` excludes,
 * and the set-level facts of the loop over the patterns.
 */
module MatcherFacts {
  import opened Strings
  import opened Matcher

  /** For a pattern that trimming leaves alone, the cascade of `Matches` rule by rule. */
  lemma TrimmedPatternCascade(path: string, p: string)
    requires IsTrimmed(p) && !IsSkipped(p)
    ensures Matches(path, p) <==>
      || ShortcutRule(path, p)
      || IsGitPath(path)
      || AnyDepthPrefixRule(path, p)
      || AnyDepthSuffixRule(path, p)
      || MiddleRule(path, p)
      || (if EndsWith(p, "/") then DirRule(path, p) else FileRules(path, p))
  {
    TrimTrimmed(p);
  }

  // ---------------------------------------------------------------------------
  // Pattern sets

  /** With no patterns, nothing is excluded. */
  lemma NoPatternsKeepEverything(rawPath: string)
    ensures !IsIgnored(rawPath, {})
  {
  }

  /** Adding patterns never brings back an excluded path. */
  lemma IgnoredMonotone(rawPath: string, s: set<string>, t: set<string>)
    requires s <= t && IsIgnored(rawPath, s)
    ensures IsIgnored(rawPath, t)
  {
    var path := ReplaceBackslashes(rawPath);
    var p :| p in s && Matches(path, p);
    assert p in t;
  }

  /** Two pattern sources merged exclude what either excludes, and nothing more. */
  lemma IgnoredUnion(rawPath: string, s: set<string>, t: set<string>)
    ensures IsIgnored(rawPath, s + t) <==> IsIgnored(rawPath, s) || IsIgnored(rawPath, t)
  {
    var path := ReplaceBackslashes(rawPath);
    if IsIgnored(rawPath, s + t) {
      var p :| p in s + t && Matches(path, p);
      assert p in s || p in t;
    }
    if IsIgnored(rawPath, s) {
      IgnoredMonotone(rawPath, s, s + t);
    }
    if IsIgnored(rawPath, t) {
      IgnoredMonotone(rawPath, t, s + t);
    }
  }

  /** A one-pattern set excludes exactly what that pattern matches. */
  lemma SinglePatternIgnored(rawPath: string, p: string)
    ensures IsIgnored(rawPath, {p}) <==> Matches(ReplaceBackslashes(rawPath), p)
  {
    if Matches(ReplaceBackslashes(rawPath), p) {
      assert p in {p};
    }
  }

  /** Backslash and forward-slash spellings of a path get the same verdict. */
  lemma IgnoredAfterNormalising(rawPath: string, s: set<string>)
    ensures IsIgnored(ReplaceBackslashes(rawPath), s) <==> IsIgnored(rawPath, s)
  {
    ReplaceBackslashesIdempotent(rawPath);
  }

  /** Once any pattern is present, the `.git` directory and everything under it is excluded. */
  lemma GitPathsIgnored(rawPath: string, s: set<string>)
    requires s != {} && IsGitPath(ReplaceBackslashes(rawPath))
    ensures IsIgnored(rawPath, s)
  {
    var p :| p in s;
    assert Matches(ReplaceBackslashes(rawPath), p);
  }

  /** A non-blank string keeps its first character when trimmed, if that is not whitespace. */
  lemma TrimKeepsFirst(s: string)
    requires s != [] && !IsWhitespace(s[0])
    ensures Trim(s) != [] && Trim(s)[0] == s[0]
  {
    var i := TrimShape(s);
  }

  /** A line whose first character is `#` or `!` trims to a skipped pattern. */
  lemma MarkedLineIsSkipped(p: string)
    requires p != [] && (p[0] == '#' || p[0] == '!')
    ensures IsSkipped(Trim(p))
  {
    TrimKeepsFirst(p);
  }

  /**
   * Blank lines, comments (`#`) and negations (`!`) match only what the
   * `.git` check matches: in particular a negation never re-includes a path.
   */
  lemma SkippedPatternMatchesOnlyGit(path: string, p: string)
    requires IsSkipped(Trim(p))
    ensures Matches(path, p) <==> IsGitPath(path)
  {
    if ShortcutRule(path, p) {
      assert IsTrimmed(p) by {
        assert p == "**/test/**" || p == "**/test*/**" || p == "**/*.md" || p == "node_modules/" || p == "build/";
      }
      TrimTrimmed(p);
    }
  }

  /** Adding a skipped pattern to a non-empty set changes no verdict. */
  lemma SkippedPatternIsInert(rawPath: string, s: set<string>, p: string)
    requires s != {} && IsSkipped(Trim(p))
    ensures IsIgnored(rawPath, s + {p}) <==> IsIgnored(rawPath, s)
  {
    var path := ReplaceBackslashes(rawPath);
    IgnoredUnion(rawPath, s, {p});
    SinglePatternIgnored(rawPath, p);
    SkippedPatternMatchesOnlyGit(path, p);
    if IsGitPath(path) {
      GitPathsIgnored(rawPath, s);
    }
  }

  // ---------------------------------------------------------------------------
  // Patterns without `**`

  /** A pattern without `**` never reaches any of the three any-depth rules. */
  lemma NoDoubleStarSkipsAnyDepthRules(path: string, p: string)
    requires !Contains(p, "**")
    ensures !AnyDepthPrefixRule(path, p) && !AnyDepthSuffixRule(path, p) && !MiddleRule(path, p)
  {
    assert OccursAt("**/", "**", 0);
    assert OccursAt("/**", "**", 1);
    assert OccursAt("/**/", "**", 1);
    if StartsWith(p, "**/") {
      StartsWithContains(p, "**/");
      ContainsTransitive(p, "**/", "**");
    }
    if EndsWith(p, "/**") {
      EndsWithContains(p, "/**");
      ContainsTransitive(p, "/**", "**");
    }
    if Contains(p, "/**/") {
      ContainsTransitive(p, "/**/", "**");
    }
  }

  /**
   * A trimmed, non-skipped pattern without `**` is decided by the `.git`
   * check and then by the directory branch or the file rules alone: the
   * shortcuts either do not apply to it or are covered by the directory rule.
   */
  lemma PlainPatternMatches(path: string, p: string)
    requires IsTrimmed(p) && !IsSkipped(p) && !Contains(p, "**")
    ensures Matches(path, p) <==>
      IsGitPath(path) || (if EndsWith(p, "/") then DirRule(path, p) else FileRules(path, p))
  {
    TrimmedPatternCascade(path, p);
    NoDoubleStarSkipsAnyDepthRules(path, p);
    ShortcutCoveredByDirRule(path, p);
  }

  /** The only shortcuts a pattern without `**` can take are the two directory ones, which the directory rule repeats. */
  lemma ShortcutCoveredByDirRule(path: string, p: string)
    requires !Contains(p, "**")
    ensures ShortcutRule(path, p) ==> EndsWith(p, "/") && DirRule(path, p)
  {
    assert OccursAt("**/test/**", "**", 0);
    assert OccursAt("**/test*/**", "**", 0);
    assert OccursAt("**/*.md", "**", 0);
    if ShortcutRule(path, p) {
      if p == "node_modules/" {
        assert p[..|p| - 1] == "node_modules";
        assert "node_modules" + "/" == "node_modules/";
        assert "/" + "node_modules" + "/" == "/node_modules/";
      } else {
        assert p == "build/";
        assert p[..|p| - 1] == "build";
        assert "build" + "/" == "build/";
        assert "/" + "build" + "/" == "/build/";
      }
    }
  }

  /** A pattern with one `*` between two star-free pieces has no `**`. */
  lemma {:induction false} OneStarNoDouble(a: string, b: string)
    requires '*' !in a && '*' !in b
    ensures !Contains(a + "*" + b, "**")
  {
    var p := a + "*" + b;
    forall i | 0 <= i <= |p| - 2
      ensures DiffersAt(p, "**", i, 0, 1)
    {
      if i < |a| {
        assert p[i] == a[i];
      } else {
        assert p[i + 1] == b[i - |a|];
      }
    }
    NotContainsByChars(p, "**", 0, 1);
  }

  /**
   * `dir/` with no `*`: the path is `dir` itself, starts with `dir/`, or has
   * `dir` as a directory segment somewhere.
   */
  lemma DirPatternMatches(path: string, dir: string)
    requires '*' !in dir
    requires dir == [] || (!IsWhitespace(dir[0]) && dir[0] != '#' && dir[0] != '!')
    ensures Matches(path, dir + "/") <==> IsGitPath(path) || DirSegmentRule(path, dir)
  {
    var p := dir + "/";
    assert '*' !in p;
    AbsentChar(p, "**", '*');
    assert p[|p| - 1] == '/';
    assert p[..|p| - 1] == dir;
    PlainPatternMatches(path, p);
  }

  /**
   * A literal pattern (no `*`, no trailing `/`): the whole path, the path's
   * final segments, or a run of directory segments anywhere.
   */
  lemma LiteralPatternMatches(path: string, p: string)
    requires '*' !in p && !EndsWith(p, "/") && IsTrimmed(p) && !IsSkipped(p)
    ensures Matches(path, p) <==> IsGitPath(path) || LiteralRule(path, p)
  {
    AbsentChar(p, "**", '*');
    assert "*.test.*"[0] == '*';
    PlainPatternMatches(path, p);
  }

  // ---------------------------------------------------------------------------
  // Patterns with one `*`

  /** The syntactic facts the cascade needs about `*suf`. */
  lemma StarSuffixShape(suf: string)
    requires '*' !in suf && !EndsWith(suf, "/")
    requires suf == [] || !IsWhitespace(suf[|suf| - 1])
    ensures var p := "*" + suf;
      && IsTrimmed(p) && !IsSkipped(p) && !Contains(p, "**") && !EndsWith(p, "/")
      && Split(p, '*') == [[], suf] && p != "*.test.*" && StartsWith(p, "*")
      && (EndsWith(p, "*") ==> suf == [])
  {
    assert !IsWhitespace('*');
    var p := "*" + suf;
    assert p == [] + "*" + suf;
    OneStarNoDouble([], suf);
    SplitAroundOne([], suf, '*');
    if suf != [] {
      assert p[|p| - 1] == suf[|suf| - 1];
    }
  }

  /**
   * `*suf`: the file name ends with `suf`; a suffix that does not start with
   * `.` (`*config`) must be the whole file name, an empty one matches all.
   */
  lemma StarSuffixPatternMatches(path: string, suf: string)
    requires '*' !in suf && !EndsWith(suf, "/")
    requires suf == [] || !IsWhitespace(suf[|suf| - 1])
    ensures var name := LastSegment(path);
      Matches(path, "*" + suf) <==>
        IsGitPath(path) ||
        (EndsWith(name, suf) && (suf == [] || StartsWith(suf, ".") || name == suf))
  {
    var p := "*" + suf;
    StarSuffixShape(suf);
    PlainPatternMatches(path, p);
    var name := LastSegment(path);
    LastSegmentShape(path);
    if EndsWith(name, suf) {
      EndsWithTransitive(path, name, suf);
    }
    assert FileRules(path, p) == SingleStarRule(path, p);
  }

  /**
   * `pre*`: the path starts with `pre`, and `pre` is also a whole directory
   * segment (or the whole path); the `*` itself matches nothing more.
   */
  lemma PrefixStarPatternMatches(path: string, pre: string)
    requires pre != [] && '*' !in pre
    requires !IsWhitespace(pre[0]) && pre[0] != '#' && pre[0] != '!'
    ensures Matches(path, pre + "*") <==>
      IsGitPath(path) || (StartsWith(path, pre) && DirSegmentRule(path, pre))
  {
    var p := pre + "*";
    assert p == pre + "*" + [];
    OneStarNoDouble(pre, []);
    SplitAroundOne(pre, [], '*');
    assert p[0] == pre[0] && p[|p| - 1] == '*';
    assert !StartsWith(p, "*");
    assert !IsWhitespace('*');
    assert IsTrimmed(p);
    PlainPatternMatches(path, p);
  }

  /**
   * `pre*suf` with both pieces non-empty: the path contains `pre` directly
   * followed by `suf`, the `*` standing for the empty string only.
   */
  lemma PrefixStarSuffixPatternMatches(path: string, pre: string, suf: string)
    requires pre != [] && suf != [] && '*' !in pre && '*' !in suf && !EndsWith(suf, "/")
    requires !IsWhitespace(pre[0]) && pre[0] != '#' && pre[0] != '!'
    requires !IsWhitespace(suf[|suf| - 1])
    ensures Matches(path, pre + "*" + suf) <==> IsGitPath(path) || Contains(path, pre + suf)
  {
    var p := pre + "*" + suf;
    OneStarNoDouble(pre, suf);
    SplitAroundOne(pre, suf, '*');
    assert p[0] == pre[0] && p[|p| - 1] == suf[|suf| - 1];
    assert !StartsWith(p, "*") && !EndsWith(p, "*") && !EndsWith(p, "/");
    PlainPatternMatches(path, p);
    var name := LastSegment(path);
    LastSegmentShape(path);
    if Contains(name, pre + suf) {
      EndsWithContains(path, name);
      ContainsTransitive(path, name, pre + suf);
    }
  }

  /** `*.test.*` splits on `*` into three pieces, so the single-star rule never sees it. */
  lemma TestInfixPatternShape()
    ensures IsTrimmed("*.test.*") && !IsSkipped("*.test.*") && !Contains("*.test.*", "**")
    ensures |Split("*.test.*", '*')| >= 3
  {
    var p := "*.test.*";
    NotContainsByChars(p, "**", 0, 1);
    SplitTwoSeparators(p, '*', 0, 7);
  }

  /** `*.test.*`: the path contains `.test.` anywhere. */
  lemma TestInfixPatternMatches(path: string)
    ensures Matches(path, "*.test.*") <==> IsGitPath(path) || Contains(path, ".test.")
  {
    TestInfixPatternShape();
    PlainPatternMatches(path, "*.test.*");
    assert !EndsWith("*.test.*", "/");
  }

  // ---------------------------------------------------------------------------
  // Patterns with `**`

  // `prefix/**` with no `*` in `prefix`: `prefix` is the leading directory,
  // or a run of directory segments somewhere in the path.
  lemma AnyDepthSuffixPatternMatches(path: string, prefix: string)
    requires '*' !in prefix
    requires prefix == [] || (!IsWhitespace(prefix[0]) && prefix[0] != '#' && prefix[0] != '!')
    ensures Matches(path, prefix + "/**") <==>
      IsGitPath(path) || StartsWith(path, prefix + "/") || Contains(path, "/" + prefix + "/")
  {
    var p := prefix + "/**";
    AnyDepthSuffixShape(prefix);
    TrimmedPatternCascade(path, p);
    assert p[..|p| - 3] == prefix;
    assert FileRules(path, p) == LiteralRule(path, p);
    LiteralUnderPrefix(path, prefix, p);
  }

  // The syntactic facts the cascade needs about `prefix/**`.
  lemma AnyDepthSuffixShape(prefix: string)
    requires '*' !in prefix
    requires prefix == [] || (!IsWhitespace(prefix[0]) && prefix[0] != '#' && prefix[0] != '!')
    ensures var p := prefix + "/**";
      && IsTrimmed(p) && !IsSkipped(p) && p[0] != '*' && EndsWith(p, "/**") && !EndsWith(p, "/")
      && !Contains(p, "/**/") && Contains(p, "**") && p != "*.test.*"
      && p != "**/test/**" && p != "**/test*/**"
  {
    var p := prefix + "/**";
    var n := |prefix|;
    if prefix != [] {
      assert p[0] == prefix[0];
    }
    assert p[|p| - 1] == '*';
    assert !IsWhitespace('*') && !IsWhitespace('/');
    forall i | 0 <= i <= |p| - 4
      ensures DiffersAt(p, "/**/", i, 1, 1)
    {
      if i + 1 < n {
        assert p[i + 1] == prefix[i + 1];
      }
    }
    NotContainsByChars(p, "/**/", 1, 1);
    assert OccursAt(p, "**", n + 1);
    assert p[|p| - 3..] == "/**";
  }

  // A literal match of `prefix/**` has `prefix` as a run of leading or inner directories.
  lemma LiteralUnderPrefix(path: string, prefix: string, p: string)
    requires p == prefix + "/**"
    ensures LiteralRule(path, p) ==>
      StartsWith(path, prefix + "/") || Contains(path, "/" + prefix + "/")
  {
    var lead := "/" + prefix + "/";
    assert StartsWith("/" + p, lead);
    StartsWithContains("/" + p, lead);
    if EndsWith(path, "/" + p) {
      EndsWithContains(path, "/" + p);
      ContainsTransitive(path, "/" + p, lead);
    }
    assert StartsWith("/" + p + "/", lead);
    StartsWithContains("/" + p + "/", lead);
    if Contains(path, "/" + p + "/") {
      ContainsTransitive(path, "/" + p + "/", lead);
    }
    if path == p {
      assert StartsWith(path, prefix + "/");
    }
  }

  // `**/*.md`: any Markdown file; a literal `/**/*.md/` run is also caught.
  lemma MarkdownPatternMatches(path: string)
    ensures Matches(path, "**/*.md") <==>
      IsGitPath(path) || EndsWith(path, ".md") || Contains(path, "/**/*.md/")
  {
    MarkdownShortcut(path);
    MarkdownLeadingRules(path);
    MarkdownLiteralRule(path);
    TrimmedPatternCascade(path, "**/*.md");
  }

  // The shortcut for `**/*.md` checks the extension.
  lemma MarkdownShortcut(path: string)
    ensures ShortcutRule(path, "**/*.md") <==> EndsWith(path, ".md")
  {
  }

  // How the any-depth rules treat `**/*.md`.
  lemma MarkdownLeadingRules(path: string)
    ensures var p := "**/*.md";
      && IsTrimmed(p) && !IsSkipped(p) && !EndsWith(p, "/")
      && (AnyDepthPrefixRule(path, p) ==> EndsWith(path, ".md"))
      && !AnyDepthSuffixRule(path, p) && !MiddleRule(path, p)
  {
    var p := "**/*.md";
    assert p[3..] == "*.md";
    assert EndsWith("/*.md", ".md");
    if EndsWith(path, "/*.md") {
      EndsWithTransitive(path, "/*.md", ".md");
    }
    NotContainsByChars(p, "/**/", 0, 2);
  }

  // `**/*.md` reaches the literal rule, which only adds the `/**/*.md/` run.
  lemma MarkdownLiteralRule(path: string)
    ensures var p := "**/*.md";
      && (FileRules(path, p) ==> EndsWith(path, ".md") || Contains(path, "/**/*.md/"))
      && (Contains(path, "/**/*.md/") ==> FileRules(path, p))
  {
    var p := "**/*.md";
    assert OccursAt(p, "**", 0);
    assert FileRules(path, p) == LiteralRule(path, p);
    assert EndsWith("/" + p, ".md");
    if EndsWith(path, "/" + p) {
      EndsWithTransitive(path, "/" + p, ".md");
    }
    assert "/" + p + "/" == "/**/*.md/";
  }

  // `**/test/**`: some directory segment is exactly `test`.
  lemma TestDirPatternMatches(path: string)
    ensures Matches(path, "**/test/**") <==>
      IsGitPath(path) || StartsWith(path, "test/") || Contains(path, "/test/")
  {
    TestDirShortcut(path);
    TestDirLeadingRules(path);
    TestDirTrailingRules(path);
    TestDirLiteralRule(path);
    TrimmedPatternCascade(path, "**/test/**");
  }

  // The shortcut for `**/test/**` checks for a `test` directory.
  lemma TestDirShortcut(path: string)
    ensures ShortcutRule(path, "**/test/**") <==> StartsWith(path, "test/") || Contains(path, "/test/")
  {
  }

  // How the leading any-depth rule treats `**/test/**`.
  lemma TestDirLeadingRules(path: string)
    ensures IsTrimmed("**/test/**") && !IsSkipped("**/test/**") && !EndsWith("**/test/**", "/")
    ensures AnyDepthPrefixRule(path, "**/test/**") ==> StartsWith(path, "test/") || Contains(path, "/test/")
  {
    var p := "**/test/**";
    var suffix := p[3..];
    assert suffix == "test/**";
    if path == suffix {
      assert StartsWith(path, "test/");
    }
    assert OccursAt("/test/**", "/test/", 0);
    if EndsWith(path, "/test/**") {
      EndsWithContains(path, "/test/**");
      ContainsTransitive(path, "/test/**", "/test/");
    }
  }

  // How the trailing and middle any-depth rules treat `**/test/**`.
  lemma TestDirTrailingRules(path: string)
    ensures var p := "**/test/**";
      && (AnyDepthSuffixRule(path, p) ==> Contains(path, "/test/"))
      && !MiddleRule(path, p)
  {
    var p := "**/test/**";
    assert p[..|p| - 3] == "**/test";
    assert "**/test" + "/" == "**/test/";
    assert "/" + "**/test" + "/" == "/**/test/";
    assert OccursAt("**/test/", "/test/", 2);
    if StartsWith(path, "**/test/") {
      StartsWithContains(path, "**/test/");
      ContainsTransitive(path, "**/test/", "/test/");
    }
    assert OccursAt("/**/test/", "/test/", 3);
    if Contains(path, "/**/test/") {
      ContainsTransitive(path, "/**/test/", "/test/");
    }
    NotContainsByChars(p, "/**/", 0, 1);
  }

  // `**/test/**` reaches the literal rule, whose matches all hold a `/test/`.
  lemma TestDirLiteralRule(path: string)
    ensures FileRules(path, "**/test/**") ==> Contains(path, "/test/")
  {
    var p := "**/test/**";
    assert OccursAt(p, "**", 0);
    assert FileRules(path, p) == LiteralRule(path, p);
    assert OccursAt(p, "/test/", 2);
    assert OccursAt("/" + p, "/test/", 3);
    if EndsWith(path, "/" + p) {
      EndsWithContains(path, "/" + p);
      ContainsTransitive(path, "/" + p, "/test/");
    }
    assert OccursAt("/" + p + "/", "/test/", 3);
    if Contains(path, "/" + p + "/") {
      ContainsTransitive(path, "/" + p + "/", "/test/");
    }
  }

  // ---------------------------------------------------------------------------
  // `**/test*/**`

  /** Some directory segment (a `/`-piece that is not the last) starts with `test`. */
  predicate HasTestPrefixDirectory(path: string) {
    var segs := Split(path, '/');
    exists i | 0 <= i < |segs| - 1 :: segs[i] != [] && StartsWith(segs[i], "test")
  }

  // The segment scan of the `**/test*/**` shortcut finds exactly the
  // directory segments starting with `test`: a last segment only counts when
  // the path ends with `/`, and then it is empty.
  lemma TestPrefixShortcutIsDirectoryScan(path: string)
    ensures TestPrefixSegmentShortcut(path) <==> HasTestPrefixDirectory(path)
  {
    var segs := Split(path, '/');
    if TestPrefixSegmentShortcut(path) {
      var i :| 0 <= i < |segs| &&
        segs[i] != [] && StartsWith(segs[i], "test") && (i != |segs| - 1 || EndsWith(path, "/"));
      if i == |segs| - 1 {
        SplitTrailingSeparator(path, '/');
      }
      assert i < |segs| - 1;
    }
  }

  // The shortcut for `**/test*/**` runs the segment scan.
  lemma TestPrefixShortcut(path: string)
    ensures ShortcutRule(path, "**/test*/**") <==> TestPrefixSegmentShortcut(path)
  {
  }

  /** A `test*` segment between two `/` is a directory starting with `test`. */
  lemma InnerTestPrefixDirectory(x: string, z: string)
    ensures HasTestPrefixDirectory(x + "/" + "test*" + "/" + z)
  {
    SplitInnerPiece(x, "test*", z, '/');
    var segs := Split(x + "/" + "test*" + "/" + z, '/');
    var i := |Split(x, '/')|;
    assert segs[i] == "test*";
    assert StartsWith(segs[i], "test");
  }

  /** A segment between two `/` that starts with `test` is such a directory. */
  lemma InnerTestDirectory(x: string, y: string, z: string)
    requires '/' !in y && y != [] && StartsWith(y, "test")
    ensures HasTestPrefixDirectory(x + "/" + y + "/" + z)
  {
    SplitInnerPiece(x, y, z, '/');
    var segs := Split(x + "/" + y + "/" + z, '/');
    assert segs[|Split(x, '/')|] == y;
  }

  // A leading `test*/` is a directory starting with `test`.
  lemma LeadingTestPrefixDirectory(z: string)
    ensures HasTestPrefixDirectory("test*" + "/" + z)
  {
    SplitLeadingPiece("test*", z, '/');
    var segs := Split("test*" + "/" + z, '/');
    assert segs[0] == "test*";
    assert StartsWith(segs[0], "test");
  }

  // What the leading any-depth rule of `**/test*/**` matches has a `test*` directory.
  lemma TestPrefixLeadingRule(path: string)
    ensures IsTrimmed("**/test*/**") && !IsSkipped("**/test*/**") && !EndsWith("**/test*/**", "/")
    ensures AnyDepthPrefixRule(path, "**/test*/**") ==> HasTestPrefixDirectory(path)
  {
    var p := "**/test*/**";
    assert p[3..] == "test*/**";
    if path == "test*/**" {
      assert path == "test*" + "/" + "**";
      LeadingTestPrefixDirectory("**");
    }
    if EndsWith(path, "/test*/**") {
      var x := path[..|path| - 9];
      assert path == x + "/" + "test*" + "/" + "**";
      InnerTestPrefixDirectory(x, "**");
    }
  }

  // A `test*` segment between two `/`, grouped as one literal.
  lemma InnerTestPrefix(path: string, x: string, z: string)
    requires path == x + "/test*/" + z
    ensures HasTestPrefixDirectory(path)
  {
    assert path == x + "/" + "test*" + "/" + z;
    InnerTestPrefixDirectory(x, z);
  }

  // An occurrence of `/**/test*/` holds a `test*` directory.
  lemma ContainsTestPrefixRun(path: string, run: string, k: nat)
    requires Contains(path, run) && k + 7 <= |run| && run[k..k + 7] == "/test*/"
    ensures HasTestPrefixDirectory(path)
  {
    var x, z := ContainsSplits(path, run);
    assert run == run[..k] + "/test*/" + run[k + 7..];
    assert path == (x + run[..k]) + "/test*/" + (run[k + 7..] + z);
    InnerTestPrefix(path, x + run[..k], run[k + 7..] + z);
  }

  // What the trailing any-depth rule of `**/test*/**` matches has a `test*` directory.
  lemma TestPrefixTrailingRules(path: string)
    ensures AnyDepthSuffixRule(path, "**/test*/**") ==> HasTestPrefixDirectory(path)
    ensures !MiddleRule(path, "**/test*/**")
  {
    var p := "**/test*/**";
    assert p[..|p| - 3] == "**/test*";
    assert "**/test*" + "/" == "**/test*/";
    assert "/" + "**/test*" + "/" == "/**/test*/";
    if StartsWith(path, "**/test*/") {
      StartsWithContains(path, "**/test*/");
      ContainsTestPrefixRun(path, "**/test*/", 2);
    }
    if Contains(path, "/**/test*/") {
      ContainsTestPrefixRun(path, "/**/test*/", 3);
    }
    NotContainsByChars(p, "/**/", 0, 1);
  }

  // What the literal rule matches for `**/test*/**` has a `test*` directory.
  lemma TestPrefixLiteralRule(path: string)
    ensures FileRules(path, "**/test*/**") ==> HasTestPrefixDirectory(path)
  {
    assert OccursAt("**/test*/**", "**", 0);
    assert FileRules(path, "**/test*/**") == LiteralRule(path, "**/test*/**");
    assert "/" + "**/test*/**" == "/**/test*/**";
    assert "/" + "**/test*/**" + "/" == "/**/test*/**/";
    LiteralTestPrefixRun(path);
  }

  // The three ways of the literal rule, on the pattern text written out.
  lemma LiteralTestPrefixRun(path: string)
    ensures path == "**/test*/**" || EndsWith(path, "/**/test*/**") || Contains(path, "/**/test*/**/")
      ==> HasTestPrefixDirectory(path)
  {
    if path == "**/test*/**" {
      StartsWithContains(path, "**/test*/**");
      ContainsTestPrefixRun(path, "**/test*/**", 2);
    } else if EndsWith(path, "/**/test*/**") {
      EndsWithContains(path, "/**/test*/**");
      ContainsTestPrefixRun(path, "/**/test*/**", 3);
    } else if Contains(path, "/**/test*/**/") {
      ContainsTestPrefixRun(path, "/**/test*/**/", 3);
    }
  }

  // `**/test*/**`: some directory segment starts with `test`; the general
  // rules, reached when the shortcut fails, add nothing to it.
  lemma TestPrefixDirPatternMatches(path: string)
    ensures Matches(path, "**/test*/**") <==> IsGitPath(path) || HasTestPrefixDirectory(path)
  {
    TestPrefixShortcut(path);
    TestPrefixShortcutIsDirectoryScan(path);
    TestPrefixLeadingRule(path);
    TestPrefixTrailingRules(path);
    TestPrefixLiteralRule(path);
    TrimmedPatternCascade(path, "**/test*/**");
  }

  // ---------------------------------------------------------------------------
  // `pre/**/suf`

  /**
   * `MiddlePieces` gives the first two items of `split("/**/")`: the first
   * ends at the first marker, and the second runs from there to the next
   * marker that starts after it, or to the end of the pattern.
   */
  lemma MiddlePiecesAreSplit(p: string)
    requires Contains(p, "/**/")
    ensures var (a, b) := MiddlePieces(p);
      && StartsWith(p, a + "/**/" + b)
      && (forall j :: 0 <= j < |a| ==> !OccursAt(p, "/**/", j))
      && (forall j :: |a| + 4 <= j < |a| + 4 + |b| ==> !OccursAt(p, "/**/", j))
      && (|a| + 4 + |b| == |p| || OccursAt(p, "/**/", |a| + 4 + |b|))
  {
    var k := IndexOf(p, "/**/");
    var e := NextOccurrenceOrEnd(p, "/**/", k + 4);
    assert MiddlePieces(p) == (p[..k], p[k + 4..e]);
  }

  /**
   * The conditions of `MiddlePiecesAreSplit` leave no choice: any two pieces
   * that the pattern starts with, around its first `/**/` and up to the next
   * one, are the ones `MiddlePieces` returns.
   */
  lemma MiddlePiecesUnique(p: string, a: string, b: string)
    requires StartsWith(p, a + "/**/" + b)
    requires forall j :: 0 <= j < |a| ==> !OccursAt(p, "/**/", j)
    requires forall j :: |a| + 4 <= j < |a| + 4 + |b| ==> !OccursAt(p, "/**/", j)
    requires |a| + 4 + |b| == |p| || OccursAt(p, "/**/", |a| + 4 + |b|)
    ensures Contains(p, "/**/") && MiddlePieces(p) == (a, b)
  {
    var w := a + "/**/" + b;
    assert p[..|w|] == w;
    assert p[|a|..|a| + 4] == w[|a|..|a| + 4] == "/**/";
    assert OccursAt(p, "/**/", |a|);
    var (x, y) := MiddlePieces(p);
    assert |x| == |a|;
    assert x == a by {
      assert x == (x + "/**/" + y)[..|x|] == p[..|x|];
      assert a == w[..|a|] == p[..|a|];
    }
    assert |y| == |b|;
    assert y == b by {
      var v := x + "/**/" + y;
      assert p[..|v|] == v;
      assert y == v[|a| + 4..] == p[|a| + 4..|a| + 4 + |b|];
      assert b == w[|a| + 4..] == p[|a| + 4..|a| + 4 + |b|];
    }
  }

  // The first `/**/` of `pre/**/suf` is the one written between the pieces.
  lemma MiddlePiecesOf(pre: string, suf: string)
    requires '*' !in pre && '*' !in suf
    ensures Contains(pre + "/**/" + suf, "/**/")
    ensures MiddlePieces(pre + "/**/" + suf) == (pre, suf)
  {
    var p := pre + "/**/" + suf;
    var n := |pre|;
    assert p[n..n + 4] == "/**/";
    assert OccursAt(p, "/**/", n);
    forall j | 0 <= j < n
      ensures !OccursAt(p, "/**/", j)
    {
      if j + 1 < n {
        assert p[j + 1] == pre[j + 1];
      } else {
        assert p[j + 1] == '/';
      }
      assert p[j..j + 4][1] == p[j + 1];
    }
    forall j | n + 4 <= j < n + 4 + |suf|
      ensures !OccursAt(p, "/**/", j)
    {
      if j + 4 <= |p| {
        assert p[j + 1] == suf[j + 1 - (n + 4)];
        assert p[j..j + 4][1] == p[j + 1];
      }
    }
    assert StartsWith(p, pre + "/**/" + suf);
    MiddlePiecesUnique(p, pre, suf);
  }

  // The syntactic facts the cascade needs about `pre/**/suf`.
  lemma MiddleShape(pre: string, suf: string)
    requires '*' !in pre && '*' !in suf && suf != [] && !EndsWith(suf, "/")
    requires !IsWhitespace(suf[|suf| - 1])
    requires pre == [] || (!IsWhitespace(pre[0]) && pre[0] != '#' && pre[0] != '!')
    ensures var p := pre + "/**/" + suf;
      && IsTrimmed(p) && !IsSkipped(p) && p[0] != '*' && p[|p| - 1] != '/' && p[|p| - 1] != '*'
      && !EndsWith(p, "/") && !EndsWith(p, "/**") && !StartsWith(p, "**/")
      && Contains(p, "**") && p != "*.test.*"
  {
    var p := pre + "/**/" + suf;
    assert !IsWhitespace('/');
    assert p[0] == if pre == [] then '/' else pre[0];
    assert p[|p| - 1] == suf[|suf| - 1];
    assert suf[|suf| - 1] != '/' by {
      assert suf[|suf| - 1..][0] == suf[|suf| - 1];
    }
    assert p[|pre| + 1] == '*' && p[|pre| + 2] == '*';
    EndCharsShape(p, |pre| + 1);
  }

  // What the first and last characters of a pattern with `**` inside tell the cascade.
  lemma EndCharsShape(p: string, n: nat)
    requires n + 1 < |p| - 1 && 0 < n && p[n] == '*' && p[n + 1] == '*'
    requires p[0] != '*' && p[0] != '#' && p[0] != '!' && !IsWhitespace(p[0])
    requires p[|p| - 1] != '/' && p[|p| - 1] != '*' && !IsWhitespace(p[|p| - 1])
    ensures && IsTrimmed(p) && !IsSkipped(p) && p[0] != '*' && p[|p| - 1] != '/' && p[|p| - 1] != '*'
      && !EndsWith(p, "/") && !EndsWith(p, "/**") && !StartsWith(p, "**/")
      && Contains(p, "**") && p != "*.test.*"
  {
    assert p[|p| - 1..][0] == p[|p| - 1];
    assert p[|p| - 3..][2] == p[|p| - 1];
    assert p[..3][0] == p[0];
    assert p[n..n + 2] == "**";
    assert OccursAt(p, "**", n);
  }

  // No shortcut applies to `pre/**/suf`: it neither starts with `*` nor ends with `/`.
  lemma MiddleNoShortcut(path: string, p: string)
    requires p != [] && p[0] != '*' && p[|p| - 1] != '/'
    ensures !ShortcutRule(path, p)
  {
    assert "node_modules/"[12] == '/' && "build/"[5] == '/';
  }

  // What the literal rule matches for `pre/**/suf` also meets the middle rule.
  lemma MiddleLiteralRule(path: string, pre: string, suf: string)
    ensures var p := pre + "/**/" + suf;
      LiteralRule(path, p) ==>
        && (StartsWith(path, pre) || Contains(path, "/" + pre))
        && (EndsWith(path, suf) || Contains(path, suf + "/"))
  {
    var p := pre + "/**/" + suf;
    var lead := "/" + pre;
    assert "/" + p == lead + ("/**/" + suf);
    assert "/" + p + "/" == lead + ("/**/" + suf + "/");
    if path == p {
      assert path == pre + ("/**/" + suf);
      EndsWithAppend(pre + "/**/", suf);
    }
    if EndsWith(path, "/" + p) {
      EndsWithContains(path, "/" + p);
      StartsWithContains("/" + p, lead);
      ContainsTransitive(path, "/" + p, lead);
      EndsWithAppend(lead + "/**/", suf);
      assert "/" + p == (lead + "/**/") + suf;
      EndsWithTransitive(path, "/" + p, suf);
    }
    if Contains(path, "/" + p + "/") {
      StartsWithContains("/" + p + "/", lead);
      ContainsTransitive(path, "/" + p + "/", lead);
      assert "/" + p + "/" == (lead + "/**/") + (suf + "/");
      EndsWithAppend(lead + "/**/", suf + "/");
      EndsWithContains("/" + p + "/", suf + "/");
      ContainsTransitive(path, "/" + p + "/", suf + "/");
    }
  }

  /**
   * `pre/**/suf` with star-free pieces and a file-like `suf`: `pre` starts
   * the path or follows a `/`, and `suf` ends the path or precedes a `/`; the
   * two are not required to be in order or apart.
   */
  lemma MiddlePatternMatches(path: string, pre: string, suf: string)
    requires '*' !in pre && '*' !in suf && suf != [] && !EndsWith(suf, "/")
    requires !IsWhitespace(suf[|suf| - 1])
    requires pre == [] || (!IsWhitespace(pre[0]) && pre[0] != '#' && pre[0] != '!')
    ensures Matches(path, pre + "/**/" + suf) <==>
      || IsGitPath(path)
      || (&& (pre == [] || StartsWith(path, pre) || Contains(path, "/" + pre))
          && (EndsWith(path, suf) || Contains(path, suf + "/")))
  {
    var p := pre + "/**/" + suf;
    MiddleShape(pre, suf);
    MiddlePiecesOf(pre, suf);
    MiddleNoShortcut(path, p);
    MiddleLiteralRule(path, pre, suf);
    TrimmedPatternCascade(path, p);
    assert FileRules(path, p) == LiteralRule(path, p);
  }

  // ---------------------------------------------------------------------------
  // Directory patterns with a wildcard

  // A directory pattern with a `*` in its name but no leading `**/` (such as
  // `test*/` or `src/*/`) matches only what the `.git` check already catches.
  lemma UnanchoredWildcardDirIsInert(path: string, p: string)
    requires IsTrimmed(p) && !IsSkipped(p) && !Contains(p, "**")
    requires EndsWith(p, "/") && '*' in p[..|p| - 1]
    ensures Matches(path, p) <==> IsGitPath(path)
  {
    PlainPatternMatches(path, p);
    var dir := p[..|p| - 1];
    assert !StartsWith(dir, "**/") by {
      if StartsWith(dir, "**/") {
        assert p[..2] == dir[..2];
        assert OccursAt(p, "**", 0);
      }
    }
  }

  /** Some non-empty segment of the path starts with `pre` and ends with `suf`. */
  predicate HasSegmentAround(path: string, pre: string, suf: string) {
    var segs := Split(path, '/');
    exists i | 0 <= i < |segs| ::
      segs[i] != [] && StartsWith(segs[i], pre) && EndsWith(segs[i], suf)
  }

  /** A segment between two `/` that starts with `pre` and ends with `suf` is one such segment. */
  lemma InnerSegmentAround(x: string, y: string, z: string, pre: string, suf: string)
    requires '/' !in y && y != [] && StartsWith(y, pre) && EndsWith(y, suf)
    ensures HasSegmentAround(x + "/" + y + "/" + z, pre, suf)
  {
    SplitInnerPiece(x, y, z, '/');
    var segs := Split(x + "/" + y + "/" + z, '/');
    assert segs[|Split(x, '/')|] == y;
  }

  // The syntactic facts the cascade needs about `**/pre*suf/`.
  lemma AnchoredWildcardDirShape(pre: string, suf: string)
    requires '*' !in pre && '*' !in suf
    ensures var w := pre + "*" + suf;
      var p := "**/" + w + "/";
      && IsTrimmed(p) && !IsSkipped(p) && EndsWith(p, "/") && StartsWith(p, "**/")
      && p[3..] == w + "/" && p[..|p| - 1] == "**/" + w && ("**/" + w)[3..] == w
      && '*' in w && Split(w, '*') == [pre, suf] && !Contains(p, "/**/")
  {
    var w := pre + "*" + suf;
    var p := "**/" + w + "/";
    var n := |pre|;
    assert !IsWhitespace('*') && !IsWhitespace('/');
    assert w[n] == '*';
    SplitAroundOne(pre, suf, '*');
    forall i | 0 <= i <= |p| - 4
      ensures DiffersAt(p, "/**/", i, 1, 2)
    {
      if i + 1 != 1 && i + 1 != n + 3 {
        if i + 1 == 2 {
          assert p[i + 1] == '/';
        } else if i + 1 < n + 3 {
          assert p[i + 1] == pre[i - 2];
        } else {
          assert p[i + 1] == suf[i - n - 3];
        }
      } else if i + 1 == n + 3 {
        if i + 2 < |p| - 1 {
          assert p[i + 2] == suf[0];
        }
      }
    }
    NotContainsByChars(p, "/**/", 1, 2);
  }

  // No shortcut is a directory pattern starting with `*`.
  lemma StarDirNoShortcut(path: string, p: string)
    requires p != [] && p[0] == '*' && p[|p| - 1] == '/'
    ensures !ShortcutRule(path, p)
  {
    assert "**/test/**"[9] == '*' && "**/test*/**"[10] == '*' && "**/*.md"[6] == 'd';
  }

  // The leading any-depth rule on `**/w/` checks `w` as a literal text.
  lemma AnchoredWildcardDirLeadingRule(path: string, pre: string, suf: string)
    requires '*' !in pre && '*' !in suf
    ensures var w := pre + "*" + suf;
      AnyDepthPrefixRule(path, "**/" + w + "/") <==> EndsWith(path, w) || Contains(path, w + "/")
  {
    var w := pre + "*" + suf;
    var p := "**/" + w + "/";
    AnchoredWildcardDirShape(pre, suf);
    var suffix := w + "/";
    assert suffix[..|suffix| - 1] == w;
    assert EndsWith(suffix, "/");
    if path == suffix {
      StartsWithContains(path, suffix);
    }
    if EndsWith(path, "/" + suffix) {
      EndsWithContains(path, "/" + suffix);
      EndsWithAppend("/", suffix);
      EndsWithContains("/" + suffix, suffix);
      ContainsTransitive(path, "/" + suffix, suffix);
    }
  }

  // The directory branch on `**/pre*suf/` is the segment scan.
  lemma AnchoredWildcardDirRule(path: string, pre: string, suf: string)
    requires '*' !in pre && '*' !in suf
    ensures var p := "**/" + (pre + "*" + suf) + "/";
      EndsWith(p, "/") && (DirRule(path, p) <==> HasSegmentAround(path, pre, suf))
  {
    var w := pre + "*" + suf;
    AnchoredWildcardDirShape(pre, suf);
    var dir := "**/" + w;
    assert '*' in dir;
    assert StartsWith(dir, "**/");
  }

  // `**/pre*suf/`: a directory segment starting with `pre` and ending with
  // `suf`; the any-depth rule also takes the pattern's text `pre*suf` as a
  // literal file name or directory name.
  lemma AnchoredWildcardDirPatternMatches(path: string, pre: string, suf: string)
    requires '*' !in pre && '*' !in suf
    ensures var w := pre + "*" + suf;
      Matches(path, "**/" + w + "/") <==>
        IsGitPath(path) || EndsWith(path, w) || Contains(path, w + "/") ||
        HasSegmentAround(path, pre, suf)
  {
    var w := pre + "*" + suf;
    var p := "**/" + w + "/";
    AnchoredWildcardDirShape(pre, suf);
    assert p[0] == '*' && p[|p| - 1] == '/';
    assert !EndsWith(p, "/**");
    StarDirNoShortcut(path, p);
    AnchoredWildcardDirLeadingRule(path, pre, suf);
    AnchoredWildcardDirRule(path, pre, suf);
    TrimmedPatternCascade(path, p);
  }
}
