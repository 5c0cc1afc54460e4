/**
 * Concrete verdicts of `should_ignore` in src/lib.rs for pattern and path
 * pairs its tests and example programs exercise, derived from the
 * pattern-shape lemmas. Each example takes its strings as parameters pinned
 * by `requires`, which keeps the verifier from evaluating the whole cascade
 * on the literal text.
 */
module MatcherExamples {
  import opened Strings
  import opened Matcher
  import opened MatcherFacts

  /** A path in which no `/` is followed by `.` (and which is not `.git`) is outside `.git`. */
  lemma NoDotAfterSlash(path: string)
    requires forall i | 0 <= i < |path| - 1 :: path[i] != '/' || path[i + 1] != '.'
    requires path != ".git"
    ensures !IsGitPath(path)
  {
    forall i | 0 <= i <= |path| - 6
      ensures DiffersAt(path, "/.git/", i, 0, 1)
    {
    }
    NotContainsByChars(path, "/.git/", 0, 1);
  }

  // `test/` excludes a `test` directory at any depth.
  lemma TestDirectoryExcludesNested(path: string, p: string)
    requires path == "src/test/file.rs" && p == "test/"
    ensures Matches(path, p)
  {
    var dir := "test";
    assert p == dir + "/";
    assert DirSegmentRule(path, dir) by {
      assert "/" + dir + "/" == "/test/";
      assert path[3..9] == "/test/";
      assert OccursAt(path, "/test/", 3);
    }
    DirPatternMatches(path, dir);
  }

  // `test/` keeps `testing/`: the directory name must be a whole segment.
  lemma TestDirectoryKeepsTesting(path: string, p: string)
    requires path == "testing/file.rs" && p == "test/"
    ensures !Matches(path, p)
  {
    var dir := "test";
    assert p == dir + "/";
    assert !IsGitPath(path) by {
      NoDotAfterSlash(path);
    }
    assert !DirSegmentRule(path, dir) by {
      NotContainsByChars(path, "/test/", 0, 1);
      assert path[4] == 'i';
      assert "/" + dir + "/" == "/test/";
    }
    DirPatternMatches(path, dir);
  }

  // A literal file name excludes that file in any directory.
  lemma LiteralExcludesNested(path: string, p: string)
    requires path == "docs/README.md" && p == "README.md"
    ensures Matches(path, p)
  {
    assert LiteralRule(path, p) by {
      assert path == "docs" + "/" + p;
      assert EndsWith(path, "/" + p);
    }
    assert '*' !in p && !EndsWith(p, "/") && IsTrimmed(p) && !IsSkipped(p) by {
      assert !IsWhitespace('R') && !IsWhitespace('d');
      assert p[|p| - 1..] == "d";
    }
    LiteralPatternMatches(path, p);
  }

  // A literal file name keeps a file whose name merely ends with it.
  lemma LiteralKeepsLongerName(path: string, p: string)
    requires path == "notREADME.md" && p == "README.md"
    ensures !Matches(path, p)
  {
    assert !IsGitPath(path) by {
      AbsentChar(path, "/.git/", '/');
    }
    assert !LiteralRule(path, p) by {
      AbsentChar(path, "/" + p, '/');
      AbsentChar(path, "/" + p + "/", '/');
    }
    LiteralPatternMatches(path, p);
  }

  // `**/test*/**` excludes a file under a directory starting with `test`.
  lemma TestPrefixDirectoryExcludes(path: string)
    requires path == "src/testing/file.js"
    ensures Matches(path, "**/test*/**")
  {
    assert HasTestPrefixDirectory(path) by {
      var y := "testing";
      assert '/' !in y && StartsWith(y, "test");
      assert path == "src" + "/" + y + "/" + "file.js";
      InnerTestDirectory("src", y, "file.js");
    }
    TestPrefixDirPatternMatches(path);
  }

  // `**/test*/**` keeps a top-level file whose own name starts with `test`.
  lemma TestPrefixDirectoryKeepsFile(path: string)
    requires path == "test_file.js"
    ensures !Matches(path, "**/test*/**")
  {
    assert !HasTestPrefixDirectory(path) by {
      SplitNoSeparator(path, '/');
    }
    assert !IsGitPath(path) by {
      AbsentChar(path, "/.git/", '/');
    }
    TestPrefixDirPatternMatches(path);
  }

  // `**/test*/**` keeps a file under `tst/`.
  lemma TestPrefixDirectoryKeepsTst(path: string)
    requires path == "tst/file.js"
    ensures !Matches(path, "**/test*/**")
  {
    assert !HasTestPrefixDirectory(path) by {
      assert path == "tst" + "/" + "file.js";
      SplitAroundOne("tst", "file.js", '/');
    }
    assert !IsGitPath(path) by {
      NoDotAfterSlash(path);
    }
    TestPrefixDirPatternMatches(path);
  }

  // `build/**` excludes the whole build tree.
  lemma BuildTreeExcludes(path: string, prefix: string)
    requires path == "build/output/bundle.js" && prefix == "build"
    ensures Matches(path, prefix + "/**")
  {
    assert StartsWith(path, prefix + "/");
    AnyDepthSuffixPatternMatches(path, prefix);
  }

  // `build/**` keeps a `builds/` directory.
  lemma BuildTreeKeepsBuilds(path: string, prefix: string)
    requires path == "builds/file.js" && prefix == "build"
    ensures !Matches(path, prefix + "/**")
  {
    assert !IsGitPath(path) by {
      NoDotAfterSlash(path);
    }
    assert !StartsWith(path, prefix + "/") by {
      assert path[5] == 's';
    }
    assert !Contains(path, "/" + prefix + "/") by {
      assert "/" + prefix + "/" == "/build/";
      NotContainsByChars(path, "/build/", 0, 1);
    }
    AnyDepthSuffixPatternMatches(path, prefix);
  }

  // `build/**` keeps a file named `build.js`.
  lemma BuildTreeKeepsBuildFile(path: string, prefix: string)
    requires path == "src/build.js" && prefix == "build"
    ensures !Matches(path, prefix + "/**")
  {
    assert !IsGitPath(path) by {
      NoDotAfterSlash(path);
    }
    assert !StartsWith(path, prefix + "/") by {
      assert path[0] == 's';
    }
    assert !Contains(path, "/" + prefix + "/") by {
      assert "/" + prefix + "/" == "/build/";
      NotContainsByChars(path, "/build/", 0, 6);
    }
    AnyDepthSuffixPatternMatches(path, prefix);
  }

  // `*.js` excludes a JavaScript file in a subdirectory.
  lemma ExtensionExcludes(path: string, suf: string)
    requires path == "src/app.js" && suf == ".js"
    ensures Matches(path, "*" + suf)
  {
    assert LastSegment(path) == "app.js" by {
      assert path == "src" + "/" + "app.js";
      SplitAroundOne("src", "app.js", '/');
    }
    assert EndsWith("app.js", suf);
    StarSuffixPatternMatches(path, suf);
  }

  // `*.js` keeps a `.jsx` file.
  lemma ExtensionKeepsLongerExtension(path: string, suf: string)
    requires path == "file.jsx" && suf == ".js"
    ensures !Matches(path, "*" + suf)
  {
    assert LastSegment(path) == path by {
      SplitNoSeparator(path, '/');
    }
    assert !IsGitPath(path) by {
      AbsentChar(path, "/.git/", '/');
    }
    assert !EndsWith(path, suf) by {
      assert path[7] == 'x';
    }
    StarSuffixPatternMatches(path, suf);
  }

  // `*.js` keeps a file under a `js/` directory.
  lemma ExtensionKeepsDirectoryName(path: string, suf: string)
    requires path == "js/file.ts" && suf == ".js"
    ensures !Matches(path, "*" + suf)
  {
    assert LastSegment(path) == "file.ts" by {
      assert path == "js" + "/" + "file.ts";
      SplitAroundOne("js", "file.ts", '/');
    }
    assert !IsGitPath(path) by {
      AbsentChar(path, "/.git/", 'g');
    }
    assert !EndsWith("file.ts", suf) by {
      assert "file.ts"[6] == 's';
      assert "file.ts"[5] == 't';
    }
    StarSuffixPatternMatches(path, suf);
  }

  // `*.test.*` excludes a test source file.
  lemma TestInfixExcludes(path: string)
    requires path == "src/file.test.rs"
    ensures Matches(path, "*.test.*")
  {
    assert OccursAt(path, ".test.", 8);
    TestInfixPatternMatches(path);
  }

  // `*.test.*` keeps a name with `test` but without the two dots.
  lemma TestInfixKeepsPlainName(path: string)
    requires path == "filetest.js"
    ensures !Matches(path, "*.test.*")
  {
    assert !IsGitPath(path) by {
      AbsentChar(path, "/.git/", '/');
    }
    assert !Contains(path, ".test.") by {
      NotContainsByChars(path, ".test.", 0, 5);
    }
    TestInfixPatternMatches(path);
  }

  // `src/**/config.json` excludes a config file below `src`.
  lemma MiddleExcludes(path: string, pre: string, suf: string)
    requires path == "src/app/config.json" && pre == "src" && suf == "config.json"
    ensures Matches(path, pre + "/**/" + suf)
  {
    assert StartsWith(path, pre);
    assert EndsWith(path, suf);
    MiddlePatternMatches(path, pre, suf);
  }

  // `src/**/config.json` keeps a top-level `config.json`, which has no `src` before it.
  lemma MiddleKeepsTopLevel(path: string, pre: string, suf: string)
    requires path == "config.json" && pre == "src" && suf == "config.json"
    ensures !Matches(path, pre + "/**/" + suf)
  {
    assert !IsGitPath(path) by {
      AbsentChar(path, "/.git/", '/');
    }
    assert !StartsWith(path, pre) by {
      assert path[0] == 'c';
    }
    assert !Contains(path, "/" + pre) by {
      AbsentChar(path, "/" + pre, '/');
    }
    MiddlePatternMatches(path, pre, suf);
  }

  // `test*` excludes a `test` directory: the prefix must also be a whole segment.
  lemma PrefixStarExcludesSegment(path: string, pre: string)
    requires path == "test/file.rs" && pre == "test"
    ensures Matches(path, pre + "*")
  {
    assert StartsWith(path, pre);
    assert StartsWith(path, pre + "/");
    PrefixStarPatternMatches(path, pre);
  }

  // `test*` keeps `test_file.js`: the `*` adds nothing after the prefix.
  lemma PrefixStarKeepsLongerName(path: string, pre: string)
    requires path == "test_file.js" && pre == "test"
    ensures !Matches(path, pre + "*")
  {
    assert !IsGitPath(path) by {
      AbsentChar(path, "/.git/", '/');
    }
    assert !DirSegmentRule(path, pre) by {
      assert path[4] == '_';
      AbsentChar(path, "/" + pre + "/", '/');
    }
    PrefixStarPatternMatches(path, pre);
  }

  // `file*.rs` excludes `file.rs`: the `*` stands for the empty string.
  lemma PrefixStarSuffixExcludesEmptyStar(path: string, pre: string, suf: string)
    requires path == "src/file.rs" && pre == "file" && suf == ".rs"
    ensures Matches(path, pre + "*" + suf)
  {
    assert OccursAt(path, pre + suf, 4);
    PrefixStarSuffixPatternMatches(path, pre, suf);
  }

  // `file*.rs` keeps `file_a.rs`: the `*` never stands for a non-empty text.
  lemma PrefixStarSuffixKeepsFilledStar(path: string, pre: string, suf: string)
    requires path == "src/file_a.rs" && pre == "file" && suf == ".rs"
    ensures !Matches(path, pre + "*" + suf)
  {
    assert !IsGitPath(path) by {
      NoDotAfterSlash(path);
    }
    assert !Contains(path, pre + suf) by {
      assert pre + suf == "file.rs";
      NotContainsByChars(path, "file.rs", 0, 4);
    }
    PrefixStarSuffixPatternMatches(path, pre, suf);
  }

  // A negated pattern does not exclude the path it names, and cannot re-include it.
  lemma NegationExcludesNothing(rawPath: string, p: string)
    requires rawPath == "dist/app.js" && p == "!dist/app.js"
    ensures !IsIgnored(rawPath, {p})
  {
    assert ReplaceBackslashes(rawPath) == rawPath by {
      ReplaceBackslashesKeepsPlain(rawPath);
    }
    assert !IsGitPath(rawPath) by {
      NoDotAfterSlash(rawPath);
    }
    MarkedLineIsSkipped(p);
    SkippedPatternMatchesOnlyGit(rawPath, p);
    SinglePatternIgnored(rawPath, p);
  }

  // The `.git` entry every loader adds excludes `.git` contents only below
  // some directory: a relative `.git/config` has no `/` before `.git`.
  lemma GitEntryNeedsLeadingDirectory(relative: string, nested: string, p: string)
    requires relative == ".git/config" && nested == "repo/.git/config" && p == ".git"
    ensures !Matches(relative, p) && Matches(nested, p)
  {
    assert OccursAt(nested, "/.git/", 4);
    assert !IsGitPath(relative) by {
      NoDotAfterSlash(relative);
    }
    assert !LiteralRule(relative, p) by {
      assert "/" + p + "/" == "/.git/";
      assert "/" + p == "/.git";
      assert relative[0] == '.';
      NotContainsByChars(relative, "/.git/", 0, 1);
    }
    LiteralPatternMatches(relative, p);
  }

  // `**/test*/` excludes a file under a directory starting with `test`.
  lemma AnchoredWildcardDirExcludes(path: string, pre: string, suf: string)
    requires path == "src/testing/file.js" && pre == "test" && suf == []
    ensures Matches(path, "**/" + (pre + "*" + suf) + "/")
  {
    assert HasSegmentAround(path, pre, suf) by {
      var y := "testing";
      assert '/' !in y && StartsWith(y, pre) && EndsWith(y, suf);
      assert path == "src" + "/" + y + "/" + "file.js";
      InnerSegmentAround("src", y, "file.js", pre, suf);
    }
    AnchoredWildcardDirPatternMatches(path, pre, suf);
  }

  // `src/*/` matches nothing beyond `.git`: a wildcard directory needs a leading `**/`.
  lemma UnanchoredWildcardDirKeeps(path: string, p: string)
    requires path == "src/app/main.rs" && p == "src/*/"
    ensures !Matches(path, p)
  {
    assert !IsGitPath(path) by {
      NoDotAfterSlash(path);
    }
    assert !Contains(p, "**") by {
      NotContainsByChars(p, "**", 0, 1);
    }
    assert '*' in p[..|p| - 1] by {
      assert p[..|p| - 1][4] == '*';
    }
    UnanchoredWildcardDirIsInert(path, p);
  }

  // `split("/**/")` finds its matches left to right without overlap: in
  // `x/**/**/y` the second piece is `**/y`, not `y`.
  lemma RepeatedMarkerPieces(p: string)
    requires p == "x/**/**/y"
    ensures Contains(p, "/**/") && MiddlePieces(p) == ("x", "**/y")
  {
    assert p == "x" + "/**/" + "**/y";
    assert !OccursAt(p, "/**/", 0) by {
      assert p[0..4][0] == 'x';
    }
    assert !OccursAt(p, "/**/", 5) by {
      assert p[5..9][0] == '*';
    }
    MiddlePiecesUnique(p, "x", "**/y");
  }
}
