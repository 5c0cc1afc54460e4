/**
 * What the binary's older matcher does with each shape of pattern, and two
 * paths on which it and the library's matcher disagree.
 */
module BinaryMatcherFacts {
  import opened Strings
  import Matcher
  import MatcherExamples
  import opened BinaryMatcher

  // ---------------------------------------------------------------------------
  // Pattern sets

  /**
   * The `.git` check sits inside the loop over the patterns, so a `.git`
   * path is excluded exactly when the set holds at least one pattern.
   */
  lemma GitCheckNeedsAPattern(rawPath: string, s: set<string>)
    requires Matcher.IsGitPath(ReplaceBackslashes(rawPath))
    ensures IsIgnored(rawPath, s) <==> s != {}
  {
    if s != {} {
      var p :| p in s;
      assert Matches(ReplaceBackslashes(rawPath), p);
    }
  }

  /** More patterns exclude at least as much. */
  lemma IgnoredMonotone(rawPath: string, s: set<string>, t: set<string>)
    requires s <= t && IsIgnored(rawPath, s)
    ensures IsIgnored(rawPath, t)
  {
    var path := ReplaceBackslashes(rawPath);
    var p :| p in s && Matches(path, p);
    assert p in t;
  }

  /** Blank lines, comments and negations match only what the `.git` check matches. */
  lemma SkippedPatternMatchesOnlyGit(path: string, p: string)
    requires Matcher.IsSkipped(Trim(p))
    ensures Matches(path, p) <==> Matcher.IsGitPath(path)
  {
  }

  // ---------------------------------------------------------------------------
  // Pattern shapes

  /**
   * `dir/` without `*`: the name may occur anywhere in the path, even inside
   * a longer segment; the suffix test it falls through to adds nothing.
   */
  lemma DirPatternMatches(path: string, dir: string)
    requires dir != [] && '*' !in dir
    requires IsTrimmed(dir + "/") && !Matcher.IsSkipped(dir + "/")
    ensures Matches(path, dir + "/") <==> Matcher.IsGitPath(path) || Contains(path, dir)
  {
    var p := dir + "/";
    TrimTrimmed(p);
    assert p[..|p| - 1] == dir;
    assert '*' !in p;
    if EndsWith(path, p) {
      EndsWithContains(path, p);
      StartsWithContains(p, dir);
      ContainsTransitive(path, p, dir);
    }
    if Contains(path, "/" + p) {
      assert "/" + p == "/" + dir + "/";
      ContainsMiddle("/", dir, "/");
      ContainsTransitive(path, "/" + p, dir);
    }
  }

  /** The pattern `/` names the empty directory, which every path contains. */
  lemma SlashPatternMatchesEverything(path: string, p: string)
    requires p == "/"
    ensures Matches(path, p)
  {
    assert IsTrimmed(p) by {
      assert !IsWhitespace('/');
    }
    TrimTrimmed(p);
    assert p[..|p| - 1] == [];
    assert OccursAt(path, [], 0);
  }

  /**
   * `pre*suf` with one `*`: its three cases collapse into one, the path
   * starts with `pre` and ends with `suf`, the two free to overlap.
   */
  lemma OneStarPatternMatches(path: string, pre: string, suf: string)
    requires '*' !in pre && '*' !in suf
    requires IsTrimmed(pre + "*" + suf) && !Matcher.IsSkipped(pre + "*" + suf)
    requires !EndsWith(pre + "*" + suf, "/")
    ensures Matches(path, pre + "*" + suf) <==>
      Matcher.IsGitPath(path) || (StartsWith(path, pre) && EndsWith(path, suf))
  {
    var p := pre + "*" + suf;
    TrimTrimmed(p);
    SplitAroundOne(pre, suf, '*');
    assert p == pre + ['*'] + suf;
    assert '*' in p by {
      assert p[|pre|] == '*';
    }
  }

  /** Two or more `*` leave no rule but the `.git` check (for a pattern not ending in `/`). */
  lemma ManyStarsAreInert(path: string, p: string, i: nat, j: nat)
    requires i < j < |p| && p[i] == '*' && p[j] == '*'
    requires IsTrimmed(p) && !Matcher.IsSkipped(p) && !EndsWith(p, "/")
    ensures Matches(path, p) <==> Matcher.IsGitPath(path)
  {
    TrimTrimmed(p);
    SplitTwoSeparators(p, '*', i, j);
  }

  /** A pattern without `*`: the path ends with it, or holds it right after a `/`. */
  lemma SuffixPatternMatches(path: string, p: string)
    requires '*' !in p && IsTrimmed(p) && !Matcher.IsSkipped(p) && !EndsWith(p, "/")
    ensures Matches(path, p) <==> Matcher.IsGitPath(path) || EndsWith(path, p) || Contains(path, "/" + p)
  {
    TrimTrimmed(p);
  }

  // ---------------------------------------------------------------------------
  // Where the two matchers part ways

  // `**/*.md` has two `*`, so the binary's matcher keeps every Markdown file
  // the library's shortcut for that pattern excludes.
  lemma MarkdownGlobOnlyInLibrary(path: string, p: string)
    requires path == "docs/guide.md" && p == "**/*.md"
    ensures Matcher.Matches(path, p) && !Matches(path, p)
  {
    assert Matcher.ShortcutRule(path, p) by {
      assert path[|path| - 3..] == ".md";
    }
    assert !Matcher.IsGitPath(path) by {
      MatcherExamples.NoDotAfterSlash(path);
    }
    assert IsTrimmed(p) && !Matcher.IsSkipped(p) && !EndsWith(p, "/") by {
      assert !IsWhitespace('*') && !IsWhitespace('d');
      assert p[|p| - 1..] == "d";
    }
    ManyStarsAreInert(path, p, 0, 1);
  }

  // `test/` excludes `testing/file.rs` in the binary, where the name is a raw
  // substring, and keeps it in the library, where it must be a whole segment.
  lemma TestDirectoryOnlyInBinary(path: string, p: string)
    requires path == "testing/file.rs" && p == "test/"
    ensures Matches(path, p) && !Matcher.Matches(path, p)
  {
    MatcherExamples.TestDirectoryKeepsTesting(path, p);
    var dir := "test";
    assert p == dir + "/";
    assert Contains(path, dir) by {
      assert OccursAt(path, dir, 0);
    }
    assert IsTrimmed(p) && !Matcher.IsSkipped(p) by {
      assert !IsWhitespace('t') && !IsWhitespace('/');
    }
    DirPatternMatches(path, dir);
  }
}
