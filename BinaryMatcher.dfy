/**
 * The older ignore-pattern matcher that the binary crate keeps for itself
 * (`should_ignore` in src/main.rs). It shares the library's `.git` check and
 * trimming, but knows only three rules: a directory pattern matched as a raw
 * substring, a glob with exactly one `*`, and a literal suffix.
 */
module BinaryMatcher {
  import opened Strings
  import Matcher

  /** A pattern ending in `/` matches every path holding its name anywhere, even inside a longer word. */
  predicate DirSubstringRule(path: string, p: string) {
    EndsWith(p, "/") && Contains(path, p[..|p| - 1])
  }

  /**
   * The glob rule: only a pattern with exactly one `*` counts; its `*suffix`,
   * `prefix*` and `prefix*suffix` cases are tested one after the other.
   */
  predicate OneStarRule(path: string, p: string) {
    var parts := Split(p, '*');
    && |parts| == 2
    && (|| (StartsWith(p, "*") && EndsWith(path, parts[1]))
        || (EndsWith(p, "*") && StartsWith(path, parts[0]))
        || (StartsWith(path, parts[0]) && EndsWith(path, parts[1])))
  }

  /** A pattern without `*`: the path ends with it or holds it right after a `/`. */
  predicate SuffixRule(path: string, p: string) {
    EndsWith(path, p) || Contains(path, "/" + p)
  }

  /** One pattern's verdict on a normalised path: all checks the loop body runs for it. */
  predicate Matches(path: string, pattern: string) {
    || Matcher.IsGitPath(path)
    || (var p := Trim(pattern);
        && !Matcher.IsSkipped(p)
        && (|| DirSubstringRule(path, p)
            || (if '*' in p then OneStarRule(path, p) else SuffixRule(path, p))))
  }

  /** The verdict for a raw path: after normalising separators, some pattern matches. */
  predicate IsIgnored(rawPath: string, patterns: set<string>) {
    var path := ReplaceBackslashes(rawPath);
    exists p | p in patterns :: Matches(path, p)
  }

  /** The loop body for one pattern: `true` where the source returns `true`. */
  method MatchPattern(path: string, pattern: string) returns (matched: bool)
    ensures matched == Matches(path, pattern)
  {
    if Matcher.IsGitPath(path) {
      return true;
    }
    var p := Trim(pattern);
    if p == [] || p[0] == '#' {
      return false;
    }
    if p[0] == '!' {
      return false;
    }
    if EndsWith(p, "/") && Contains(path, p[..|p| - 1]) {
      return true;
    }
    if '*' in p {
      var parts := Split(p, '*');
      if |parts| == 2 {
        if StartsWith(p, "*") && EndsWith(path, parts[1]) {
          return true;
        } else if EndsWith(p, "*") && StartsWith(path, parts[0]) {
          return true;
        } else if StartsWith(path, parts[0]) && EndsWith(path, parts[1]) {
          return true;
        }
      }
    } else {
      if EndsWith(path, p) || Contains(path, "/" + p) {
        return true;
      }
    }
    return false;
  }

  /**
   * The binary's `should_ignore`: visits the patterns in a hash set's order,
   * stops at the first that matches; the answer is `IsIgnored` whatever the order.
   */
  method ShouldIgnore(rawPath: string, patterns: set<string>) returns (ignored: bool)
    ensures ignored == IsIgnored(rawPath, patterns)
  {
    var path := ReplaceBackslashes(rawPath);
    var remaining := patterns;
    while remaining != {}
      invariant remaining <= patterns
      invariant forall q :: q in patterns && q !in remaining ==> !Matches(path, q)
      decreases |remaining|
    {
      var pattern :| pattern in remaining;
      remaining := remaining - {pattern};
      var matched := MatchPattern(path, pattern);
      if matched {
        return true;
      }
    }
    return false;
  }
}
