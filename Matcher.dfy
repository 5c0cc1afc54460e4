/**
 * The ignore-pattern matcher of the library crate (`should_ignore` in
 * src/lib.rs). A path is excluded when some pattern of the set matches it;
 * `Matches` gives, for one pattern, the exact cascade of checks the matcher
 * runs on it, and `ShouldIgnore` is the loop over the set with its early exits.
 */
module Matcher {
  import opened Strings

  // ---------------------------------------------------------------------------
  // Shortcuts for five common patterns, compared before trimming

  // The `**/test*/**` shortcut: some non-empty segment starting with `test` that is not the last one, or the path ends with `/`.
  predicate TestPrefixSegmentShortcut(path: string) {
    var segs := Split(path, '/');
    exists i | 0 <= i < |segs| ::
      segs[i] != [] && StartsWith(segs[i], "test") && (i != |segs| - 1 || EndsWith(path, "/"))
  }

  // The hard-coded checks for `**/test/**`, `**/test*/**`, `**/*.md`, `node_modules/` and `build/`.
  predicate ShortcutRule(path: string, pattern: string) {
    || (pattern == "**/test/**" && (Contains(path, "/test/") || StartsWith(path, "test/")))
    || (pattern == "**/test*/**" && TestPrefixSegmentShortcut(path))
    || (pattern == "**/*.md" && EndsWith(path, ".md"))
    || (pattern == "node_modules/" && (StartsWith(path, "node_modules/") || Contains(path, "/node_modules/")))
    || (pattern == "build/" && (StartsWith(path, "build/") || Contains(path, "/build/")))
  }

  /** The `.git` check that every pattern runs before it is looked at. */
  predicate IsGitPath(path: string) {
    Contains(path, "/.git/") || path == ".git"
  }

  /** A trimmed pattern that is blank, a comment or a negation: skipped. */
  predicate IsSkipped(p: string) {
    p == [] || p[0] == '#' || p[0] == '!'
  }

  // ---------------------------------------------------------------------------
  // The general rules, on the trimmed pattern

  // `**/suffix`: the path is `suffix` or ends with `/suffix`; a directory suffix also matches as a substring.
  predicate AnyDepthPrefixRule(path: string, p: string) {
    StartsWith(p, "**/") &&
    var suffix := p[3..];
    || path == suffix
    || EndsWith(path, "/" + suffix)
    || (EndsWith(suffix, "/") &&
         (EndsWith(path, suffix[..|suffix| - 1]) || Contains(path, suffix[..|suffix| - 1] + "/")))
  }

  // `prefix/**`: `prefix` is a leading directory or a directory anywhere in the path.
  predicate AnyDepthSuffixRule(path: string, p: string) {
    EndsWith(p, "/**") &&
    var prefix := p[..|p| - 3];
    StartsWith(path, prefix + "/") || Contains(path, "/" + prefix + "/")
  }

  /** Index of the first occurrence of `sub` at or after `from`. */
  function FindFrom(s: string, sub: string, from: nat): (k: nat)
    requires exists i | from <= i <= |s| - |sub| :: OccursAt(s, sub, i)
    ensures from <= k && OccursAt(s, sub, k)
    ensures forall j :: from <= j < k ==> !OccursAt(s, sub, j)
    decreases |s| - from
  {
    if OccursAt(s, sub, from) then from else FindFrom(s, sub, from + 1)
  }

  /** `s.find(sub)`: the first occurrence of `sub` in `s`. */
  function IndexOf(s: string, sub: string): (k: nat)
    requires Contains(s, sub)
    ensures OccursAt(s, sub, k)
    ensures forall j :: 0 <= j < k ==> !OccursAt(s, sub, j)
  {
    FindFrom(s, sub, 0)
  }

  /**
   * The first two items of `p.split("/**/")`: the first piece runs up to the
   * first `/**/`, and the second runs from there up to the next `/**/` that
   * starts after it, or to the end of `p`.
   */
  function MiddlePieces(p: string): (pieces: (string, string))
    requires Contains(p, "/**/")
    ensures !Contains(pieces.0, "/**/") && !Contains(pieces.1, "/**/")
    ensures StartsWith(p, pieces.0 + "/**/" + pieces.1)
  {
    var k := IndexOf(p, "/**/");
    var e := NextOccurrenceOrEnd(p, "/**/", k + 4);
    PiecesBetween(p, "/**/", k, e);
    (p[..k], p[k + 4..e])
  }

  /** Where the next piece ends: the first occurrence of `sub` at or after `from`, or the end of `s`. */
  function NextOccurrenceOrEnd(s: string, sub: string, from: nat): (e: nat)
    requires from <= |s|
    ensures from <= e <= |s|
    ensures forall i :: from <= i < e ==> !OccursAt(s, sub, i)
    ensures e == |s| || OccursAt(s, sub, e)
    decreases |s| - from
  {
    if from == |s| || OccursAt(s, sub, from) then from else NextOccurrenceOrEnd(s, sub, from + 1)
  }

  /**
   * The pieces before the first occurrence at `k` and between it and the
   * next one at `e` hold no occurrence, and `s` starts with them around `sub`.
   */
  lemma PiecesBetween(s: string, sub: string, k: nat, e: nat)
    requires 0 < |sub| && k + |sub| <= e <= |s| && OccursAt(s, sub, k)
    requires forall i :: 0 <= i < k ==> !OccursAt(s, sub, i)
    requires forall i :: k + |sub| <= i < e ==> !OccursAt(s, sub, i)
    ensures !Contains(s[..k], sub) && !Contains(s[k + |sub|..e], sub)
    ensures StartsWith(s, s[..k] + sub + s[k + |sub|..e])
  {
    NoEarlierOccurrence(s, sub, k);
    var b := s[k + |sub|..e];
    if Contains(b, sub) {
      var i :| 0 <= i <= |b| - |sub| && OccursAt(b, sub, i);
      assert s[k + |sub| + i..k + |sub| + i + |sub|] == b[i..i + |sub|];
      assert OccursAt(s, sub, k + |sub| + i);
    }
    assert s[..e] == s[..k] + sub + b;
  }

  /** No occurrence before the first one means the prefix up to it has none. */
  lemma NoEarlierOccurrence(s: string, sub: string, k: nat)
    requires 0 < |sub| && k <= |s|
    requires forall j :: 0 <= j < k ==> !OccursAt(s, sub, j)
    ensures !Contains(s[..k], sub)
  {
    if Contains(s[..k], sub) {
      var j :| 0 <= j <= k - |sub| && OccursAt(s[..k], sub, j);
      assert s[..k][j..j + |sub|] == s[j..j + |sub|];
      assert OccursAt(s, sub, j);
    }
  }

  // `prefix/**/suffix`: the prefix occurs at the start or after a `/`, and the
  // suffix occurs at the end or before a `/`; an empty piece always agrees.
  predicate MiddleRule(path: string, p: string) {
    Contains(p, "/**/") &&
    var (prefix, suffix) := MiddlePieces(p);
    && (prefix == [] || StartsWith(path, prefix) || Contains(path, "/" + prefix))
    && (suffix == [] || EndsWith(path, suffix) || Contains(path, suffix + "/"))
  }

  // `**/pre*suf/`: some non-empty segment of the path starts with `pre` and ends with `suf`.
  predicate WildcardDirRule(path: string, dirName: string) {
    StartsWith(dirName, "**/") &&
    var wildcardPart := dirName[3..];
    '*' in wildcardPart &&
    var parts := Split(wildcardPart, '*');
    |parts| == 2 &&
    var segs := Split(path, '/');
    exists i | 0 <= i < |segs| ::
      segs[i] != [] && StartsWith(segs[i], parts[0]) && EndsWith(segs[i], parts[1])
  }

  /** `dir/`: the path is `dir`, starts with `dir/` or contains `/dir/`. */
  predicate DirSegmentRule(path: string, dirName: string) {
    path == dirName || StartsWith(path, dirName + "/") || Contains(path, "/" + dirName + "/")
  }

  /** A pattern ending in `/`; a wildcard in the directory name sends it to the wildcard rule only. */
  predicate DirRule(path: string, p: string)
    requires EndsWith(p, "/")
  {
    var dirName := p[..|p| - 1];
    if '*' in dirName then WildcardDirRule(path, dirName) else DirSegmentRule(path, dirName)
  }

  /** The `*.test.*` shortcut. */
  predicate TestInfixRule(path: string, p: string) {
    p == "*.test.*" && Contains(path, ".test.")
  }

  /** A pattern with exactly one `*` and no `**`: the `*suffix`, `prefix*` and `prefix*suffix` forms. */
  predicate SingleStarRule(path: string, p: string) {
    var parts := Split(p, '*');
    |parts| == 2 &&
    if StartsWith(p, "*") && EndsWith(path, parts[1]) then
      var lastSegment := LastSegment(path);
      EndsWith(lastSegment, parts[1]) &&
      (parts[1] == [] || StartsWith(parts[1], ".") || lastSegment == parts[1])
    else if EndsWith(p, "*") && StartsWith(path, parts[0]) then
      path == parts[0] || StartsWith(path, parts[0] + "/") || Contains(path, "/" + parts[0] + "/")
    else if parts[0] != [] && parts[1] != [] then
      var fileName := LastSegment(path);
      || (StartsWith(parts[1], ".") && Contains(fileName, parts[0] + parts[1]))
      || Contains(path, parts[0] + parts[1])
    else
      false
  }

  /** A literal: the whole path, its final segment, or a directory segment anywhere. */
  predicate LiteralRule(path: string, p: string) {
    path == p || EndsWith(path, "/" + p) || Contains(path, "/" + p + "/")
  }

  /** What remains after the directory branch: the `*.test.*` shortcut, then single-`*` globs or literals. */
  predicate FileRules(path: string, p: string) {
    || TestInfixRule(path, p)
    || if '*' in p && !Contains(p, "**") then SingleStarRule(path, p) else LiteralRule(path, p)
  }

  /** The general rules, in source order, on a trimmed pattern. */
  predicate GeneralRules(path: string, p: string) {
    && !IsSkipped(p)
    && (|| AnyDepthPrefixRule(path, p)
        || AnyDepthSuffixRule(path, p)
        || MiddleRule(path, p)
        || if EndsWith(p, "/") then DirRule(path, p) else FileRules(path, p))
  }

  /** One pattern's verdict on a normalised path: all checks the loop body runs for it. */
  predicate Matches(path: string, pattern: string) {
    || ShortcutRule(path, pattern)
    || IsGitPath(path)
    || GeneralRules(path, Trim(pattern))
  }

  /** The verdict for a raw path: after normalising separators, some pattern matches. */
  predicate IsIgnored(rawPath: string, patterns: set<string>) {
    var path := ReplaceBackslashes(rawPath);
    exists p | p in patterns :: Matches(path, p)
  }

  // ---------------------------------------------------------------------------
  // The loops

  // The segment scan of the `**/test*/**` shortcut, with its skip of a final file segment.
  method HasTestPrefixSegment(path: string) returns (hit: bool)
    ensures hit == TestPrefixSegmentShortcut(path)
  {
    var segs := Split(path, '/');
    var i := 0;
    while i < |segs|
      invariant 0 <= i <= |segs|
      invariant forall j :: 0 <= j < i ==>
        !(segs[j] != [] && StartsWith(segs[j], "test") && (j != |segs| - 1 || EndsWith(path, "/")))
    {
      var segment := segs[i];
      if segment != [] && StartsWith(segment, "test") {
        if i == |segs| - 1 {
          if !EndsWith(path, "/") {
            i := i + 1;
            continue;
          }
        }
        return true;
      }
      i := i + 1;
    }
    return false;
  }

  /**
   * The body of `should_ignore`'s loop for one pattern: `true` where the
   * source returns `true`, `false` where it moves on to the next pattern.
   */
  method MatchPattern(path: string, pattern: string) returns (matched: bool)
    ensures matched == Matches(path, pattern)
  {
    var hit := MatchShortcuts(path, pattern);
    if hit {
      return true;
    }
    if IsGitPath(path) {
      return true;
    }
    matched := MatchTrimmed(path, Trim(pattern));
  }

  /** The five hard-coded checks on the untrimmed pattern. */
  method MatchShortcuts(path: string, pattern: string) returns (hit: bool)
    ensures hit == ShortcutRule(path, pattern)
  {
    if pattern == "**/test/**" {
      if Contains(path, "/test/") || StartsWith(path, "test/") {
        return true;
      }
    }
    if pattern == "**/test*/**" {
      hit := HasTestPrefixSegment(path);
      if hit {
        return true;
      }
    }
    if pattern == "**/*.md" {
      if EndsWith(path, ".md") {
        return true;
      }
    }
    if pattern == "node_modules/" {
      if StartsWith(path, "node_modules/") || Contains(path, "/node_modules/") {
        return true;
      }
    }
    if pattern == "build/" {
      if StartsWith(path, "build/") || Contains(path, "/build/") {
        return true;
      }
    }
    return false;
  }

  /** Everything after the `.git` check, on the trimmed pattern. */
  method MatchTrimmed(path: string, p: string) returns (matched: bool)
    ensures matched == GeneralRules(path, p)
  {
    if p == [] || p[0] == '#' {
      return false;
    }
    if p[0] == '!' {
      return false;
    }

    if AnyDepthPrefixRule(path, p) || AnyDepthSuffixRule(path, p) || MiddleRule(path, p) {
      return true;
    }

    if EndsWith(p, "/") {
      var dirName := p[..|p| - 1];
      if '*' in dirName {
        return WildcardDirRule(path, dirName);
      }
      return DirSegmentRule(path, dirName);
    }

    if TestInfixRule(path, p) {
      return true;
    }

    if '*' in p && !Contains(p, "**") {
      return SingleStarRule(path, p);
    } else {
      return LiteralRule(path, p);
    }
  }

  /**
   * `should_ignore`: visits the patterns in an arbitrary order (a hash set's),
   * returns `true` at the first pattern that matches and `false` after the
   * last one. Whatever order is taken, the answer is `IsIgnored`.
   */
  method ShouldIgnore(rawPath: string, patterns: set<string>) returns (ignored: bool)
    ensures ignored == IsIgnored(rawPath, patterns)
  {
    var path := ReplaceBackslashes(rawPath);
    var remaining := patterns;
    while remaining != {}
      invariant remaining <= patterns
      invariant forall q :: q in patterns && q !in remaining ==> !Matches(path, q)
      decreases |remaining|
    {
      var pattern :| pattern in remaining;
      remaining := remaining - {pattern};
      var matched := MatchPattern(path, pattern);
      if matched {
        return true;
      }
    }
    return false;
  }
}
