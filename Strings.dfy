/**
 * The string operations the matcher is built from, with the meaning Rust's
 * `str` gives them: `starts_with`, `ends_with`, `contains`, `split(c)`, `trim`
 * and the backslash-to-slash `replace`. Strings are sequences of characters.
 */
module Strings {

  /** `s.starts_with(p)` */
  predicate StartsWith(s: string, p: string) {
    |p| <= |s| && s[..|p|] == p
  }

  /** `s.ends_with(p)` */
  predicate EndsWith(s: string, p: string) {
    |p| <= |s| && s[|s| - |p|..] == p
  }

  /** `sub` occurs in `s` starting at index `i`. */
  predicate OccursAt(s: string, sub: string, i: int) {
    0 <= i <= |s| - |sub| && s[i..i + |sub|] == sub
  }

  /** `s.contains(sub)`: `sub` occurs in `s` at some position. */
  predicate Contains(s: string, sub: string) {
    exists i | 0 <= i <= |s| - |sub| :: OccursAt(s, sub, i)
  }

  // ---------------------------------------------------------------------------
  // Facts about occurrence

  lemma StartsWithContains(s: string, p: string)
    requires StartsWith(s, p)
    ensures Contains(s, p)
  {
    assert OccursAt(s, p, 0);
  }

  lemma EndsWithContains(s: string, p: string)
    requires EndsWith(s, p)
    ensures Contains(s, p)
  {
    assert OccursAt(s, p, |s| - |p|);
  }

  /** An occurrence in `s` of something that contains `sub` is an occurrence of `sub`. */
  lemma {:induction false} ContainsTransitive(s: string, m: string, sub: string)
    requires Contains(s, m) && Contains(m, sub)
    ensures Contains(s, sub)
  {
    var i :| 0 <= i <= |s| - |m| && OccursAt(s, m, i);
    var j :| 0 <= j <= |m| - |sub| && OccursAt(m, sub, j);
    assert s[i..i + |m|] == m && m[j..j + |sub|] == sub;
    forall k | 0 <= k < |sub| ensures s[i + j + k] == sub[k] {
      assert s[i..i + |m|][j + k] == m[j + k];
      assert m[j..j + |sub|][k] == m[j + k];
    }
    assert s[i + j..i + j + |sub|] == sub;
    assert OccursAt(s, sub, i + j);
  }

  /** Every character of an occurring string occurs in `s`. */
  lemma {:induction false} ContainsChar(s: string, sub: string, c: char)
    requires Contains(s, sub) && c in sub
    ensures c in s
  {
    var i :| 0 <= i <= |s| - |sub| && OccursAt(s, sub, i);
    var k :| 0 <= k < |sub| && sub[k] == c;
    assert s[i..i + |sub|][k] == sub[k];
  }

  /** A string lacking one of the characters of `sub` does not contain `sub`. */
  lemma AbsentChar(s: string, sub: string, c: char)
    requires c in sub && c !in s
    ensures !Contains(s, sub)
  {
    if Contains(s, sub) {
      ContainsChar(s, sub, c);
    }
  }

  /** A suffix of a suffix is a suffix. */
  lemma EndsWithTransitive(s: string, m: string, p: string)
    requires EndsWith(s, m) && EndsWith(m, p)
    ensures EndsWith(s, p)
  {
    assert s[|s| - |p|..] == m[|m| - |p|..];
  }

  /** A prefix of a prefix is a prefix. */
  lemma StartsWithTransitive(s: string, m: string, p: string)
    requires StartsWith(s, m) && StartsWith(m, p)
    ensures StartsWith(s, p)
  {
    assert s[..|p|] == m[..|p|];
  }

  /** `x + sub + z` contains `sub`. */
  lemma ContainsMiddle(x: string, sub: string, z: string)
    ensures Contains(x + sub + z, sub)
  {
    var s := x + sub + z;
    assert OccursAt(s, sub, |x|);
  }

  /** An occurrence of `sub` in `s` splits `s` around it. */
  lemma {:induction false} ContainsSplits(s: string, sub: string) returns (x: string, z: string)
    requires Contains(s, sub)
    ensures s == x + sub + z
  {
    var i :| 0 <= i <= |s| - |sub| && OccursAt(s, sub, i);
    x, z := s[..i], s[i + |sub|..];
    assert s == s[..i] + s[i..i + |sub|] + s[i + |sub|..];
  }

  /** Two characters of `s` that differ from `sub` at the same offsets rule out every occurrence. */
  lemma NotContainsByChars(s: string, sub: string, k1: nat, k2: nat)
    requires k1 < |sub| && k2 < |sub|
    requires forall i | 0 <= i <= |s| - |sub| :: DiffersAt(s, sub, i, k1, k2)
    ensures !Contains(s, sub)
  {
    forall i | 0 <= i <= |s| - |sub|
      ensures !OccursAt(s, sub, i)
    {
      assert DiffersAt(s, sub, i, k1, k2);
      assert s[i..i + |sub|][k1] == s[i + k1];
      assert s[i..i + |sub|][k2] == s[i + k2];
    }
  }

  /** `s` placed at offset `i` disagrees with `sub` at offset `k1` or at offset `k2`. */
  predicate DiffersAt(s: string, sub: string, i: int, k1: nat, k2: nat)
    requires 0 <= i <= |s| - |sub| && k1 < |sub| && k2 < |sub|
  {
    s[i + k1] != sub[k1] || s[i + k2] != sub[k2]
  }

  // ---------------------------------------------------------------------------
  // `split(c)` and its inverse

  /**
   * `s.split(c)` collected into a sequence: the maximal pieces of `s` between
   * occurrences of `c`. There is always at least one piece (`"".split(c)` is
   * `[""]`), and no piece contains `c`.
   */
  function Split(s: string, c: char): (r: seq<string>)
    ensures |r| >= 1
    ensures forall i :: 0 <= i < |r| ==> c !in r[i]
    decreases |s|
  {
    if s == [] then [[]]
    else
      var rest := Split(s[1..], c);
      if s[0] == c then [[]] + rest else [[s[0]] + rest[0]] + rest[1..]
  }

  /** The pieces glued back together with `c` between them. */
  function Join(parts: seq<string>, c: char): string
    requires |parts| >= 1
  {
    if |parts| == 1 then parts[0] else parts[0] + [c] + Join(parts[1..], c)
  }

  /** Splitting loses nothing: joining the pieces gives back the string. */
  lemma {:induction false} SplitJoin(s: string, c: char)
    ensures Join(Split(s, c), c) == s
  {
    if s != [] {
      var rest := Split(s[1..], c);
      SplitJoin(s[1..], c);
      if s[0] == c {
        assert s == [c] + s[1..];
      } else if |rest| == 1 {
        assert s == [s[0]] + s[1..];
      } else {
        assert rest == [rest[0]] + rest[1..];
        assert Join(rest, c) == rest[0] + [c] + Join(rest[1..], c);
        assert s == [s[0]] + s[1..];
      }
    }
  }

  /** A string without the separator is a single piece. */
  lemma {:induction false} SplitNoSeparator(s: string, c: char)
    requires c !in s
    ensures Split(s, c) == [s]
  {
    if s != [] {
      SplitNoSeparator(s[1..], c);
      assert s == [s[0]] + s[1..];
    }
  }

  /** Splitting at one occurrence of the separator concatenates the pieces of both sides. */
  lemma {:induction false} SplitAppend(a: string, b: string, c: char)
    ensures Split(a + [c] + b, c) == Split(a, c) + Split(b, c)
  {
    if a == [] {
      assert a + [c] + b == [c] + b;
      assert ([c] + b)[1..] == b;
    } else {
      assert (a + [c] + b)[0] == a[0];
      assert (a + [c] + b)[1..] == a[1..] + [c] + b;
      SplitAppend(a[1..], b, c);
    }
  }

  /** Joining separator-free pieces and splitting again gives the pieces back. */
  lemma {:induction false} JoinSplit(parts: seq<string>, c: char)
    requires |parts| >= 1
    requires forall i :: 0 <= i < |parts| ==> c !in parts[i]
    ensures Split(Join(parts, c), c) == parts
  {
    if |parts| == 1 {
      SplitNoSeparator(parts[0], c);
    } else {
      JoinSplit(parts[1..], c);
      SplitAppend(parts[0], Join(parts[1..], c), c);
      SplitNoSeparator(parts[0], c);
      assert parts == [parts[0]] + parts[1..];
    }
  }

  /** A string holding the separator splits into at least two pieces. */
  lemma SplitHasSeparator(s: string, c: char)
    requires c in s
    ensures |Split(s, c)| >= 2
  {
    var i :| 0 <= i < |s| && s[i] == c;
    assert s == s[..i] + [c] + s[i + 1..];
    SplitAppend(s[..i], s[i + 1..], c);
  }

  /** Two separators at positions `i < j` make at least three pieces. */
  lemma SplitTwoSeparators(s: string, c: char, i: nat, j: nat)
    requires i < j < |s| && s[i] == c && s[j] == c
    ensures |Split(s, c)| >= 3
  {
    var b := s[i + 1..];
    assert s == s[..i] + [c] + b;
    SplitAppend(s[..i], b, c);
    assert b[j - i - 1] == c;
    SplitHasSeparator(b, c);
  }

  /** One separator between two separator-free strings splits into exactly those two. */
  lemma SplitAroundOne(a: string, b: string, c: char)
    requires c !in a && c !in b
    ensures Split(a + [c] + b, c) == [a, b]
  {
    SplitAppend(a, b, c);
    SplitNoSeparator(a, c);
    SplitNoSeparator(b, c);
  }

  /** A separator-free piece between two separators is a piece of the split, and not the last. */
  lemma SplitInnerPiece(x: string, y: string, z: string, c: char)
    requires c !in y
    ensures var segs := Split(x + [c] + y + [c] + z, c);
      |Split(x, c)| < |segs| - 1 && segs[|Split(x, c)|] == y
  {
    assert x + [c] + y + [c] + z == x + [c] + (y + [c] + z);
    SplitAppend(x, y + [c] + z, c);
    SplitAppend(y, z, c);
    SplitNoSeparator(y, c);
  }

  /** A separator-free prefix ended by a separator is the first piece, and not the last. */
  lemma SplitLeadingPiece(y: string, z: string, c: char)
    requires c !in y
    ensures var segs := Split(y + [c] + z, c); |segs| > 1 && segs[0] == y
  {
    SplitAppend(y, z, c);
    SplitNoSeparator(y, c);
  }

  /** A string ending in the separator has an empty last piece. */
  lemma {:induction false} SplitTrailingSeparator(s: string, c: char)
    requires |s| > 0 && s[|s| - 1] == c
    ensures var segs := Split(s, c); segs[|segs| - 1] == []
  {
    var a := s[..|s| - 1];
    assert s == a + [c] + [];
    SplitAppend(a, [], c);
  }

  /** Joining two or more pieces ends with the separator and the last piece. */
  lemma {:induction false} JoinLast(parts: seq<string>, c: char)
    requires |parts| >= 2
    ensures Join(parts, c) == Join(parts[..|parts| - 1], c) + [c] + parts[|parts| - 1]
  {
    if |parts| > 2 {
      JoinLast(parts[1..], c);
      assert parts[1..][..|parts| - 2] == parts[..|parts| - 1][1..];
    }
  }

  /** `path.split('/').last()`: the final `/`-piece, the file name. */
  function LastSegment(path: string): string {
    var segs := Split(path, '/');
    segs[|segs| - 1]
  }

  /**
   * The last segment is the part of the path after its last `/`: it has no
   * `/`, and it is either the whole path or preceded by a `/`.
   */
  lemma LastSegmentShape(path: string)
    ensures '/' !in LastSegment(path)
    ensures LastSegment(path) == path || EndsWith(path, "/" + LastSegment(path))
    ensures EndsWith(path, LastSegment(path))
  {
    var segs := Split(path, '/');
    var last := segs[|segs| - 1];
    assert path == Join(segs, '/') by {
      SplitJoin(path, '/');
    }
    if |segs| >= 2 {
      var init := Join(segs[..|segs| - 1], '/');
      assert path == init + ("/" + last) by {
        JoinLast(segs, '/');
      }
      EndsWithAppend(init, "/" + last);
      EndsWithTransitive(path, "/" + last, last);
    }
  }

  /** `a + b` ends with `b`. */
  lemma EndsWithAppend(a: string, b: string)
    ensures EndsWith(a + b, b)
  {
    assert (a + b)[|a|..] == b;
  }

  // ---------------------------------------------------------------------------
  // `replace('\\', "/")`

  /** Rewrites every backslash to a forward slash and leaves every other character alone. */
  function ReplaceBackslashes(s: string): (r: string)
    ensures |r| == |s| && '\\' !in r
    ensures forall i :: 0 <= i < |s| && s[i] != '\\' ==> r[i] == s[i]
    ensures forall i :: 0 <= i < |s| && s[i] == '\\' ==> r[i] == '/'
  {
    seq(|s|, i requires 0 <= i < |s| => if s[i] == '\\' then '/' else s[i])
  }

  /** A path without backslashes is already normalised. */
  lemma ReplaceBackslashesKeepsPlain(s: string)
    requires '\\' !in s
    ensures ReplaceBackslashes(s) == s
  {
  }

  /** Normalising a normalised path changes nothing. */
  lemma ReplaceBackslashesIdempotent(s: string)
    ensures ReplaceBackslashes(ReplaceBackslashes(s)) == ReplaceBackslashes(s)
  {
  }

  // ---------------------------------------------------------------------------
  // `trim`

  /** Rust's `char::is_whitespace`: the Unicode White_Space property. */
  predicate IsWhitespace(ch: char) {
    || ch == ' '
    || ('\t' <= ch <= '\r')
    || ch == '\U{0085}' || ch == '\U{00A0}' || ch == '\U{1680}'
    || ('\U{2000}' <= ch <= '\U{200A}')
    || ch == '\U{2028}' || ch == '\U{2029}' || ch == '\U{202F}' || ch == '\U{205F}'
    || ch == '\U{3000}'
  }

  predicate AllWhitespace(s: string) {
    forall i :: 0 <= i < |s| ==> IsWhitespace(s[i])
  }

  /** No whitespace at either end. */
  predicate IsTrimmed(s: string) {
    s == [] || (!IsWhitespace(s[0]) && !IsWhitespace(s[|s| - 1]))
  }

  /** `trim_start`: drops the leading whitespace. */
  function TrimStart(s: string): string
    decreases |s|
  {
    if s != [] && IsWhitespace(s[0]) then TrimStart(s[1..]) else s
  }

  /** `trim_end`: drops the trailing whitespace. */
  function TrimEnd(s: string): string
    decreases |s|
  {
    if s != [] && IsWhitespace(s[|s| - 1]) then TrimEnd(s[..|s| - 1]) else s
  }

  /** `trim`: whitespace removed at both ends. */
  function Trim(s: string): string {
    TrimEnd(TrimStart(s))
  }

  /** `trim_start` removes a whitespace prefix, and exactly all of it. */
  lemma {:induction false} TrimStartShape(s: string)
    ensures var r := TrimStart(s);
      |r| <= |s| && r == s[|s| - |r|..] && AllWhitespace(s[..|s| - |r|])
      && (r == [] || !IsWhitespace(r[0]))
    decreases |s|
  {
    if s != [] && IsWhitespace(s[0]) {
      TrimStartShape(s[1..]);
      var r := TrimStart(s[1..]);
      assert s[..|s| - |r|] == [s[0]] + s[1..][..|s| - 1 - |r|];
    }
  }

  /** `trim_end` removes a whitespace suffix, and exactly all of it. */
  lemma {:induction false} TrimEndShape(s: string)
    ensures var r := TrimEnd(s);
      |r| <= |s| && r == s[..|r|] && AllWhitespace(s[|r|..])
      && (r == [] || !IsWhitespace(r[|r| - 1]))
    decreases |s|
  {
    if s != [] && IsWhitespace(s[|s| - 1]) {
      var t := s[..|s| - 1];
      TrimEndShape(t);
      var r := TrimEnd(t);
      assert s[|r|..] == t[|r|..] + [s[|s| - 1]];
    }
  }

  /**
   * `trim` gives the factor of `s` left after removing whitespace at both
   * ends: it has no whitespace at either end, and only whitespace was removed.
   */
  lemma TrimShape(s: string) returns (i: nat)
    ensures IsTrimmed(Trim(s))
    ensures TrimsTo(s, Trim(s), i)
  {
    var t := TrimStart(s);
    TrimStartShape(s);
    TrimEndShape(t);
    var r := TrimEnd(t);
    i := |s| - |t|;
    assert r == s[i..i + |r|];
    assert s[i + |r|..] == t[|r|..];
  }

  /** `r` is the factor of `s` at index `i`, with only whitespace around it. */
  predicate TrimsTo(s: string, r: string, i: int) {
    && OccursAt(s, r, i)
    && AllWhitespace(s[..i])
    && AllWhitespace(s[i + |r|..])
  }

  /** A string without whitespace at its ends is its own trim. */
  lemma TrimTrimmed(s: string)
    requires IsTrimmed(s)
    ensures Trim(s) == s
  {
    assert TrimStart(s) == s;
  }

  /** Trimming twice is trimming once. */
  lemma TrimIdempotent(s: string)
    ensures Trim(Trim(s)) == Trim(s)
  {
    var _ := TrimShape(s);
    TrimTrimmed(Trim(s));
  }

  /** `trim_start` of a string with one more character at its end. */
  lemma {:induction false} TrimStartSnoc(t: string, c: char)
    ensures TrimStart(t + [c]) ==
      if TrimStart(t) == [] && IsWhitespace(c) then [] else TrimStart(t) + [c]
    decreases |t|
  {
    if t == [] {
      assert [c][1..] == [];
    } else {
      assert (t + [c])[0] == t[0];
      assert (t + [c])[1..] == t[1..] + [c];
      if IsWhitespace(t[0]) {
        TrimStartSnoc(t[1..], c);
      }
    }
  }

  /** A whitespace character at the end (such as the `\r` of a CRLF line) does not change `trim`. */
  lemma TrimDropsFinalWhitespace(t: string, c: char)
    requires IsWhitespace(c)
    ensures Trim(t + [c]) == Trim(t)
  {
    TrimStartSnoc(t, c);
    var u := TrimStart(t);
    if u != [] {
      assert (u + [c])[..|u|] == u;
    }
  }
}
