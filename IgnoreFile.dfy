/**
 * The two ignore-file loaders of the library crate, `check_for_digestignore`
 * and `check_for_gitignore` in src/lib.rs: the file's text is cut into
 * lines, every line is trimmed, and the non-blank lines that are not `#`
 * comments join a set that always holds `.git`.
 */
module IgnoreFile {
  import opened Wrappers
  import opened Strings
  import Matcher

  // ---------------------------------------------------------------------------
  // `str::lines`

  /** Drops one carriage return at the end of a line. */
  function StripCr(line: string): string {
    if line != [] && line[|line| - 1] == '\r' then line[..|line| - 1] else line
  }

  /**
   * `content.lines()`: the pieces between `\n` characters, a `\r` before a
   * `\n` removed, and no empty last line after a final `\n` (nor any line
   * at all for empty text).
   */
  function Lines(content: string): (r: seq<string>)
    ensures forall i :: 0 <= i < |r| ==> '\n' !in r[i]
  {
    var pieces := Split(content, '\n');
    var n := if pieces[|pieces| - 1] == [] then |pieces| - 1 else |pieces|;
    seq(n, i requires 0 <= i < n => if i < |pieces| - 1 then StripCr(pieces[i]) else pieces[i])
  }

  /** Lines each followed by `\n`, as a text file written line by line. */
  function Terminated(lines: seq<string>): string {
    if lines == [] then [] else lines[0] + "\n" + Terminated(lines[1..])
  }

  /** A line that `lines` can give back unchanged: no `\n` in it and no `\r` at its end. */
  predicate IsPlainLine(line: string) {
    '\n' !in line && (line == [] || line[|line| - 1] != '\r')
  }

  /** The pieces of newline-terminated lines are those lines and a final empty piece. */
  lemma {:induction false} SplitTerminated(lines: seq<string>)
    requires forall i :: 0 <= i < |lines| ==> '\n' !in lines[i]
    ensures Split(Terminated(lines), '\n') == lines + [[]]
  {
    if lines != [] {
      SplitTerminated(lines[1..]);
      SplitAppend(lines[0], Terminated(lines[1..]), '\n');
      SplitNoSeparator(lines[0], '\n');
      assert lines[0] + "\n" + Terminated(lines[1..]) == lines[0] + ['\n'] + Terminated(lines[1..]);
      assert lines == [lines[0]] + lines[1..];
    }
  }

  /** Writing plain lines out with `\n` after each and reading them back with `lines` is the identity. */
  lemma LinesOfTerminated(lines: seq<string>)
    requires forall i :: 0 <= i < |lines| ==> IsPlainLine(lines[i])
    ensures Lines(Terminated(lines)) == lines
  {
    var text := Terminated(lines);
    var pieces := Split(text, '\n');
    SplitTerminated(lines);
    assert pieces == lines + [[]];
    LinesOfEndedText(text);
    var r := Lines(text);
    assert |r| == |lines|;
    forall i | 0 <= i < |lines|
      ensures r[i] == lines[i]
    {
      assert pieces[i] == lines[i];
      assert IsPlainLine(lines[i]);
    }
  }

  /** For text ending in `\n`, the lines are all pieces but the last, each with its `\r` dropped. */
  lemma LinesOfEndedText(content: string)
    requires var pieces := Split(content, '\n'); pieces[|pieces| - 1] == []
    ensures var pieces := Split(content, '\n');
      |Lines(content)| == |pieces| - 1 &&
      forall i :: 0 <= i < |pieces| - 1 ==> Lines(content)[i] == StripCr(pieces[i])
  {
  }

  /** The pieces of newline-terminated lines and a tail are those lines and the pieces of the tail. */
  lemma {:induction false} SplitTerminatedThen(lines: seq<string>, tail: string)
    requires forall i :: 0 <= i < |lines| ==> '\n' !in lines[i]
    ensures Split(Terminated(lines) + tail, '\n') == lines + Split(tail, '\n')
  {
    if lines == [] {
      assert Terminated(lines) + tail == tail;
    } else {
      var a, t := lines[0], Terminated(lines[1..]);
      var s := Split(t + tail, '\n');
      assert s == lines[1..] + Split(tail, '\n') by {
        SplitTerminatedThen(lines[1..], tail);
      }
      assert Terminated(lines) + tail == a + ['\n'] + (t + tail);
      assert Split(a + ['\n'] + (t + tail), '\n') == [a] + s by {
        SplitAppend(a, t + tail, '\n');
        SplitNoSeparator(a, '\n');
      }
      HeadThenRest(lines, Split(tail, '\n'));
    }
  }

  /** The first element of a non-empty sequence, then the rest, then more. */
  lemma HeadThenRest<T>(xs: seq<T>, zs: seq<T>)
    requires xs != []
    ensures [xs[0]] + (xs[1..] + zs) == xs + zs
  {
    assert [xs[0]] + xs[1..] == xs;
  }

  /**
   * The final line ending is optional: a last line with no `\n` after it is
   * still a line, given back as written (a `\r` at its end included).
   */
  lemma LinesOfUnterminated(lines: seq<string>, last: string)
    requires forall i :: 0 <= i < |lines| ==> IsPlainLine(lines[i])
    requires last != [] && '\n' !in last
    ensures Lines(Terminated(lines) + last) == lines + [last]
  {
    var text := Terminated(lines) + last;
    SplitTerminatedThen(lines, last);
    SplitNoSeparator(last, '\n');
    var pieces := Split(text, '\n');
    assert pieces == lines + [last];
    var r := Lines(text);
    assert |r| == |lines| + 1;
    forall i | 0 <= i < |lines|
      ensures r[i] == lines[i]
    {
      assert pieces[i] == lines[i];
      assert IsPlainLine(lines[i]);
    }
    assert r[|lines|] == last;
    Snoc(r, lines, last);
  }

  /** A plain last line reads the same with or without a `\n` after it. */
  lemma FinalLineEndingOptional(lines: seq<string>, last: string)
    requires forall i :: 0 <= i < |lines| ==> IsPlainLine(lines[i])
    requires last != [] && IsPlainLine(last)
    ensures Lines(Terminated(lines) + last) == Lines(Terminated(lines + [last]))
  {
    LinesOfUnterminated(lines, last);
    var all := lines + [last];
    forall i | 0 <= i < |all|
      ensures IsPlainLine(all[i])
    {
      if i < |lines| {
        assert all[i] == lines[i];
      }
    }
    LinesOfTerminated(all);
  }

  // ---------------------------------------------------------------------------
  // The pattern set

  /** A trimmed line that becomes a pattern: not blank and not a `#` comment. */
  predicate IsPatternLine(t: string) {
    t != [] && t[0] != '#'
  }

  /** The trimmed pattern lines among `lines`. */
  function KeptPatterns(lines: seq<string>): set<string> {
    set l | l in lines && IsPatternLine(Trim(l)) :: Trim(l)
  }

  /** The set a loader builds from a file's text: `.git` and every trimmed pattern line. */
  function PatternsOf(content: string): set<string> {
    {".git"} + KeptPatterns(Lines(content))
  }

  /** Extending the lines by one adds that line's pattern, if it has one. */
  lemma KeptPatternsSnoc(lines: seq<string>, line: string)
    ensures KeptPatterns(lines + [line]) ==
      KeptPatterns(lines) + (if IsPatternLine(Trim(line)) then {Trim(line)} else {})
  {
    var ext := lines + [line];
    forall p | p in KeptPatterns(ext)
      ensures p in KeptPatterns(lines) + (if IsPatternLine(Trim(line)) then {Trim(line)} else {})
    {
      var l :| l in ext && IsPatternLine(Trim(l)) && p == Trim(l);
      if l != line {
        assert l in lines;
      }
    }
    forall p | p in KeptPatterns(lines)
      ensures p in KeptPatterns(ext)
    {
      var l :| l in lines && IsPatternLine(Trim(l)) && p == Trim(l);
      assert l in ext;
    }
    if IsPatternLine(Trim(line)) {
      assert line in ext;
    }
  }

  /**
   * The parse loop shared by both loaders: start from `{".git"}` and insert
   * every trimmed line that is neither blank nor a `#` comment.
   */
  method ParseIgnoreText(content: string) returns (patterns: set<string>)
    ensures patterns == PatternsOf(content)
  {
    var lines := Lines(content);
    patterns := {".git"};
    var i := 0;
    while i < |lines|
      invariant 0 <= i <= |lines|
      invariant patterns == {".git"} + KeptPatterns(lines[..i])
    {
      var line := Trim(lines[i]);
      KeptPatternsSnoc(lines[..i], lines[i]);
      assert lines[..i + 1] == lines[..i] + [lines[i]];
      if line != [] && line[0] != '#' {
        patterns := patterns + {line};
      }
      i := i + 1;
    }
    assert lines[..|lines|] == lines;
  }

  /** Every parsed pattern is already trimmed, non-blank and not a comment. */
  lemma ParsedPatternsAreClean(content: string, p: string)
    requires p in PatternsOf(content)
    ensures IsTrimmed(p) && IsPatternLine(p) && Trim(p) == p
  {
    if p != ".git" {
      var l :| l in Lines(content) && IsPatternLine(Trim(l)) && p == Trim(l);
      var _ := TrimShape(l);
    } else {
      assert !IsWhitespace('.') && !IsWhitespace('t');
    }
    TrimTrimmed(p);
  }

  /** A file written line by line yields `.git` and exactly its pattern lines. */
  lemma PatternsOfTerminated(lines: seq<string>)
    requires forall i :: 0 <= i < |lines| ==> IsPlainLine(lines[i])
    ensures PatternsOf(Terminated(lines)) == {".git"} + KeptPatterns(lines)
  {
    LinesOfTerminated(lines);
  }

  /** A file whose last line has no `\n` after it still yields that line's pattern. */
  lemma PatternsOfUnterminated(lines: seq<string>, last: string)
    requires forall i :: 0 <= i < |lines| ==> IsPlainLine(lines[i])
    requires last != [] && '\n' !in last
    ensures PatternsOf(Terminated(lines) + last) == {".git"} + KeptPatterns(lines + [last])
  {
    LinesOfUnterminated(lines, last);
  }

  /** Adding a final `\n` to any text changes no pattern. */
  lemma FinalNewlineChangesNothing(content: string)
    ensures PatternsOf(content + "\n") == PatternsOf(content)
  {
    var pieces := Split(content, '\n');
    var m := |pieces| - 1;
    var pl := pieces[m];
    var lines := Lines(content);
    var longer := Lines(content + "\n");
    var init := lines[..m];
    LinesAddNewline(content);
    if pl == [] {
      assert longer == init + [[]] && lines == init;
      SameTrimSameKept(init, [], []);
      assert KeptPatterns(longer) == KeptPatterns(lines);
    } else {
      assert longer == init + [StripCr(pl)] && lines == init + [pl];
      TrimStripCr(pl);
      SameTrimSameKept(init, StripCr(pl), pl);
      assert KeptPatterns(longer) == KeptPatterns(lines);
    }
  }

  /** Lines that trim alike contribute alike. */
  lemma SameTrimSameKept(init: seq<string>, x: string, y: string)
    requires Trim(x) == Trim(y)
    ensures KeptPatterns(init + [x]) == KeptPatterns(init + [y])
    ensures Trim(x) == [] ==> KeptPatterns(init + [x]) == KeptPatterns(init)
  {
    KeptPatternsSnoc(init, x);
    KeptPatternsSnoc(init, y);
  }

  /**
   * With a final `\n` added, the last piece becomes a line of its own with its
   * `\r` dropped; without it, that piece is a line only when non-empty.
   */
  lemma LinesAddNewline(content: string)
    ensures var pieces := Split(content, '\n');
      var m := |pieces| - 1;
      var lines := Lines(content);
      && m <= |lines|
      && Lines(content + "\n") == lines[..m] + [StripCr(pieces[m])]
      && (pieces[m] == [] ==> lines == lines[..m])
      && (pieces[m] != [] ==> lines == lines[..m] + [pieces[m]])
  {
    var pieces := Split(content, '\n');
    var m := |pieces| - 1;
    var ended := content + "\n";
    SplitWithNewline(content);
    LinesOfEndedText(ended);
    var longer := Lines(ended);
    var lines := Lines(content);
    assert |longer| == m + 1;
    forall i | 0 <= i < m
      ensures longer[i] == lines[..m][i]
    {
      assert Split(ended, '\n')[i] == pieces[i];
    }
    Snoc(longer, lines[..m], StripCr(pieces[m]));
    if pieces[m] != [] {
      Snoc(lines, lines[..m], pieces[m]);
    }
  }

  /** A sequence that agrees with `xs` and then ends in `x` is `xs + [x]`. */
  lemma Snoc<T>(ys: seq<T>, xs: seq<T>, x: T)
    requires |ys| == |xs| + 1 && ys[|xs|] == x
    requires forall i :: 0 <= i < |xs| ==> ys[i] == xs[i]
    ensures ys == xs + [x]
  {
  }

  /** A final `\n` adds one empty piece. */
  lemma SplitWithNewline(content: string)
    ensures Split(content + "\n", '\n') == Split(content, '\n') + [[]]
  {
    assert content + "\n" == content + ['\n'] + [];
    SplitAppend(content, [], '\n');
    SplitNoSeparator([], '\n');
  }

  /** A `\r` left at the end of a line is removed by `trim` anyway. */
  lemma TrimStripCr(line: string)
    ensures Trim(StripCr(line)) == Trim(line)
  {
    if line != [] && line[|line| - 1] == '\r' {
      assert line == StripCr(line) + ['\r'];
      TrimDropsFinalWhitespace(StripCr(line), '\r');
    }
  }

  /** Blank lines and `#` comments contribute nothing. */
  lemma SkippedLinesContributeNothing(lines: seq<string>, line: string)
    requires !IsPatternLine(Trim(line))
    ensures KeptPatterns(lines + [line]) == KeptPatterns(lines)
  {
    KeptPatternsSnoc(lines, line);
  }

  /** Surrounding whitespace does not change the pattern a line gives. */
  lemma PaddedLineGivesTrimmedPattern(lines: seq<string>, line: string)
    requires IsPatternLine(Trim(line))
    ensures Trim(line) in KeptPatterns(lines + [line])
    ensures IsTrimmed(Trim(line))
  {
    KeptPatternsSnoc(lines, line);
    var _ := TrimShape(line);
  }

  // A line `node_modules/ ` with a trailing space yields the pattern `node_modules/`.
  lemma TrailingSpaceDropped(line: string, content: string)
    requires line == "node_modules/ " && content == line + "\n"
    ensures PatternsOf(content) == {".git", "node_modules/"}
  {
    var trimmed := line[..|line| - 1];
    assert trimmed == "node_modules/";
    assert Trim(line) == trimmed by {
      assert !IsWhitespace(line[0]) && IsWhitespace(line[|line| - 1]) && !IsWhitespace(trimmed[|trimmed| - 1]);
      assert TrimStart(line) == line;
      assert TrimEnd(trimmed) == trimmed;
    }
    assert IsPlainLine(line) by {
      assert forall i | 0 <= i < |line| :: line[i] != '\n';
    }
    assert content == Terminated([line]);
    PatternsOfTerminated([line]);
    assert KeptPatterns([line]) == {trimmed};
  }

  /** Every loaded set excludes the `.git` directory. */
  lemma LoadedPatternsIgnoreGit(content: string, rawPath: string)
    requires Matcher.IsGitPath(ReplaceBackslashes(rawPath))
    ensures Matcher.IsIgnored(rawPath, PatternsOf(content))
  {
    assert ".git" in PatternsOf(content);
    assert Matcher.Matches(ReplaceBackslashes(rawPath), ".git");
  }

  // ---------------------------------------------------------------------------
  // The loaders

  /** The state of an ignore file in the project root, as the file system reports it. */
  datatype FileState = Missing | Unreadable | Text(content: string)

  /** Why a loader gave no pattern set. */
  datatype LoadError = NotFound(fileName: string) | ReadFailed(fileName: string)

  /** A loader for the file `fileName`: missing or unreadable is an error, otherwise the parsed set. */
  method LoadIgnoreFile(fileName: string, file: FileState) returns (r: Result<set<string>, LoadError>)
    ensures file == Missing <==> r == Failure(NotFound(fileName))
    ensures file == Unreadable <==> r == Failure(ReadFailed(fileName))
    ensures file.Text? <==> r.Success?
    ensures file.Text? ==> r.value == PatternsOf(file.content)
  {
    match file {
      case Missing => return Failure(NotFound(fileName));
      case Unreadable => return Failure(ReadFailed(fileName));
      case Text(content) =>
        var patterns := ParseIgnoreText(content);
        return Success(patterns);
    }
  }

  /** `check_for_digestignore`: loads `.digestignore`. */
  method CheckForDigestignore(file: FileState) returns (r: Result<set<string>, LoadError>)
    ensures file.Text? <==> r.Success?
    ensures file.Text? ==> r.value == PatternsOf(file.content)
    ensures file == Missing ==> r == Failure(NotFound(".digestignore"))
    ensures file == Unreadable ==> r == Failure(ReadFailed(".digestignore"))
  {
    r := LoadIgnoreFile(".digestignore", file);
  }

  /** `check_for_gitignore`: loads `.gitignore`, with the same parse. */
  method CheckForGitignore(file: FileState) returns (r: Result<set<string>, LoadError>)
    ensures file.Text? <==> r.Success?
    ensures file.Text? ==> r.value == PatternsOf(file.content)
    ensures file == Missing ==> r == Failure(NotFound(".gitignore"))
    ensures file == Unreadable ==> r == Failure(ReadFailed(".gitignore"))
  {
    r := LoadIgnoreFile(".gitignore", file);
  }
}
