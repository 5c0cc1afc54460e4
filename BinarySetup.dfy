/**
 * How the binary crate (src/main.rs) picks its pattern set: the project's
 * main language is the one with the most lines, the default set is a
 * common list plus that language's entries, and a `.digestignore` file,
 * when present, replaces the default set altogether.
 */
module BinarySetup {
  import opened Wrappers
  import opened Strings
  import IgnoreFile
  import Matcher
  import BinaryMatcher

  // ---------------------------------------------------------------------------
  // `get_main_language`

  /**
   * `max_by_key` over `(language, lines)` entries in iteration order: the
   * entry with the most lines, the last one among equals.
   */
  function MaxByCount(entries: seq<(string, nat)>): (r: Option<(string, nat)>)
    ensures r.None? <==> entries == []
    ensures r.Some? ==> exists i :: IsLastMaximum(entries, i) && entries[i] == r.value
  {
    if entries == [] then None
    else
      var init := entries[..|entries| - 1];
      var last := entries[|entries| - 1];
      var prev := MaxByCount(init);
      if prev.None? || last.1 >= prev.value.1 then
        assert IsLastMaximum(entries, |entries| - 1) by {
          forall j | 0 <= j < |entries| - 1
            ensures entries[j].1 <= last.1
          {
            assert entries[j] == init[j];
            var i :| IsLastMaximum(init, i) && init[i] == prev.value;
          }
        }
        Some(last)
      else
        assert exists i :: IsLastMaximum(entries, i) && entries[i] == prev.value by {
          var i :| IsLastMaximum(init, i) && init[i] == prev.value;
          assert entries[i] == init[i];
          forall j | 0 <= j < |entries| - 1
            ensures entries[j] == init[j]
          {
          }
          assert IsLastMaximum(entries, i);
        }
        Some(prev.value)
  }

  /** Entry `i` has the most lines, and every later entry has fewer. */
  predicate IsLastMaximum(entries: seq<(string, nat)>, i: int) {
    && 0 <= i < |entries|
    && (forall j :: 0 <= j < |entries| ==> entries[j].1 <= entries[i].1)
    && (forall j :: i < j < |entries| ==> entries[j].1 < entries[i].1)
  }

  /** `order` visits each key of `breakdown` exactly once: a hash map's iteration order. */
  predicate IsIterationOrder(breakdown: map<string, nat>, order: seq<string>) {
    && (forall k | k in breakdown :: k in order)
    && (forall i | 0 <= i < |order| :: order[i] in breakdown)
    && (forall i, j :: 0 <= i < j < |order| ==> order[i] != order[j])
  }

  /** The breakdown's entries in the given order. */
  function EntriesInOrder(breakdown: map<string, nat>, order: seq<string>): seq<(string, nat)>
    requires forall i | 0 <= i < |order| :: order[i] in breakdown
  {
    seq(|order|, i requires 0 <= i < |order| => (order[i], breakdown[order[i]]))
  }

  /**
   * `get_main_language`: no language for an empty breakdown, otherwise a
   * language with no other having more lines.
   */
  function GetMainLanguage(breakdown: map<string, nat>, order: seq<string>): (r: Option<string>)
    requires IsIterationOrder(breakdown, order)
    ensures r.None? <==> breakdown == map[]
    ensures r.Some? ==> r.value in breakdown
    ensures r.Some? ==> forall k :: k in breakdown ==> breakdown[k] <= breakdown[r.value]
    ensures r.Some? ==> exists i :: IsLastMaximum(EntriesInOrder(breakdown, order), i) && order[i] == r.value
  {
    var entries := EntriesInOrder(breakdown, order);
    var best := MaxByCount(entries);
    if best.None? then
      assert breakdown == map[] by {
        assert order == [];
      }
      None
    else
      assert best.value.0 in breakdown && best.value.1 == breakdown[best.value.0] by {
        var i :| IsLastMaximum(entries, i) && entries[i] == best.value;
      }
      assert forall k | k in breakdown :: breakdown[k] <= best.value.1 by {
        var i :| IsLastMaximum(entries, i) && entries[i] == best.value;
        forall k | k in breakdown
          ensures breakdown[k] <= best.value.1
        {
          var j :| 0 <= j < |order| && order[j] == k;
          assert entries[j].1 == breakdown[k];
        }
      }
      Some(best.value.0)
  }

  /** A language with strictly more lines than every other wins in every iteration order. */
  lemma UniqueLeaderWins(breakdown: map<string, nat>, order: seq<string>, lang: string)
    requires IsIterationOrder(breakdown, order)
    requires lang in breakdown
    requires forall k :: k in breakdown && k != lang ==> breakdown[k] < breakdown[lang]
    ensures GetMainLanguage(breakdown, order) == Some(lang)
  {
  }

  // ---------------------------------------------------------------------------
  // `build_ignore_patterns`

  /** The entries every default set starts from. */
  const CommonPatterns: set<string> := {
    ".git", ".github", ".vscode", ".idea", "node_modules", "target", "build",
    "dist", "venv", ".venv", "env", ".env", ".DS_Store", "*.log", "*.lock",
    "yarn.lock", "package-lock.json"
  }

  /** The entries the main language adds; C# adds its build folders only outside Godot projects. */
  function LanguagePatterns(mainLanguage: Option<string>, isGodot: bool): set<string> {
    match mainLanguage {
      case None => {}
      case Some(lang) =>
        if lang == "JavaScript" || lang == "TypeScript" then {"node_modules", "*.min.js", "*.bundle.js"}
        else if lang == "Python" then {"__pycache__", "*.pyc", ".pytest_cache"}
        else if lang == "Rust" then {"target", "Cargo.lock"}
        else if lang == "Java" then {"*.class", "bin", "out"}
        else if lang == "Go" then {"vendor", "*.pb.go"}
        else if lang == "C#" && !isGodot then {"bin", "obj", "*.dll"}
        else {}
    }
  }

  /** The Godot folders a Godot project must never exclude. */
  const GodotKeptFolders: set<string> := {".import", "addons"}

  /** The default set: common and language entries, without the Godot folders in a Godot project. */
  function DefaultPatterns(mainLanguage: Option<string>, isGodot: bool): set<string> {
    (CommonPatterns + LanguagePatterns(mainLanguage, isGodot)) - (if isGodot then GodotKeptFolders else {})
  }

  /** `build_ignore_patterns`: the common set, the language's inserts, then the Godot removals. */
  method BuildIgnorePatterns(mainLanguage: Option<string>, isGodot: bool) returns (patterns: set<string>)
    ensures patterns == DefaultPatterns(mainLanguage, isGodot)
  {
    patterns := CommonPatterns;
    if mainLanguage.Some? {
      var lang := mainLanguage.value;
      if lang == "JavaScript" || lang == "TypeScript" {
        patterns := patterns + {"node_modules"};
        patterns := patterns + {"*.min.js"};
        patterns := patterns + {"*.bundle.js"};
      } else if lang == "Python" {
        patterns := patterns + {"__pycache__"};
        patterns := patterns + {"*.pyc"};
        patterns := patterns + {".pytest_cache"};
      } else if lang == "Rust" {
        patterns := patterns + {"target"};
        patterns := patterns + {"Cargo.lock"};
      } else if lang == "Java" {
        patterns := patterns + {"*.class"};
        patterns := patterns + {"bin"};
        patterns := patterns + {"out"};
      } else if lang == "Go" {
        patterns := patterns + {"vendor"};
        patterns := patterns + {"*.pb.go"};
      } else if lang == "C#" {
        if !isGodot {
          patterns := patterns + {"bin"};
          patterns := patterns + {"obj"};
          patterns := patterns + {"*.dll"};
        }
      }
    }
    if isGodot {
      patterns := patterns - {".import"};
      patterns := patterns - {"addons"};
    }
  }

  /** No default entry is a Godot folder, so the Godot removals never take anything out. */
  lemma GodotRemovalsChangeNothing(mainLanguage: Option<string>, isGodot: bool)
    ensures DefaultPatterns(mainLanguage, isGodot) == CommonPatterns + LanguagePatterns(mainLanguage, isGodot)
    ensures CommonPatterns <= DefaultPatterns(mainLanguage, isGodot)
  {
    var added := CommonPatterns + LanguagePatterns(mainLanguage, isGodot);
    assert ".import" !in added && "addons" !in added;
  }

  /** In a C# project `bin`, `obj` and `*.dll` are excluded exactly when it is not a Godot project. */
  lemma CSharpBuildFoldersOutsideGodot(isGodot: bool)
    ensures "bin" in DefaultPatterns(Some("C#"), isGodot) <==> !isGodot
    ensures "obj" in DefaultPatterns(Some("C#"), isGodot) <==> !isGodot
    ensures "*.dll" in DefaultPatterns(Some("C#"), isGodot) <==> !isGodot
  {
    GodotRemovalsChangeNothing(Some("C#"), isGodot);
  }

  /** A pattern the matchers read as written: non-blank, trimmed, neither a comment nor a negation. */
  predicate IsCleanPattern(p: string) {
    p != [] && IsTrimmed(p) && p[0] != '#' && p[0] != '!'
  }

  lemma CommonPatternsAreClean()
    ensures forall p | p in CommonPatterns :: IsCleanPattern(p)
  {
  }

  lemma LanguagePatternsAreClean(mainLanguage: Option<string>, isGodot: bool)
    ensures forall p | p in LanguagePatterns(mainLanguage, isGodot) :: IsCleanPattern(p)
  {
  }

  /** Every default entry is a pattern the matchers read as written. */
  lemma DefaultPatternsAreClean(mainLanguage: Option<string>, isGodot: bool, p: string)
    requires p in DefaultPatterns(mainLanguage, isGodot)
    ensures IsCleanPattern(p)
  {
    CommonPatternsAreClean();
    LanguagePatternsAreClean(mainLanguage, isGodot);
  }

  // ---------------------------------------------------------------------------
  // Choosing the set

  /** The binary's own `check_for_digestignore`: the same checks and the same parse as the library's. */
  method CheckForDigestignore(file: IgnoreFile.FileState) returns (r: Result<set<string>, IgnoreFile.LoadError>)
    ensures file.Text? <==> r.Success?
    ensures file.Text? ==> r.value == IgnoreFile.PatternsOf(file.content)
    ensures file == IgnoreFile.Missing ==> r == Failure(IgnoreFile.NotFound(".digestignore"))
    ensures file == IgnoreFile.Unreadable ==> r == Failure(IgnoreFile.ReadFailed(".digestignore"))
  {
    r := IgnoreFile.LoadIgnoreFile(".digestignore", file);
  }

  /**
   * `check_for_digestignore(..).unwrap_or_else(|_| build_ignore_patterns(..))`:
   * the `.digestignore` set when the file can be read, the default set otherwise.
   */
  method SelectIgnorePatterns(file: IgnoreFile.FileState, mainLanguage: Option<string>, isGodot: bool)
    returns (patterns: set<string>)
    ensures file.Text? ==> patterns == IgnoreFile.PatternsOf(file.content)
    ensures !file.Text? ==> patterns == DefaultPatterns(mainLanguage, isGodot)
  {
    var loaded := CheckForDigestignore(file);
    if loaded.Success? {
      patterns := loaded.value;
    } else {
      patterns := BuildIgnorePatterns(mainLanguage, isGodot);
    }
  }

  /** The set selected by either route holds `.git`, so the binary always excludes `.git` paths. */
  lemma SelectedPatternsIgnoreGit(file: IgnoreFile.FileState, mainLanguage: Option<string>, isGodot: bool,
                                  patterns: set<string>, rawPath: string)
    requires file.Text? ==> patterns == IgnoreFile.PatternsOf(file.content)
    requires !file.Text? ==> patterns == DefaultPatterns(mainLanguage, isGodot)
    ensures ".git" in patterns
    ensures Matcher.IsGitPath(ReplaceBackslashes(rawPath)) ==> BinaryMatcher.IsIgnored(rawPath, patterns)
  {
    if Matcher.IsGitPath(ReplaceBackslashes(rawPath)) {
      assert BinaryMatcher.Matches(ReplaceBackslashes(rawPath), ".git");
    }
  }
}
