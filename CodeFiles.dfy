/**
 * `is_common_code_file`, the extension test that both crates use when they
 * pick which files to digest. The library (src/lib.rs) and the binary
 * (src/main.rs) each carry their own copy of the list.
 */
module CodeFiles {

  /** The extensions, without the dot, that the library counts as code. */
  const LibraryCodeExtensions: set<string> := {
    "rs", "js", "ts", "py", "java", "go", "c", "cpp", "h", "hpp",
    "rb", "php", "cs", "html", "css", "json", "md", "yml", "yaml",
    "toml", "gd", "tscn", "tres", "shader"
  }

  /** The binary's copy of the list. */
  const BinaryCodeExtensions: set<string> := {
    "rs", "js", "ts", "py", "java", "go", "c", "cpp", "h", "hpp",
    "rb", "php", "cs", "html", "css", "json", "md", "yml", "yaml",
    "toml", "gd", "tscn", "tres", "shader"
  }

  /** A short lower-case ASCII word: one to six letters `a`..`z`, no dot. */
  predicate IsLowerWord(ext: string) {
    1 <= |ext| <= 6 && forall i :: 0 <= i < |ext| ==> 'a' <= ext[i] <= 'z'
  }

  /**
   * The library's `is_common_code_file`: an exact, case-sensitive match
   * against the list. Every accepted extension is a short lower-case word,
   * so `RS`, `.rs` or `tar.gz` are never accepted.
   */
  function IsCommonCodeFile(ext: string): (r: bool)
    ensures r ==> IsLowerWord(ext)
  {
    ext in LibraryCodeExtensions
  }

  /** The binary's `is_common_code_file`, with the same contract. */
  function BinaryIsCommonCodeFile(ext: string): (r: bool)
    ensures r ==> IsLowerWord(ext)
  {
    ext in BinaryCodeExtensions
  }

  /** The two copies accept exactly the same extensions. */
  lemma CopiesAgree(ext: string)
    ensures IsCommonCodeFile(ext) <==> BinaryIsCommonCodeFile(ext)
  {
  }

  /** The Godot script, scene, resource and shader files count as code. */
  lemma GodotFilesAreCode()
    ensures IsCommonCodeFile("gd") && IsCommonCodeFile("tscn")
    ensures IsCommonCodeFile("tres") && IsCommonCodeFile("shader")
  {
  }

  /** Lock files, logs and upper-case spellings are not code by extension. */
  lemma NonCodeExtensions()
    ensures !IsCommonCodeFile("lock") && !IsCommonCodeFile("log")
    ensures !IsCommonCodeFile("RS") && !IsCommonCodeFile(".rs")
  {
    assert !IsLowerWord("RS") by {
      assert "RS"[0] == 'R';
    }
    assert !IsLowerWord(".rs") by {
      assert ".rs"[0] == '.';
    }
  }
}
