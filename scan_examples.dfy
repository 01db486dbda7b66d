// The files the tests of src/scanner.rs scan, and what the model of
// `scan_file` gives for them; the extension examples of `is_likely_binary`.
module ScanExamples {

  import opened Wrappers
  import opened Text
  import opened Models
  import opened MarkerPattern
  import opened ScanSpec
  import opened Scanner

  /** A line with no leading whitespace whose first character cannot start
      a comment opener never matches. */
  lemma PlainLine(line: string, tokens: seq<string>)
    requires |line| > 0 && !IsSpace(line[0]) && line[0] !in {'/', '#', '*', '<'}
    ensures MatchLine(line, tokens) == None
  {
    SpaceRunIs(line, 0, 0);
    NoOpener(line, tokens, 0);
  }

  /** With exactly one matching line, that line's marker is the only one,
      and nothing before it is a match. */
  lemma OnlyMatch(s: FileScan, i: nat)
    requires i < |s.lines| && IsMatch(s, i)
    requires forall j :: 0 <= j < |s.lines| && j != i ==> !IsMatch(s, j)
    ensures Markers(s) == [MarkerAt(s, i)]
    ensures PrevMatch(s, i) == -1
  {
    EmittedSkip(s, 0, i);
    assert NextMatch(s, i + 1) == |s.lines|;
    EmittedSkip(s, i + 1, |s.lines|);
  }

  // -----------------------------------------------------------------------
  // The context window test: five lines, a TODO on line 3, window 2.

  function ContextFile(): seq<Option<string>> {
    [Some("line 1"), Some("line 2"), Some("// TODO: fix"), Some("line 4"), Some("line 5")]
  }

  /** How the marker rule for ["TODO"] reads the lines of the file: only
      the comment line matches. */
  lemma ContextFileLines(s: FileScan)
    requires s.lines == ContextFile() && s.pattern == BuildMarkerRegex(["TODO"])
    ensures IsMatch(s, 2) && s.pattern("// TODO: fix") == Some("TODO")
    ensures forall j :: 0 <= j < |s.lines| && j != 2 ==> !IsMatch(s, j)
  {
    ContextTodoLine();
    ContextPlainLines(s);
  }

  lemma ContextPlainLines(s: FileScan)
    requires s.lines == ContextFile() && s.pattern == BuildMarkerRegex(["TODO"])
    ensures forall j :: 0 <= j < |s.lines| && j != 2 ==> !IsMatch(s, j)
  {
    forall j | 0 <= j < |s.lines| && j != 2 ensures !IsMatch(s, j) {
      var line := s.lines[j].value;
      assert s.lines[j].Some? && line[0] == 'l';
      PlainLine(line, ["TODO"]);
    }
  }

  lemma ContextTodoLine()
    ensures MatchLine("// TODO: fix", ["TODO"]) == Some("TODO")
  {
    CommentLine("// TODO: fix", "", "//", " ", "TODO: fix", ["TODO"], "TODO");
  }

  lemma ContextFileDecoded()
    ensures Decoded(ContextFile(), 0, 2) == ["line 1", "line 2"]
    ensures Decoded(ContextFile(), 3, 5) == ["line 4", "line 5"]
  {
    assert Decoded(ContextFile(), 0, 1) == ["line 1"];
    assert Decoded(ContextFile(), 3, 4) == ["line 4"];
  }

  lemma ContextFileMarkers(keep: nat)
    ensures Markers(FileScan("test.rs", ContextFile(), BuildMarkerRegex(["TODO"]), 2, keep))
      == [DebtMarker("TODO", "test.rs", 3, "// TODO: fix",
                     LastN(["line 1", "line 2"], keep), ["line 4", "line 5"], None)]
  {
    var s := FileScan("test.rs", ContextFile(), BuildMarkerRegex(["TODO"]), 2, keep);
    ContextFileLines(s);
    OnlyMatch(s, 2);
    ContextFileDecoded();
  }

  /** As written, the marker of the context test gets only "line 2" before
      it, where the test expects "line 1" and "line 2". */
  lemma ContextBeforeAsWritten()
    ensures var m := Markers(FileScan("test.rs", ContextFile(), BuildMarkerRegex(["TODO"]), 2, BeforeWidth(2)));
      |m| == 1 && m[0].contextBefore == ["line 2"] && m[0].contextAfter == ["line 4", "line 5"]
  {
    ContextFileMarkers(BeforeWidth(2));
  }

  /** With the corrected buffer the marker gets both lines before it, and
      both after it, as the test expects. */
  lemma ContextBeforeIntended()
    ensures var m := Markers(FileScan("test.rs", ContextFile(), BuildMarkerRegex(["TODO"]), 2, 2));
      |m| == 1 && m[0].markerType == "TODO" && m[0].lineNumber == 3
      && m[0].contextBefore == ["line 1", "line 2"] && m[0].contextAfter == ["line 4", "line 5"]
  {
    ContextFileMarkers(2);
  }

  // -----------------------------------------------------------------------
  // The scan test: a TODO on line 3 and a FIXME on line 5 of a six-line
  // file, window 1.

  function Tokens(): seq<string> {
    ["TODO", "FIXME"]
  }

  function SourceFile(): seq<Option<string>> {
    [Some(""), Some("fn main() {"), Some("    // TODO: implement this"),
     Some("    println!(\"Hello\");"), Some("    // FIXME: broken logic"), Some("}")]
  }

  lemma SourceFileTodo()
    ensures MatchLine("    // TODO: implement this", Tokens()) == Some("TODO")
  {
    CommentLine("    // TODO: implement this", "    ", "//", " ", "TODO: implement this", Tokens(), "TODO");
  }

  lemma SourceFileFixme()
    ensures MatchLine("    // FIXME: broken logic", Tokens()) == Some("FIXME")
  {
    var text := "FIXME: broken logic";
    assert text[0] != "TODO"[0];
    CommentLine("    // FIXME: broken logic", "    ", "//", " ", text, Tokens(), "FIXME");
  }

  lemma SourceFileBlank()
    ensures MatchLine("", Tokens()) == None
  {
    SpaceRunIs("", 0, 0);
  }

  lemma SourceFileMain()
    ensures MatchLine("fn main() {", Tokens()) == None
  {
    PlainLine("fn main() {", Tokens());
  }

  lemma SourceFilePrint()
    ensures MatchLine("    println!(\"Hello\");", Tokens()) == None
  {
    var hello := "    println!(\"Hello\");";
    SpaceRunIs(hello, 0, 4);
    NoOpener(hello, Tokens(), 4);
  }

  lemma SourceFileBrace()
    ensures MatchLine("}", Tokens()) == None
  {
    PlainLine("}", Tokens());
  }

  lemma SourceFileMatches(s: FileScan)
    requires s.lines == SourceFile() && s.pattern == BuildMarkerRegex(Tokens())
    ensures IsMatch(s, 2) && IsMatch(s, 4)
    ensures !IsMatch(s, 0) && !IsMatch(s, 1) && !IsMatch(s, 3) && !IsMatch(s, 5)
    ensures s.pattern(s.lines[2].value) == Some("TODO") && s.pattern(s.lines[4].value) == Some("FIXME")
  {
    SourceFileTodo();
    SourceFileFixme();
    SourceFileBlank();
    SourceFileMain();
    SourceFilePrint();
    SourceFileBrace();
  }

  /** Two matching lines, nothing else matching, and enough decodable lines
      between them for the first to complete its window: both markers are
      emitted, in line order. */
  lemma TwoMatches(s: FileScan, i: nat, k: nat)
    requires i < k < |s.lines| && IsMatch(s, i) && IsMatch(s, k)
    requires forall j :: 0 <= j < |s.lines| && j != i && j != k ==> !IsMatch(s, j)
    requires |Decoded(s.lines, i + 1, k)| >= s.window
    ensures Markers(s) == [MarkerAt(s, i), MarkerAt(s, k)]
  {
    FirstOfTwo(s, i, k);
    NextMatchIs(s, k + 1, |s.lines|);
    EmittedAdds(s, k);
    EmittedSkip(s, k + 1, |s.lines|);
  }

  /** Up to the second match, only the first one's marker is emitted. */
  lemma FirstOfTwo(s: FileScan, i: nat, k: nat)
    requires i < k < |s.lines| && IsMatch(s, i) && IsMatch(s, k)
    requires forall j :: 0 <= j < k && j != i ==> !IsMatch(s, j)
    requires |Decoded(s.lines, i + 1, k)| >= s.window
    ensures Emitted(s, k) == [MarkerAt(s, i)]
  {
    EmittedSkip(s, 0, i);
    NextMatchIs(s, i + 1, k);
    EmittedAdds(s, i);
    EmittedSkip(s, i + 1, k);
  }

  /** The next match from `i` on is `k` when nothing matches in between. */
  lemma {:induction false} NextMatchIs(s: FileScan, i: nat, k: nat)
    requires i <= k <= |s.lines|
    requires forall j :: i <= j < k ==> !IsMatch(s, j)
    requires k < |s.lines| ==> IsMatch(s, k)
    ensures NextMatch(s, i) == k
    decreases k - i
  {
    if i < k {
      NextMatchIs(s, i + 1, k);
    }
  }

  /** A surviving match adds its marker after those of the earlier lines. */
  lemma EmittedAdds(s: FileScan, i: nat)
    requires i < |s.lines| && IsMatch(s, i) && Survives(s, i)
    ensures Emitted(s, i + 1) == Emitted(s, i) + [MarkerAt(s, i)]
  {
  }

  /** Both markers are emitted, in line order, with their types and 1-based
      line numbers (the blank first line counts). */
  lemma SourceFileScan()
    ensures var m := Markers(FileScan("test.rs", SourceFile(), BuildMarkerRegex(Tokens()), 1, BeforeWidth(1)));
      |m| == 2 && m[0].markerType == "TODO" && m[0].lineNumber == 3
      && m[1].markerType == "FIXME" && m[1].lineNumber == 5
  {
    var s := FileScan("test.rs", SourceFile(), BuildMarkerRegex(Tokens()), 1, BeforeWidth(1));
    SourceFileMatches(s);
    forall j | 0 <= j < |s.lines| && j != 2 && j != 4 ensures !IsMatch(s, j) {
      assert j == 0 || j == 1 || j == 3 || j == 5;
    }
    assert Decoded(s.lines, 3, 4) == ["    println!(\"Hello\");"];
    TwoMatches(s, 2, 4);
  }

  // -----------------------------------------------------------------------
  // Two markers on consecutive lines, window 1: the first never gets its
  // trailing line and is dropped.

  lemma AdjacentTodo()
    ensures MatchLine("// TODO a", Tokens()) == Some("TODO")
  {
    CommentLine("// TODO a", "", "//", " ", "TODO a", Tokens(), "TODO");
  }

  lemma AdjacentFixme()
    ensures MatchLine("// FIXME b", Tokens()) == Some("FIXME")
  {
    var text := "FIXME b";
    assert text[0] != "TODO"[0];
    CommentLine("// FIXME b", "", "//", " ", text, Tokens(), "FIXME");
  }

  lemma AdjacentMarkersDropFirst(keep: nat)
    ensures var m := Markers(FileScan("a.rs", [Some("// TODO a"), Some("// FIXME b")], BuildMarkerRegex(Tokens()), 1, keep));
      |m| == 1 && m[0].markerType == "FIXME" && m[0].lineNumber == 2 && m[0].contextBefore == []
  {
    var s := FileScan("a.rs", [Some("// TODO a"), Some("// FIXME b")], BuildMarkerRegex(Tokens()), 1, keep);
    AdjacentTodo();
    AdjacentFixme();
    AdjacentDropFirst(s);
    assert PrevMatch(s, 1) == 0;
    assert Decoded(s.lines, 1, 1) == [];
  }

  /** Of two matches on consecutive lines, with a window of at least one
      line, only the second is emitted. */
  lemma AdjacentDropFirst(s: FileScan)
    requires |s.lines| == 2 && IsMatch(s, 0) && IsMatch(s, 1) && s.window > 0
    ensures Markers(s) == [MarkerAt(s, 1)]
  {
    NextMatchIs(s, 1, 1);
    assert Decoded(s.lines, 1, 1) == [];
    assert Emitted(s, 1) == [];
    NextMatchIs(s, 2, 2);
    EmittedAdds(s, 1);
  }

  // -----------------------------------------------------------------------
  // is_likely_binary

  lemma BinaryImage()
    ensures IsLikelyBinary("image.png")
  {
    BinaryPath("image.png", "", "image", "png");
    assert Lower("png") == "png";
    assert "png" in BinaryExtensions();
  }

  lemma BinaryDocument()
    ensures IsLikelyBinary("document.pdf")
  {
    BinaryPath("document.pdf", "", "document", "pdf");
    assert Lower("pdf") == "pdf";
    assert "pdf" in BinaryExtensions();
  }

  lemma SourceCode()
    ensures !IsLikelyBinary("code.rs")
  {
    BinaryPath("code.rs", "", "code", "rs");
    assert Lower("rs") == "rs";
    assert "rs" !in BinaryExtensions();
  }

  lemma Script()
    ensures !IsLikelyBinary("script.py")
  {
    BinaryPath("script.py", "", "script", "py");
    assert Lower("py") == "py";
    assert "py" !in BinaryExtensions();
  }

  /** The extension is compared case-insensitively. */
  lemma UpperCaseExtension()
    ensures IsLikelyBinary("assets/Logo.PNG")
  {
    BinaryPath("assets/Logo.PNG", "assets/", "Logo", "PNG");
    assert Lower("PNG") == "png";
    assert "png" in BinaryExtensions();
  }

  /** Only the last extension counts. */
  lemma LastExtensionCounts()
    ensures IsLikelyBinary("archive.tar.gz")
  {
    BinaryPath("archive.tar.gz", "", "archive.tar", "gz");
    assert Lower("gz") == "gz";
    assert "gz" in BinaryExtensions();
  }

  lemma LastExtensionOnly()
    ensures !IsLikelyBinary("notes.png.txt")
  {
    BinaryPath("notes.png.txt", "", "notes.png", "txt");
    assert Lower("txt") == "txt";
    assert "txt" !in BinaryExtensions();
  }

  /** A leading '.' does not start an extension. */
  lemma HiddenFile()
    ensures !IsLikelyBinary(".png")
  {
    assert ".png" == "" + ".png";
    FileNameAfterSlash("", ".png");
    assert ".png" == "." + "png";
    HiddenFileName("png");
  }
}
