// src/scanner.rs: the per-file scan loop, the directory walk's per-entry
// decisions and the binary-extension check.
module Scanner {

  import opened Wrappers
  import opened Text
  import opened Models
  import opened MarkerPattern
  import opened ScanSpec

  /** Files larger than this many bytes are not scanned. */
  const MAX_FILE_SIZE: nat := 10 * 1024 * 1024

  /** `build_marker_regex`: the compiled marker rule for the configured
      tokens. */
  function BuildMarkerRegex(tokens: seq<string>): Pattern {
    line => MatchLine(line, tokens)
  }

  /** How many earlier lines end up in `context_before` when the rolling
      buffer holds `capacity` lines, the current one included. */
  function BeforeWidth(capacity: nat): nat {
    if capacity == 0 then 0 else capacity - 1
  }

  /** The state of a marker still collecting trailing context after line
      `last`, when lines[..k] have been read: it has the decodable lines read
      since, is owed the rest of the window, and every marker before it has
      already been settled. */
  predicate Collecting(s: FileScan, k: nat, last: int, markers: seq<DebtMarker>,
                       pending: Option<(DebtMarker, nat)>)
    requires k <= |s.lines|
  {
    pending.Some? ==>
      0 <= last < k && IsMatch(s, last) && s.window > 0
      && |Decoded(s.lines, last + 1, k)| <= s.window
      && pending.value.0 == MarkerAt(s, last).(contextAfter := Decoded(s.lines, last + 1, k))
      && pending.value.1 == s.window - |Decoded(s.lines, last + 1, k)|
      && markers == Emitted(s, last)
  }

  /** What the scan loop knows after reading lines[..k]: `last` is the last
      match so far, the buffer holds the last `capacity` decodable lines
      since it, and the markers settled so far are those `Emitted`. */
  predicate Scanned(s: FileScan, capacity: nat, k: nat, last: int, markers: seq<DebtMarker>,
                    lineBuffer: seq<string>, pending: Option<(DebtMarker, nat)>)
  {
    k <= |s.lines|
    && last == PrevMatch(s, k)
    && lineBuffer == LastN(Decoded(s.lines, last + 1, k), capacity)
    && (pending.None? ==> markers == Emitted(s, k))
    && Collecting(s, k, last, markers, pending)
  }

  /** First step for each decodable line: a marker still collecting trailing
      context takes the line, or is emitted if its window is already full. */
  method TakeTrailingLine(ghost s: FileScan, k: nat, ghost last: int, line: string,
                          markers: seq<DebtMarker>, pending: Option<(DebtMarker, nat)>)
    returns (markers': seq<DebtMarker>, pending': Option<(DebtMarker, nat)>)
    requires k < |s.lines| && s.lines[k] == Some(line) && last == PrevMatch(s, k)
    requires pending.None? ==> markers == Emitted(s, k)
    requires Collecting(s, k, last, markers, pending)
    ensures pending'.None? ==> markers' == Emitted(s, k)
    ensures Collecting(s, k + 1, last, markers', pending')
  {
    markers', pending' := markers, pending;
    if pending.Some? {
      assert Decoded(s.lines, last + 1, k + 1) == Decoded(s.lines, last + 1, k) + [line];
      var (marker, remaining) := pending.value;
      if remaining > 0 {
        pending' := Some((marker.(contextAfter := marker.contextAfter + [line]), remaining - 1));
      } else {
        WindowFilled(s, last, k);
        markers' := markers + [marker];
        pending' := None;
      }
    }
  }

  /** The marker for matching line k: its type, its 1-based line number,
      the line itself, and all but the newest buffered line as leading
      context; trailing context is still to come. */
  method NewMarker(ghost s: FileScan, path: string, ghost capacity: nat, k: nat, ghost last: int,
                   line: string, markerType: string, lineBuffer: seq<string>)
    returns (marker: DebtMarker)
    requires s.path == path && s.keep == BeforeWidth(capacity)
    requires k < |s.lines| && s.lines[k] == Some(line) && s.pattern(line) == Some(markerType)
    requires last == PrevMatch(s, k)
    requires lineBuffer == LastN(Decoded(s.lines, last + 1, k) + [line], capacity)
    ensures IsMatch(s, k) && marker == MarkerAt(s, k).(contextAfter := [])
  {
    WindowWithoutNewest(Decoded(s.lines, last + 1, k), line, capacity);
    var contextBefore := lineBuffer[..if |lineBuffer| > 0 then |lineBuffer| - 1 else 0];
    marker := DebtMarker(markerType, path, k + 1, line, contextBefore, [], None);
  }

  /** Last step for a matching line: build its marker and either start
      collecting its trailing context or, with a zero window, emit it at
      once.  A marker still collecting is dropped. */
  method StartMarker(ghost s: FileScan, path: string, contextLines: nat, ghost capacity: nat,
                     k: nat, ghost last: int, line: string, markerType: string,
                     lineBuffer: seq<string>, markers: seq<DebtMarker>, pending: Option<(DebtMarker, nat)>)
    returns (markers': seq<DebtMarker>, pending': Option<(DebtMarker, nat)>)
    requires s.path == path && s.window == contextLines && s.keep == BeforeWidth(capacity)
    requires k < |s.lines| && s.lines[k] == Some(line) && s.pattern(line) == Some(markerType)
    requires last == PrevMatch(s, k)
    requires lineBuffer == LastN(Decoded(s.lines, last + 1, k) + [line], capacity)
    requires pending.None? ==> markers == Emitted(s, k)
    requires Collecting(s, k + 1, last, markers, pending)
    ensures Scanned(s, capacity, k + 1, k, markers', [], pending')
  {
    var marker := NewMarker(s, path, capacity, k, last, line, markerType, lineBuffer);
    if pending.Some? {
      assert Decoded(s.lines, last + 1, k + 1) == Decoded(s.lines, last + 1, k) + [line];
      WindowCutShort(s, last, k);
    }
    ReadOneLine(s, k);
    assert Decoded(s.lines, k + 1, k + 1) == [];
    if contextLines > 0 {
      markers', pending' := markers, Some((marker, contextLines));
    } else {
      markers', pending' := markers + [marker], None;
    }
  }

  /** A decodable line that does not match only moves the window on. */
  lemma NoMatchStep(s: FileScan, capacity: nat, k: nat, last: int, line: string, markers: seq<DebtMarker>,
                    lineBuffer: seq<string>, pending: Option<(DebtMarker, nat)>)
    requires k < |s.lines| && s.lines[k] == Some(line) && !IsMatch(s, k)
    requires last == PrevMatch(s, k)
    requires lineBuffer == LastN(Decoded(s.lines, last + 1, k) + [line], capacity)
    requires pending.None? ==> markers == Emitted(s, k)
    requires Collecting(s, k + 1, last, markers, pending)
    ensures Scanned(s, capacity, k + 1, last, markers, lineBuffer, pending)
  {
    ReadOneLine(s, k);
  }

  /** A line that fails to decode changes nothing but the line count. */
  lemma SkipUndecodable(s: FileScan, capacity: nat, k: nat, last: int, markers: seq<DebtMarker>,
                        lineBuffer: seq<string>, pending: Option<(DebtMarker, nat)>)
    requires k < |s.lines| && s.lines[k].None?
    requires Scanned(s, capacity, k, last, markers, lineBuffer, pending)
    ensures Scanned(s, capacity, k + 1, last, markers, lineBuffer, pending)
  {
    ReadOneLine(s, k);
  }

  /** The rolling buffer of previous lines: append the new line, then drop
      the oldest one when the buffer holds more than `capacity` lines. */
  method PushLine(ghost seen: seq<string>, lineBuffer: seq<string>, line: string, capacity: nat)
    returns (lineBuffer': seq<string>)
    requires lineBuffer == LastN(seen, capacity)
    ensures lineBuffer' == LastN(seen + [line], capacity)
  {
    RollingWindow(seen, line, capacity);
    lineBuffer' := lineBuffer + [line];
    if |lineBuffer'| > capacity {
      lineBuffer' := lineBuffer'[1..];
    }
  }

  /** One iteration of the scan loop: line k, which decoded as `line`. */
  method ScanLine(ghost s: FileScan, path: string, pattern: Pattern, contextLines: nat, capacity: nat,
                  k: nat, ghost last: int, line: string,
                  markers: seq<DebtMarker>, lineBuffer: seq<string>, pending: Option<(DebtMarker, nat)>)
    returns (markers': seq<DebtMarker>, lineBuffer': seq<string>, pending': Option<(DebtMarker, nat)>,
             ghost last': int)
    requires s.path == path && s.pattern == pattern && s.window == contextLines
    requires s.keep == BeforeWidth(capacity)
    requires k < |s.lines| && s.lines[k] == Some(line)
    requires Scanned(s, capacity, k, last, markers, lineBuffer, pending)
    ensures Scanned(s, capacity, k + 1, last', markers', lineBuffer', pending')
  {
    markers', pending' := TakeTrailingLine(s, k, last, line, markers, pending);
    lineBuffer' := PushLine(Decoded(s.lines, last + 1, k), lineBuffer, line, capacity);
    var captured := pattern(line);
    if captured.Some? {
      markers', pending' :=
        StartMarker(s, path, contextLines, capacity, k, last, line, captured.value, lineBuffer', markers', pending');
      lineBuffer' := [];
      last' := k;
    } else {
      NoMatchStep(s, capacity, k, last, line, markers', lineBuffer', pending');
      last' := last;
    }
  }

  /** The scan loop of `scan_file`, over the lines of an opened file, with a
      rolling buffer of `capacity` lines.  `lines[i]` is None when line i
      failed to decode. */
  method ScanLines(path: string, lines: seq<Option<string>>, pattern: Pattern,
                   contextLines: nat, capacity: nat)
    returns (markers: seq<DebtMarker>)
    ensures markers == Markers(FileScan(path, lines, pattern, contextLines, BeforeWidth(capacity)))
  {
    ghost var s := FileScan(path, lines, pattern, contextLines, BeforeWidth(capacity));
    markers := [];
    var lineBuffer: seq<string> := [];
    var linesAfterMarker: Option<(DebtMarker, nat)> := None;
    // the last matched line so far, or -1
    ghost var last: int := -1;
    var k := 0;
    while k < |lines|
      invariant Scanned(s, capacity, k, last, markers, lineBuffer, linesAfterMarker)
    {
      if lines[k].Some? {
        markers, lineBuffer, linesAfterMarker, last :=
          ScanLine(s, path, pattern, contextLines, capacity, k, last, lines[k].value,
                   markers, lineBuffer, linesAfterMarker);
      } else {
        SkipUndecodable(s, capacity, k, last, markers, lineBuffer, linesAfterMarker);
      }
      k := k + 1;
    }
    if linesAfterMarker.Some? {
      EndOfFile(s, last);
      markers := markers + [linesAfterMarker.value.0];
    }
  }

  // ---------------------------------------------------------------------
  // scan_file

  /** Why a file yields no scan: it could not be opened. */
  datatype ScanError = OpenFailed(path: string)

  /** `scan_file` as written: the rolling buffer holds `context_lines`
      lines, the current one included, so `context_before` gets one line
      fewer than the window.  `contents` is None when the file cannot be
      opened. */
  method ScanFile(path: string, contents: Option<seq<Option<string>>>, pattern: Pattern, contextLines: nat)
    returns (r: Result<seq<DebtMarker>, ScanError>)
    ensures contents.None? ==> r == Err(OpenFailed(path))
    ensures contents.Some? ==>
      r == Ok(Markers(FileScan(path, contents.value, pattern, contextLines, BeforeWidth(contextLines))))
  {
    if contents.None? {
      return Err(OpenFailed(path));
    }
    var markers := ScanLines(path, contents.value, pattern, contextLines, contextLines);
    r := Ok(markers);
  }

  /** `scan_file` with the buffer one line larger, so that `context_before`
      holds up to `context_lines` lines, as the test of the context window
      expects. */
  method ScanFileIntended(path: string, contents: Option<seq<Option<string>>>, pattern: Pattern, contextLines: nat)
    returns (r: Result<seq<DebtMarker>, ScanError>)
    ensures contents.None? ==> r == Err(OpenFailed(path))
    ensures contents.Some? ==>
      r == Ok(Markers(FileScan(path, contents.value, pattern, contextLines, contextLines)))
  {
    if contents.None? {
      return Err(OpenFailed(path));
    }
    var markers := ScanLines(path, contents.value, pattern, contextLines, contextLines + 1);
    r := Ok(markers);
  }

  // ---------------------------------------------------------------------
  // scan_directory

  /** One item produced by the directory walk.  `names` are the bare names
      of the path's components below the walk root, ending with the entry's
      own name; `size` is None when the metadata cannot be read and
      `contents` is None when the file cannot be opened. */
  datatype Entry = Entry(
    path: string,
    names: seq<string>,
    isDir: bool,
    size: Option<nat>,
    contents: Option<seq<Option<string>>>)

  /** The walker's entry filter rejects the entry or one of the directories
      above it: some name equals a configured ignored directory. */
  predicate Ignored(e: Entry, ignoredDirs: seq<string>) {
    exists n :: n in e.names && n in ignoredDirs
  }

  /** Strictly larger than the size ceiling; unreadable metadata is not. */
  predicate TooLarge(e: Entry) {
    e.size.Some? && e.size.value > MAX_FILE_SIZE
  }

  /** What one file contributes, scanned as `scan_file` does with the
      configured tokens and window. */
  function FileMarkers(e: Entry, lines: seq<Option<string>>, config: Config): seq<DebtMarker> {
    Markers(FileScan(e.path, lines, BuildMarkerRegex(config.markers), config.contextLines, BeforeWidth(config.contextLines)))
  }

  /** The markers one walk item adds: none for a walk error, an ignored
      name, a directory, an oversized file or a file that fails to open. */
  function ItemMarkers(item: Option<Entry>, config: Config): seq<DebtMarker> {
    if item.None? then []
    else
      var e := item.value;
      if Ignored(e, config.ignoredDirs) || e.isDir || TooLarge(e) || e.contents.None? then []
      else FileMarkers(e, e.contents.value, config)
  }

  /** The markers of the walk, file after file in walk order. */
  function DirectoryMarkers(walk: seq<Option<Entry>>, config: Config): seq<DebtMarker> {
    if walk == [] then []
    else DirectoryMarkers(walk[..|walk| - 1], config) + ItemMarkers(walk[|walk| - 1], config)
  }

  /** `scan_directory` over the items of the walk. */
  method ScanDirectory(walk: seq<Option<Entry>>, config: Config) returns (markers: seq<DebtMarker>)
    ensures markers == DirectoryMarkers(walk, config)
  {
    var pattern := BuildMarkerRegex(config.markers);
    markers := [];
    var i := 0;
    while i < |walk|
      invariant i <= |walk|
      invariant markers == DirectoryMarkers(walk[..i], config)
    {
      assert walk[..i + 1][..i] == walk[..i];
      var item := walk[i];
      i := i + 1;
      if item.None? {
        continue;
      }
      var entry := item.value;
      // the walker's filter_entry
      if exists n :: n in entry.names && n in config.ignoredDirs {
        continue;
      }
      if entry.isDir {
        continue;
      }
      if entry.size.Some? && entry.size.value > MAX_FILE_SIZE {
        continue;
      }
      var fileMarkers := ScanFile(entry.path, entry.contents, pattern, config.contextLines);
      if fileMarkers.Ok? {
        markers := markers + fileMarkers.value;
      }
    }
    assert walk[..i] == walk;
  }

  /** The walk's markers are the concatenation of its parts' markers. */
  lemma {:induction false} DirectoryAppend(a: seq<Option<Entry>>, b: seq<Option<Entry>>, config: Config)
    ensures DirectoryMarkers(a + b, config) == DirectoryMarkers(a, config) + DirectoryMarkers(b, config)
    decreases |b|
  {
    if b != [] {
      var front, last := b[..|b| - 1], b[|b| - 1];
      assert (a + b)[..|a + b| - 1] == a + front && (a + b)[|a + b| - 1] == last;
      DirectoryAppend(a, front, config);
      var x, y, z := DirectoryMarkers(a, config), DirectoryMarkers(front, config), ItemMarkers(last, config);
      assert DirectoryMarkers(a + b, config) == (x + y) + z;
      assert DirectoryMarkers(b, config) == y + z;
      assert (x + y) + z == x + (y + z);
    } else {
      assert a + b == a;
    }
  }

  /** Each item's markers appear as one block, in walk order. */
  lemma ItemBlock(walk: seq<Option<Entry>>, i: nat, config: Config)
    requires i < |walk|
    ensures DirectoryMarkers(walk, config) ==
      DirectoryMarkers(walk[..i], config) + ItemMarkers(walk[i], config) + DirectoryMarkers(walk[i + 1..], config)
  {
    assert walk == walk[..i] + [walk[i]] + walk[i + 1..];
    DirectoryAppend(walk[..i] + [walk[i]], walk[i + 1..], config);
    DirectoryAppend(walk[..i], [walk[i]], config);
    assert DirectoryMarkers([walk[i]], config) == ItemMarkers(walk[i], config) by {
      assert [walk[i]][..0] == [];
    }
  }

  /** A walk error, an ignored name, a directory, a file over the ceiling
      or a file that cannot be opened is skipped: the result is what the
      walk without that item gives, so nothing else is lost. */
  lemma SkippedItem(walk: seq<Option<Entry>>, i: nat, config: Config)
    requires i < |walk|
    requires walk[i].None? || Ignored(walk[i].value, config.ignoredDirs) || walk[i].value.isDir
      || (walk[i].value.size.Some? && walk[i].value.size.value > MAX_FILE_SIZE) || walk[i].value.contents.None?
    ensures DirectoryMarkers(walk, config) == DirectoryMarkers(walk[..i] + walk[i + 1..], config)
  {
    ItemBlock(walk, i, config);
    DirectoryAppend(walk[..i], walk[i + 1..], config);
  }

  /** A readable file that is not ignored and not over the ceiling (a file of
      exactly 10 MiB included, as is one whose size cannot be read) is
      scanned, and all its markers are in the result. */
  lemma ScannedItem(walk: seq<Option<Entry>>, i: nat, config: Config)
    requires i < |walk| && walk[i].Some?
    requires !Ignored(walk[i].value, config.ignoredDirs) && !walk[i].value.isDir
    requires walk[i].value.size.None? || walk[i].value.size.value <= MAX_FILE_SIZE
    requires walk[i].value.contents.Some?
    ensures forall m :: m in FileMarkers(walk[i].value, walk[i].value.contents.value, config) ==>
      m in DirectoryMarkers(walk, config)
  {
    ItemBlock(walk, i, config);
  }

  /** Every marker of the result comes from a walk item that is a file, is
      not ignored, is within the size ceiling and could be opened, and is
      one of that file's markers. */
  lemma {:induction false} DirectoryMarkerOrigin(walk: seq<Option<Entry>>, config: Config)
    ensures forall m :: m in DirectoryMarkers(walk, config) ==>
      exists i :: (0 <= i < |walk| && walk[i].Some? && !Ignored(walk[i].value, config.ignoredDirs)
        && !walk[i].value.isDir && !TooLarge(walk[i].value) && walk[i].value.contents.Some?
        && m in FileMarkers(walk[i].value, walk[i].value.contents.value, config))
  {
    if walk != [] {
      var front := walk[..|walk| - 1];
      DirectoryMarkerOrigin(front, config);
      forall m | m in DirectoryMarkers(walk, config)
        ensures exists i :: (0 <= i < |walk| && walk[i].Some? && !Ignored(walk[i].value, config.ignoredDirs)
          && !walk[i].value.isDir && !TooLarge(walk[i].value) && walk[i].value.contents.Some?
          && m in FileMarkers(walk[i].value, walk[i].value.contents.value, config))
      {
        if m in DirectoryMarkers(front, config) {
          var i :| 0 <= i < |front| && front[i].Some? && !Ignored(front[i].value, config.ignoredDirs)
            && !front[i].value.isDir && !TooLarge(front[i].value) && front[i].value.contents.Some?
            && m in FileMarkers(front[i].value, front[i].value.contents.value, config);
          assert walk[i] == front[i];
        } else {
          assert m in ItemMarkers(walk[|walk| - 1], config);
        }
      }
    }
  }

  // ---------------------------------------------------------------------
  // is_likely_binary

  /** The extensions treated as binary, lower-case. */
  function BinaryExtensions(): seq<string> {
    ["png", "jpg", "jpeg", "gif", "ico", "pdf", "zip", "tar", "gz", "exe", "dll", "so", "dylib", "bin", "dat"]
  }

  /** The last component of a `/`-separated path. */
  function FileName(path: string): (name: string)
    ensures |name| <= |path|
  {
    if path == [] || path[|path| - 1] == '/' then []
    else FileName(path[..|path| - 1]) + [path[|path| - 1]]
  }

  /** The file name is the longest suffix of the path without a '/'. */
  lemma {:induction false} FileNameSpec(path: string)
    ensures var name := FileName(path);
      name == path[|path| - |name|..] && '/' !in name
      && (|name| < |path| ==> path[|path| - |name| - 1] == '/')
  {
    if path != [] && path[|path| - 1] != '/' {
      var front := path[..|path| - 1];
      FileNameSpec(front);
      assert path[|path| - |FileName(path)|..] == front[|front| - |FileName(front)|..] + [path[|path| - 1]];
    }
  }

  /** Index of the last '.' in `name`, if any. */
  function LastDot(name: string): (r: Option<nat>)
    ensures r.Some? ==> r.value < |name|
  {
    if name == [] then None
    else if name[|name| - 1] == '.' then Some(|name| - 1)
    else LastDot(name[..|name| - 1])
  }

  /** `LastDot` finds a '.' with no '.' after it, and finds none only when
      there is no '.'. */
  lemma {:induction false} LastDotSpec(name: string)
    ensures var r := LastDot(name);
      (r.Some? ==> name[r.value] == '.' && '.' !in name[r.value + 1..])
      && (r.None? ==> '.' !in name)
  {
    if name != [] && name[|name| - 1] != '.' {
      var front := name[..|name| - 1];
      LastDotSpec(front);
      assert name == front + [name[|name| - 1]];
      var r := LastDot(front);
      if r.Some? {
        assert name[r.value + 1..] == front[r.value + 1..] + [name[|name| - 1]];
      }
    }
  }

  /** `Path::extension` of a file name: the text after the last '.', unless
      there is no '.', the only '.' starts the name, or the name is "..". */
  function Extension(name: string): Option<string> {
    if name == ".." then None
    else match LastDot(name)
      case None => None
      case Some(i) => if i == 0 then None else Some(name[i + 1..])
  }

  /** A name has an extension `e` exactly when it is a non-empty stem, a
      '.', and `e` without any further '.'. */
  lemma ExtensionIff(name: string, e: string)
    requires name != ".."
    ensures Extension(name) == Some(e) <==>
      exists stem :: stem != "" && name == stem + "." + e && '.' !in e
  {
    LastDotSpec(name);
    if Extension(name) == Some(e) {
      var i := LastDot(name).value;
      assert name == name[..i] + "." + e;
    }
    if exists stem :: stem != "" && name == stem + "." + e && '.' !in e {
      var stem :| stem != "" && name == stem + "." + e && '.' !in e;
      assert name[|stem|] == '.';
      assert name[|stem| + 1..] == e;
    }
  }

  /** The extension, lower-cased, is one of the binary extensions. */
  predicate IsBinaryExtension(e: string) {
    Lower(e) in BinaryExtensions()
  }

  /** `is_likely_binary`: the file name's extension, lower-cased, is one of
      the binary extensions; a name without an extension is not binary. */
  function IsLikelyBinary(path: string): bool {
    match Extension(FileName(path))
    case None => false
    case Some(e) => IsBinaryExtension(e)
  }

  /** The name is a non-empty stem, a '.', and an extension without '.'
      that lower-cases to one of the binary extensions. */
  ghost predicate BinaryName(name: string) {
    exists stem, e :: stem != "" && name == stem + "." + e && '.' !in e && Lower(e) in BinaryExtensions()
  }

  /** A path is likely binary exactly when its file name is a binary name. */
  lemma IsLikelyBinaryIff(path: string)
    ensures IsLikelyBinary(path) <==> BinaryName(FileName(path))
  {
    var name := FileName(path);
    // ".." has no extension and cannot be split into stem, '.' and a
    // binary extension either
    if name != ".." {
      BinaryNameByExtension(name);
    }
  }

  /** Apart from "..", a name is a binary name exactly when its extension
      lower-cases to a binary extension. */
  lemma BinaryNameByExtension(name: string)
    requires name != ".."
    ensures BinaryName(name) <==> Extension(name).Some? && Lower(Extension(name).value) in BinaryExtensions()
  {
    if BinaryName(name) {
      var stem, e :| stem != "" && name == stem + "." + e && '.' !in e && Lower(e) in BinaryExtensions();
      ExtensionIff(name, e);
    }
    if Extension(name).Some? {
      ExtensionIff(name, Extension(name).value);
    }
  }

  /** The file name is what follows the last '/'. */
  lemma {:induction false} FileNameAfterSlash(dir: string, name: string)
    requires dir == [] || dir[|dir| - 1] == '/'
    requires '/' !in name
    ensures FileName(dir + name) == name
    decreases |name|
  {
    if name != [] {
      var front := name[..|name| - 1];
      assert (dir + name)[..|dir + name| - 1] == dir + front;
      FileNameAfterSlash(dir, front);
      assert name == front + [name[|name| - 1]];
    } else {
      assert dir + name == dir;
    }
  }

  /** A path whose file name is a non-empty stem, a '.', and an extension
      without '.' is likely binary exactly when that extension is a binary
      one. */
  lemma BinaryPath(path: string, dir: string, stem: string, e: string)
    requires path == dir + (stem + "." + e)
    requires dir == [] || dir[|dir| - 1] == '/'
    requires stem != "" && '/' !in stem && '/' !in e && '.' !in e
    ensures IsLikelyBinary(path) == IsBinaryExtension(e)
  {
    var name := stem + "." + e;
    FileNameAfterSlash(dir, name);
    if name != ".." {
      ExtensionIff(name, e);
    }
  }

  /** A name whose only '.' is its first character has no extension. */
  lemma HiddenFileName(e: string)
    requires '.' !in e
    ensures Extension("." + e) == None
  {
    LastDotSpec("." + e);
  }
}
