# fossil, modelled in Dafny

fossil scans a source tree for technical-debt markers. These are comments
such as `// TODO: …`, `# FIXME …` or `<!-- HACK -->`. For each marker it
records the line, a few lines of context before and after, and later the
git blame of that line. The markers are then aggregated into a report,
ranked by age and filtered by age, author or type.

This project models the three parts of fossil that hold logic:

- **The scanner** (`src/scanner.rs`).
  - `scan_file` is a single-pass state machine over the lines of a file. It keeps a rolling buffer of previous lines, at most one marker that is still collecting trailing context, and the output list.
  - `build_marker_regex` is the marker rule. It is written as an explicit matcher with the regex engine's leftmost-first preference.
  - `scan_directory` decides, per walk entry, what to skip.
  - `is_likely_binary` checks a fixed list of extensions.
- **The records and the report** (`src/models.rs`). It covers `age_display`, `DebtReport::new` with its three counting maps, `oldest_markers` (a stable sort by age, then a prefix) and the default configuration.
- **The filters** (`src/filters.rs`). It covers `parse_duration` and the filters by age, by author and by type.

Files:

- `wrappers.dfy`: `Option` and `Result`.
- `text.dfy`: the string primitives the source gets from Rust's standard library (ASCII whitespace, `trim`, `to_lowercase`, `contains`, `u64` parsing, decimal printing).
- `seqs.dfy`: `filter().collect()`, `take`, and counting into a map.
- `models.dfy`: the records, the report and the ranking.
- `pattern.dfy`: the marker rule.
- `scan_spec.dfy`: a declarative description of what `scan_file` emits.
- `scanner.dfy`: the scan loop, proved to produce that description, plus the directory walk and the binary check.
- `filters.dfy`: the duration parser and the filters.
- `scan_examples.dfy`, `filter_examples.dfy` and `model_examples.dfy`: the scenarios of the repository's unit tests, stated as lemmas.

### How the scan is specified

`ScanSpec.Markers` states the scan's output without a loop:

- A matching line `i` gets a marker built by `MarkerAt`.
  - Its leading context is the last `keep` decodable lines between the previous match and `i`.
  - Its trailing context is the first `window` decodable lines after `i`.
- The marker is emitted when the line `Survives`: no later match arrives before its window is full.

`Scanner.ScanLines` is the loop of `scan_file`. It keeps the same three pieces of state as the Rust code: the buffer, the pending marker and the output. Its postcondition says it returns exactly `Markers`. The lemmas in `scan_spec.dfy` then state the properties the source promises about that output.

## Model

| member | source | states |
|---|---|---|
| MarkerPattern.Alternatives | src/scanner.rs:60 | joining the tokens gives the alternatives of group 1; an empty token list gives the single empty alternative |
| MarkerPattern.OpenerAt | src/scanner.rs:65 | it reports one of the five comment openers that is present at the position, the first in the regex's order; it reports none only when no opener is present |
| MarkerPattern.OpenerUnique | src/scanner.rs:65 | at most one opener fits at a position, and it is the one found there |
| MarkerPattern.FirstTokenAtSound | src/scanner.rs:64-66 | the alternative search reports an alternative that is present, and reports none only when no alternative is present |
| MarkerPattern.TokenAfterGapSound | src/scanner.rs:64-66 | backtracking over the whitespace after the opener finds a gap after which an alternative is present; it finds none only when no alternative follows any shorter gap |
| MarkerPattern.CaptureSound | src/scanner.rs:64-66 | a reported capture is a real reading of the line: whitespace, an opener, whitespace, then the token |
| MarkerPattern.FitFound | src/scanner.rs:64-66 | when any such reading of the line exists, the matcher reports a capture |
| MarkerPattern.MatchLine | src/scanner.rs:106-107 | the captured marker type is one of the alternatives |
| MarkerPattern.MatchLineIff | src/scanner.rs:64-66 | a line matches if and only if it reads as optional whitespace, an opener, optional whitespace and a configured token |
| MarkerPattern.FirstTokenIsEarliest | src/scanner.rs:65 | the captured token is the first alternative in list order that fits; no earlier alternative fits |
| MarkerPattern.TokenAfterGapIsLongest | src/scanner.rs:65 | the greedy whitespace after the opener gives back only as much as needed; no alternative fits after a longer gap |
| MarkerPattern.CaptureLongestGap | src/scanner.rs:64-66 | leftmost-first capture: no alternative fits after a longer whitespace gap than the reported one |
| MarkerPattern.CaptureEarliestToken | src/scanner.rs:64-66 | leftmost-first capture: at the reported gap, no alternative listed before the reported token fits |
| MarkerPattern.FitForcesIndent | src/scanner.rs:65 | any reading of a line uses the whole leading whitespace run as its indent |
| MarkerPattern.MatchLineIs | src/scanner.rs:64-66 | the capture assembled from indent, opener, longest gap and first alternative is what the matcher returns |
| MarkerPattern.NoOpener | src/scanner.rs:65 | a line whose first non-blank character cannot start an opener never matches |
| MarkerPattern.FirstTokenAtShift | src/scanner.rs:65 | which alternative fits at a position depends only on the text from there on |
| MarkerPattern.CommentLine | src/scanner.rs:64-66 | any line made of whitespace, an opener, whitespace and text that begins with a token matches and captures that token |
| MarkerPattern.RegexExampleSlashes | src/scanner.rs:169 | "// TODO: fix this" matches as TODO |
| MarkerPattern.RegexExampleHash | src/scanner.rs:170 | "# FIXME: broken" matches as FIXME |
| MarkerPattern.RegexExampleBlock | src/scanner.rs:171 | "/* TODO something */" matches as TODO |
| MarkerPattern.RegexExampleStar | src/scanner.rs:172 | "  * FIXME: stuff" matches as FIXME |
| MarkerPattern.RegexExampleProse | src/scanner.rs:173 | "This is a TODO in prose" does not match |
| MarkerPattern.RegexExampleNoBoundary | src/scanner.rs:65 | no word boundary follows the token, so "// TODOS" matches as TODO |
| ScanSpec.Decoded | src/scanner.rs:81-85 | the decodable lines of a range number at most the lines of the range |
| ScanSpec.LastN | src/scanner.rs:100-103 | a window of n keeps exactly min(n, available) lines |
| ScanSpec.FirstN | src/scanner.rs:90-93 | a trailing window of n gets exactly min(n, available) lines |
| ScanSpec.PrevMatch | src/scanner.rs:133-134 | the last matching line before i: it matches, and nothing between it and i matches |
| ScanSpec.NextMatch | src/scanner.rs:89-97 | the first matching line at or after i: it matches, and nothing before it matches |
| ScanSpec.DecodedSplit | src/scanner.rs:81-85 | the decodable lines of two adjacent ranges concatenate |
| ScanSpec.EmittedMembers | src/scanner.rs:89-141 | up to any line, the emitted markers are exactly those of the surviving matches so far |
| ScanSpec.EmittedOrdered | src/scanner.rs:81-87 | up to any line, the emitted markers have strictly increasing line numbers |
| ScanSpec.MarkersAreSurvivors | src/scanner.rs:89-141 | a marker is emitted if and only if its line matches and survives |
| ScanSpec.MarkersOrdered | src/scanner.rs:81-87 | markers come out in strictly increasing line order; line numbers are 1-based and count undecodable lines |
| ScanSpec.MarkerFields | src/scanner.rs:106-124 | every marker has the captured type, the file path, its own line as content, a 1-based line number, and no blame |
| ScanSpec.ContextAfterShape | src/scanner.rs:90-93 | the trailing context holds at most `window` lines: the first decodable lines after the match, in order, or all of them when the file ends first |
| ScanSpec.ContextAfterBeforeNextMatch | src/scanner.rs:89-97 | an emitted marker's trailing context lies wholly before the next match |
| ScanSpec.ContextBeforeShape | src/scanner.rs:99-114 | the leading context holds at most `keep` lines: the last decodable lines before the match that follow the previous match, in order |
| ScanSpec.ZeroWindow | src/scanner.rs:127-131 | with a zero window every match is emitted, with empty trailing context |
| ScanSpec.OverlappedMarkerDropped | src/scanner.rs:89-128 | a match followed by another match within fewer than `window` decodable lines is never emitted |
| ScanSpec.SurvivorEmitted | src/scanner.rs:138-141 | a surviving match is emitted, and it is the only marker with its line number |
| ScanSpec.RollingWindow | src/scanner.rs:100-103 | appending the new line and dropping the oldest above capacity keeps the last `capacity` lines |
| ScanSpec.WindowWithoutNewest | src/scanner.rs:110-114 | the buffer minus its newest line is the last capacity−1 earlier lines |
| ScanSpec.WindowFilled | src/scanner.rs:90-96 | a pending marker whose window is full is emitted at the next decodable line, with the lines it collected |
| ScanSpec.WindowCutShort | src/scanner.rs:127-128 | a pending marker replaced by a new match before its window fills is not emitted |
| ScanSpec.ReadOneLine | src/scanner.rs:81-87 | reading a non-matching line moves the leading window on by that line and emits nothing |
| ScanSpec.EndOfFile | src/scanner.rs:138-141 | at end of file a pending marker is emitted with the partial trailing context it has |
| Scanner.TakeTrailingLine | src/scanner.rs:89-97 | a pending marker takes the line while it is owed lines, and is emitted once its window is full |
| Scanner.NewMarker | src/scanner.rs:106-124 | the new marker is `MarkerAt` for the line, with empty trailing context |
| Scanner.StartMarker | src/scanner.rs:126-135 | the marker starts collecting (or is emitted at once with a zero window), any earlier pending marker is dropped, and the buffer restarts empty |
| Scanner.NoMatchStep | src/scanner.rs:105-106 | a non-matching line only moves the buffer on |
| Scanner.SkipUndecodable | src/scanner.rs:82-85 | an undecodable line changes nothing but the line count |
| Scanner.PushLine | src/scanner.rs:99-103 | the buffer stays the last `capacity` lines seen |
| Scanner.ScanLine | src/scanner.rs:81-135 | one loop iteration keeps the scan invariant |
| Scanner.ScanLines | src/scanner.rs:77-143 | the loop returns exactly `ScanSpec.Markers` for the file, with `keep` one less than the buffer capacity |
| Scanner.ScanFile | src/scanner.rs:73-144 | as written: a file that cannot be opened is an error; otherwise the markers, with up to context_lines−1 lines of leading context |
| Scanner.ScanFileIntended | src/scanner.rs:99-114 | corrected: the same, with up to context_lines lines of leading context |
| Scanner.ScanDirectory | src/scanner.rs:13-56 | the walk's markers, each file scanned by `scan_file` as written, file after file, skipping walk errors, ignored names, directories, oversized files and files that fail to open |
| Scanner.DirectoryAppend | src/scanner.rs:31-53 | the markers of a walk are the markers of its parts, concatenated in order |
| Scanner.ItemBlock | src/scanner.rs:50-52 | each item's markers form one contiguous block, in walk order |
| Scanner.SkippedItem | src/scanner.rs:25-47 | a walk error, an ignored name, a directory, a file over 10 MiB or an unopenable file contributes nothing, and nothing else is lost |
| Scanner.ScannedItem | src/scanner.rs:42-52 | an eligible file is scanned, including one of exactly 10 MiB or of unreadable size, and all its markers are in the result |
| Scanner.DirectoryMarkerOrigin | src/scanner.rs:31-53 | every marker of the result is a marker of some eligible file of the walk |
| Scanner.FileNameSpec | src/scanner.rs:148 | the file name is the longest suffix of the path without a '/' |
| Scanner.LastDotSpec | src/scanner.rs:148 | the last '.' found has no '.' after it; none is found only when there is no '.' |
| Scanner.ExtensionIff | src/scanner.rs:148 | a name has extension e exactly when it is a non-empty stem, '.', and e without '.' |
| Scanner.IsLikelyBinaryIff | src/scanner.rs:147-156 | a path is likely binary exactly when its file name is a non-empty stem, '.', and an extension that lower-cases to one in the list |
| Scanner.BinaryNameByExtension | src/scanner.rs:148-152 | apart from "..", that is the same as the name's extension lower-casing to one in the list |
| Scanner.FileNameAfterSlash | src/scanner.rs:148 | the file name of a directory plus a name without '/' is that name |
| Scanner.BinaryPath | src/scanner.rs:147-156 | for a path ending in stem.e, the answer is whether e lower-cases to one in the list |
| Scanner.HiddenFileName | src/scanner.rs:148 | a name whose only '.' is its first character has no extension |
| ScanExamples.PlainLine | src/scanner.rs:65 | a line starting with a non-blank character that cannot open a comment does not match |
| ScanExamples.OnlyMatch | src/scanner.rs:89-141 | a file with exactly one match yields exactly that match's marker |
| ScanExamples.ContextFileLines | src/scanner.rs:208-217 | in the context test file only "// TODO: fix" matches |
| ScanExamples.ContextFileMarkers | src/scanner.rs:204-228 | the context test file yields one TODO marker at line 3 with trailing context "line 4", "line 5" |
| ScanExamples.ContextBeforeAsWritten | src/scanner.rs:100-114 | as written, with context_lines 2 that marker gets only "line 2" before it |
| ScanExamples.ContextBeforeIntended | src/scanner.rs:221-227 | corrected, it gets "line 1", "line 2", as the test expects |
| ScanExamples.TwoMatches | src/scanner.rs:89-141 | two matches far enough apart both come out, in line order |
| ScanExamples.SourceFileScan | src/scanner.rs:177-200 | the test source file yields exactly two markers: TODO at line 3 and FIXME at line 5 |
| ScanExamples.AdjacentMarkersDropFirst | src/scanner.rs:89-131 | a TODO line directly followed by a FIXME line, with window 1: only the FIXME marker comes out |
| ScanExamples.BinaryImage | src/scanner.rs:232 | "image.png" is likely binary |
| ScanExamples.BinaryDocument | src/scanner.rs:233 | "document.pdf" is likely binary |
| ScanExamples.SourceCode | src/scanner.rs:234 | "code.rs" is not |
| ScanExamples.Script | src/scanner.rs:235 | "script.py" is not |
| ScanExamples.UpperCaseExtension | src/scanner.rs:150 | the extension is lower-cased first: "assets/Logo.PNG" is binary |
| ScanExamples.LastExtensionCounts | src/scanner.rs:148 | only the last extension counts: "archive.tar.gz" is binary |
| ScanExamples.LastExtensionOnly | src/scanner.rs:148 | "notes.png.txt" is not binary |
| ScanExamples.HiddenFile | src/scanner.rs:148 | ".png" has no extension and is not binary |
| Models.AgeDisplay | src/models.rs:52-60 | the unit letter is d under 30 days, m from 30 to 364, y from 365 on |
| Models.AgeDisplayValue | src/models.rs:52-60 | the number before the unit is the days, the whole 30-day months or the whole 365-day years |
| Models.NewReport | src/models.rs:90-115 | the report keeps the markers unchanged, counts them, and tallies them by type, by file and, for blamed markers only, by author |
| Models.CountOneMore | src/models.rs:97-103 | one more marker increments exactly its type's, its file's and (when blamed) its author's count |
| Models.ReportCountsAddUp | src/models.rs:97-103 | the type and file counts sum to the total; the author counts sum to the number of blamed markers |
| Models.ReportCountsAreOccurrences | src/models.rs:97-99 | a type or path has a count exactly when some marker has it, a type's count is the number of markers of that type and a path's count the number of markers in that file |
| Models.TypeCount | src/models.rs:98 | the number of occurrences of a type equals the number of markers with that type |
| Models.FileCount | src/models.rs:99 | the number of occurrences of a path equals the number of markers in that file |
| Models.InsertByAge | src/models.rs:125-129 | insertion keeps every marker blamed and adds exactly the new marker |
| Models.SortByAge | src/models.rs:125-129 | the sort is a permutation of blamed markers |
| Models.InsertKeepsOrder | src/models.rs:125-129 | inserting into an oldest-first sequence keeps it oldest-first |
| Models.SortByAgeOrdered | src/models.rs:125-129 | the sorted result is oldest-first (non-increasing age) |
| Models.InsertStable | src/models.rs:125-129 | insertion keeps the relative order of markers of each age |
| Models.SortByAgeStable | src/models.rs:125-129 | the sort is stable: the markers of each age keep their original relative order |
| Models.OldestMarkers | src/models.rs:118-132 | only blamed markers, oldest first, min(limit, number blamed) of them, taken from the report, a prefix of the fully sorted list |
| Models.DefaultConfigValues | src/models.rs:155-195 | the default markers include TODO and FIXME, the window is 2, ".git" is ignored, no severities |
| Models.DefaultMarkersUnambiguous | src/models.rs:166-174 | no default token is a prefix of another, so the alternation order cannot change the captured type |
| ModelExamples.AgeInDays | src/models.rs:208-210 | 15 days display as "15d" |
| ModelExamples.AgeInMonths | src/models.rs:212-216 | 60 days display as "2m" |
| ModelExamples.AgeInYears | src/models.rs:218-222 | 400 days display as "1y" |
| ModelExamples.ReportCreation | src/models.rs:235-261 | two unblamed TODO markers in test.rs count 2 for TODO, 2 for test.rs, and no authors |
| Filters.UnitDays | src/filters.rs:64-69 | exactly d, w, m and y are units |
| Filters.ParseDuration | src/filters.rs:52-73 | the empty string is an error; any accepted duration is a whole number of days in seconds that fits in a u64 |
| Filters.TrimUnchanged | src/filters.rs:57 | trimming a string without outer whitespace leaves it unchanged |
| Filters.ParseDurationRoundTrip | src/filters.rs:52-73 | a printed number followed by a unit parses back to number × days-per-unit × 86400 seconds |
| Filters.ParseDurationOverflow | src/filters.rs:64-72 | a number and unit whose seconds exceed the u64 range are an overflow error |
| Filters.ParseDurationNumberTooLarge | src/filters.rs:60-62 | a number past `u64::MAX` is an invalid-number error of kind overflow, even when a non-digit follows it in `num_str` |
| Filters.ParseDurationOfParts | src/filters.rs:57-72 | a trimmed string whose front parses as a u64 and whose last character is a unit is accepted with the product |
| Filters.ParseDurationAccepts | src/filters.rs:57-72 | an accepted string is, once trimmed, a u64 followed by a unit, and its value is their product in seconds |
| Filters.FilterByAge | src/filters.rs:6-22 | an invalid duration string is the duration's error |
| Filters.FilterByAgeSpec | src/filters.rs:6-22 | with a valid duration of d days, the result is exactly the blamed markers at least d days old, each as often as in the input, as a subsequence of the input |
| Filters.FilterByAgeIdempotent | src/filters.rs:12-21 | filtering twice by the same age equals filtering once |
| Filters.FilterByAuthor | src/filters.rs:25-39 | the result is no longer than the input |
| Filters.ByAuthorIff | src/filters.rs:31-36 | the author test holds exactly when the marker is blamed and the lower-cased query occurs in its lower-cased author or e-mail |
| Filters.FilterByAuthorSpec | src/filters.rs:25-39 | the result is exactly the blamed markers whose lower-cased author or e-mail contains the lower-cased query, each as often as in the input, as a subsequence of the input |
| Filters.FilterByAuthorIdempotent | src/filters.rs:28-38 | filtering twice by the same author equals filtering once |
| Filters.FilterByType | src/filters.rs:42-49 | the result is no longer than the input |
| Filters.FilterByTypeSpec | src/filters.rs:42-49 | the result is exactly the markers whose lower-cased type equals the lower-cased query, blamed or not, each as often as in the input, as a subsequence of the input |
| Filters.FilterByTypeIdempotent | src/filters.rs:45-48 | filtering twice by the same type equals filtering once |
| Filters.FilterByTypeIgnoresCase | src/filters.rs:43 | queries that agree ignoring case select the same markers |
| FilterExamples.TestMarker | src/filters.rs:82-98 | the test marker is blamed with the given age and author |
| FilterExamples.DurationDays | src/filters.rs:102 | "1d" is 86400 seconds |
| FilterExamples.DurationWeeks | src/filters.rs:103 | "2w" is 14 × 86400 seconds |
| FilterExamples.DurationMonths | src/filters.rs:104 | "3m" is 90 × 86400 seconds |
| FilterExamples.DurationYears | src/filters.rs:105 | "1y" is 365 × 86400 seconds |
| FilterExamples.DurationNotANumber | src/filters.rs:108 | "invalid" is an invalid-number error |
| FilterExamples.DurationUnknownUnit | src/filters.rs:109 | "10x" is an unknown-unit error |
| FilterExamples.DurationBlank | src/filters.rs:57-58 | a blank string is an error |
| FilterExamples.AgeFilterKeepsOlder | src/filters.rs:114-121 | markers 10, 50 and 100 days old, at least "30d": the 50- and 100-day ones |
| FilterExamples.AgeFilterKeepsNone | src/filters.rs:123-131 | markers 10 and 50 days old, at least "60d": none |
| FilterExamples.AgeFilterNeedsBlame | src/filters.rs:179-184 | an unblamed marker does not pass the age filter |
| FilterExamples.AuthorFilterAlice | src/filters.rs:136-144 | "alice" selects Alice's marker only |
| FilterExamples.AuthorFilterPartial | src/filters.rs:146-153 | "ob" selects Bob's marker only |
| FilterExamples.AuthorFilterNeedsBlame | src/filters.rs:186-187 | an unblamed marker does not pass the author filter |
| FilterExamples.TypeFilterIgnoresCase | src/filters.rs:158-165 | "todo" selects both TODO markers |
| FilterExamples.TypeFilterExact | src/filters.rs:167-174 | "FIXME" selects the FIXME marker only |

## Left out

- The directory walker itself is not modelled. This covers `WalkBuilder`, `.gitignore` handling, `File::open` and `BufReader`. The walk is a sequence of entries: a walk error is `None`, an entry knows whether it is a directory, its size (or none when metadata cannot be read) and its decoded lines (or none when the file cannot be opened).
- An ignored name is checked against every path component below the walk root. The walker's `filter_entry` rejects a directory and so never descends into it, which gives the same set of files. The root itself is never filtered.
- The regex engine is not modelled. The marker rule is a hand-written matcher. Tokens are matched literally, so regex metacharacters in a configured token are not modelled, and a regex that fails to compile cannot occur.
- Lines are taken to hold no '\n', as `BufRead::lines()` yields them. On a string that holds one, the regex's `.` and `$` would reject what `MarkerPattern.MatchLineIff` accepts.
- Whitespace is ASCII whitespace, not Unicode `\s`.
- Lower-casing is ASCII only, not Unicode `to_lowercase`.
- Scanner.FileName: paths are `/`-separated strings. `Path` normalisation (a trailing `/`, `.` components) and non-UTF-8 file names are not modelled.
- Scanner.IsLikelyBinary: it carries no contract of its own. `Scanner.IsLikelyBinaryIff` and `Scanner.BinaryPath` state what it computes.
- `is_likely_binary` is modelled but, as in the source, not called by `scan_directory`.
- Filters.ParseDuration: the source panics instead of erroring on a blank string (`s.len() - 1` underflows after `trim`). The model returns `Blank` there.
- Filters.ParseDuration: the source may wrap or panic when `num * k` or `days * 86400` overflows a `u64`. The model returns `Overflow` there.
- Filters.ParseDuration: a last character outside ASCII makes `split_at` panic in the source. Characters are not bytes here.
- The clock is a parameter. `Utc::now()` in `DebtReport::new` is the `scanTime` argument of `Models.NewReport`. Test markers use commit time 0.
- `git_info` is only read, never computed. `src/git.rs` (git blame, commit lookup, age computation) is not part of this model.
- `src/reporter.rs` (table, Markdown and JSON output), `src/config.rs` (TOML loading), `src/cli.rs`, `src/main.rs` and `src/lib.rs` are not part of this model.
- Models.NewReport: the counts are maps from keys to natural numbers. `usize` overflow of a counter is not modelled.
- Models.OldestMarkers: the sort is specified by a stable insertion sort on values, not the in-place `sort_by` of the source.
- Models.AgeDisplayValue: it is stated for non-negative ages only. A negative age (a commit in the future) is displayed with a minus sign, which `Models.AgeDisplay` covers only through its unit letter.

## Findings

| source | as written | input that shows it | evidently intended | confidence | as-written member | corrected member |
|---|---|---|---|---|---|---|
| src/scanner.rs:100-114 | the rolling buffer holds `context_lines` lines including the current one, so `context_before` gets at most `context_lines − 1` lines | the test file "line 1", "line 2", "// TODO: fix", "line 4", "line 5" with context_lines = 2: the marker's `context_before` is ["line 2"] | up to `context_lines` lines before the marker, ["line 1", "line 2"], as the test at src/scanner.rs:221-225 expects | not executed | Scanner.ScanFile, ScanExamples.ContextBeforeAsWritten | Scanner.ScanFileIntended, ScanExamples.ContextBeforeIntended |
