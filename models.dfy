/** The records of `src/models.rs`: a debt marker, the blame record attached
    to it, the aggregated report and the configuration, with the report's
    counting and ranking operations. */
module Models {

  import opened Wrappers
  import opened Text
  import opened Seqs

  /** `GitBlameInfo`: authorship of one line.  `commitTime` is a Unix
      timestamp in seconds standing for `DateTime<Utc>`; `ageDays` is an
      `i64` and may be negative when the commit lies in the future. */
  datatype GitBlameInfo = GitBlameInfo(
    author: string,
    authorEmail: string,
    commitHash: string,
    commitTime: int,
    ageDays: int)

  /** `DebtMarker`: one annotation found in a file.  `filePath` is the path
      as the walk produced it. */
  datatype DebtMarker = DebtMarker(
    markerType: string,
    filePath: string,
    lineNumber: nat,
    lineContent: string,
    contextBefore: seq<string>,
    contextAfter: seq<string>,
    gitInfo: Option<GitBlameInfo>)

  /** `DebtReport`: the markers with their counts.  `scanTime` stands for the
      clock reading `Utc::now()` taken when the report is built. */
  datatype DebtReport = DebtReport(
    markers: seq<DebtMarker>,
    totalCount: nat,
    byType: map<string, nat>,
    byAuthor: map<string, nat>,
    byFile: map<string, nat>,
    scanPath: string,
    scanTime: int)

  /** `Config`: marker vocabulary, excluded directory names, context window
      and the (unused by the core) severity mapping. */
  datatype Config = Config(
    markers: seq<string>,
    ignoredDirs: seq<string>,
    contextLines: nat,
    severity: map<string, string>)

  // ---------------------------------------------------------------------
  // GitBlameInfo::age_display

  /** "{n}d" under 30 days, "{n/30}m" under 365 days, "{n/365}y" otherwise. */
  function AgeDisplay(info: GitBlameInfo): (r: string)
    ensures |r| >= 2
    ensures r[|r| - 1] == 'd' <==> info.ageDays < 30
    ensures r[|r| - 1] == 'm' <==> 30 <= info.ageDays < 365
    ensures r[|r| - 1] == 'y' <==> 365 <= info.ageDays
  {
    var n := info.ageDays;
    if n < 30 then IntToString(n) + "d"
    else if n < 365 then IntToString(n / 30) + "m"
    else IntToString(n / 365) + "y"
  }

  /** The number in front of the unit letter: the age itself in days, or the
      whole number of 30-day months, or of 365-day years. */
  lemma AgeDisplayValue(info: GitBlameInfo)
    requires info.ageDays >= 0
    ensures var r := AgeDisplay(info);
      var n := info.ageDays;
      AllDigits(r[..|r| - 1]) &&
      DecimalValue(r[..|r| - 1]) == (if n < 30 then n else if n < 365 then n / 30 else n / 365)
  {
    var n := info.ageDays;
    var q: nat := if n < 30 then n else if n < 365 then n / 30 else n / 365;
    var r := AgeDisplay(info);
    assert r[..|r| - 1] == NatToString(q);
    DecimalRoundTrip(q);
  }

  // ---------------------------------------------------------------------
  // DebtReport::new

  predicate HasGitInfo(m: DebtMarker) {
    m.gitInfo.Some?
  }

  /** The marker types, in marker order. */
  function TypesOf(ms: seq<DebtMarker>): (r: seq<string>)
    ensures |r| == |ms|
  {
    seq(|ms|, i requires 0 <= i < |ms| => ms[i].markerType)
  }

  /** The file paths, in marker order. */
  function FilesOf(ms: seq<DebtMarker>): (r: seq<string>)
    ensures |r| == |ms|
  {
    seq(|ms|, i requires 0 <= i < |ms| => ms[i].filePath)
  }

  /** The blame authors of the markers that carry blame, in marker order. */
  function AuthorsOf(ms: seq<DebtMarker>): (r: seq<string>)
    ensures |r| == |Filter(ms, HasGitInfo)|
  {
    var blamed := Filter(ms, HasGitInfo);
    seq(|blamed|, i requires 0 <= i < |blamed| => blamed[i].gitInfo.value.author)
  }

  /** `DebtReport::new`: keep the markers, count them, and tally them by
      type, by file and (when blamed) by author. */
  method NewReport(markers: seq<DebtMarker>, scanPath: string, scanTime: int) returns (report: DebtReport)
    ensures report.markers == markers
    ensures report.totalCount == |markers|
    ensures report.byType == Histogram(TypesOf(markers))
    ensures report.byFile == Histogram(FilesOf(markers))
    ensures report.byAuthor == Histogram(AuthorsOf(markers))
    ensures report.scanPath == scanPath && report.scanTime == scanTime
  {
    var totalCount := |markers|;
    var byType: map<string, nat> := map[];
    var byAuthor: map<string, nat> := map[];
    var byFile: map<string, nat> := map[];
    for i := 0 to |markers|
      invariant byType == Histogram(TypesOf(markers[..i]))
      invariant byFile == Histogram(FilesOf(markers[..i]))
      invariant byAuthor == Histogram(AuthorsOf(markers[..i]))
    {
      var marker := markers[i];
      assert markers[..i + 1] == markers[..i] + [marker];
      CountOneMore(markers[..i], marker);
      byType := Bump(byType, marker.markerType);
      byFile := Bump(byFile, marker.filePath);
      if marker.gitInfo.Some? {
        byAuthor := Bump(byAuthor, marker.gitInfo.value.author);
      }
    }
    assert markers[..|markers|] == markers;
    report := DebtReport(markers, totalCount, byType, byAuthor, byFile, scanPath, scanTime);
  }

  /** One more marker increments its type's, its file's and (when blamed)
      its author's count. */
  lemma CountOneMore(ms: seq<DebtMarker>, m: DebtMarker)
    ensures Histogram(TypesOf(ms + [m])) == Bump(Histogram(TypesOf(ms)), m.markerType)
    ensures Histogram(FilesOf(ms + [m])) == Bump(Histogram(FilesOf(ms)), m.filePath)
    ensures Histogram(AuthorsOf(ms + [m])) ==
      if m.gitInfo.None? then Histogram(AuthorsOf(ms))
      else Bump(Histogram(AuthorsOf(ms)), m.gitInfo.value.author)
  {
    assert TypesOf(ms + [m]) == TypesOf(ms) + [m.markerType];
    assert FilesOf(ms + [m]) == FilesOf(ms) + [m.filePath];
    HistogramSnoc(TypesOf(ms), m.markerType);
    HistogramSnoc(FilesOf(ms), m.filePath);
    AuthorsSnoc(ms, m);
    if m.gitInfo.Some? {
      HistogramSnoc(AuthorsOf(ms), m.gitInfo.value.author);
    }
  }

  lemma AuthorsSnoc(ms: seq<DebtMarker>, m: DebtMarker)
    ensures AuthorsOf(ms + [m]) == AuthorsOf(ms) + (if m.gitInfo.Some? then [m.gitInfo.value.author] else [])
  {
    FilterAppend(ms, [m], HasGitInfo);
    assert Filter([m], HasGitInfo) == if m.gitInfo.Some? then [m] else [];
  }

  /** The per-type and per-file counts add up to the total; the per-author
      counts add up to the number of blamed markers. */
  lemma ReportCountsAddUp(markers: seq<DebtMarker>)
    ensures MapSum(Histogram(TypesOf(markers))) == |markers|
    ensures MapSum(Histogram(FilesOf(markers))) == |markers|
    ensures MapSum(Histogram(AuthorsOf(markers))) == |Filter(markers, HasGitInfo)|
  {
    HistogramTotal(TypesOf(markers));
    HistogramTotal(FilesOf(markers));
    HistogramTotal(AuthorsOf(markers));
  }

  /** by_type[t] is the number of markers of type t, by_file[p] the number
      of markers in file p. */
  lemma ReportCountsAreOccurrences(markers: seq<DebtMarker>, t: string, p: string)
    ensures t in Histogram(TypesOf(markers)) <==> exists i :: 0 <= i < |markers| && markers[i].markerType == t
    ensures p in Histogram(FilesOf(markers)) <==> exists i :: 0 <= i < |markers| && markers[i].filePath == p
    ensures t in Histogram(TypesOf(markers)) ==>
      Histogram(TypesOf(markers))[t] == |Filter(markers, (m: DebtMarker) => m.markerType == t)|
    ensures p in Histogram(FilesOf(markers)) ==>
      Histogram(FilesOf(markers))[p] == |Filter(markers, (m: DebtMarker) => m.filePath == p)|
  {
    var types := TypesOf(markers);
    HistogramSpec(types);
    HistogramSpec(FilesOf(markers));
    if exists i :: 0 <= i < |markers| && markers[i].markerType == t {
      var i :| 0 <= i < |markers| && markers[i].markerType == t;
      assert types[i] == t;
    }
    if exists i :: 0 <= i < |markers| && markers[i].filePath == p {
      var i :| 0 <= i < |markers| && markers[i].filePath == p;
      assert FilesOf(markers)[i] == p;
    }
    TypeCount(markers, t);
    FileCount(markers, p);
  }

  lemma {:induction false} TypeCount(markers: seq<DebtMarker>, t: string)
    ensures multiset(TypesOf(markers))[t] == |Filter(markers, (m: DebtMarker) => m.markerType == t)|
    decreases |markers|
  {
    if markers != [] {
      TypeCount(markers[1..], t);
      assert TypesOf(markers) == [markers[0].markerType] + TypesOf(markers[1..]);
    }
  }

  lemma {:induction false} FileCount(markers: seq<DebtMarker>, p: string)
    ensures multiset(FilesOf(markers))[p] == |Filter(markers, (m: DebtMarker) => m.filePath == p)|
    decreases |markers|
  {
    if markers != [] {
      FileCount(markers[1..], p);
      assert FilesOf(markers) == [markers[0].filePath] + FilesOf(markers[1..]);
    }
  }

  // ---------------------------------------------------------------------
  // DebtReport::oldest_markers

  function Age(m: DebtMarker): int
    requires HasGitInfo(m)
  {
    m.gitInfo.value.ageDays
  }

  predicate AllBlamed(ms: seq<DebtMarker>) {
    forall i :: 0 <= i < |ms| ==> HasGitInfo(ms[i])
  }

  /** Non-increasing age along the sequence: oldest first. */
  predicate OldestFirst(ms: seq<DebtMarker>)
    requires AllBlamed(ms)
  {
    forall i, j :: 0 <= i < j < |ms| ==> Age(ms[i]) >= Age(ms[j])
  }

  /** Blamed markers of age exactly `a`. */
  function AgeIs(a: int): DebtMarker -> bool {
    m => HasGitInfo(m) && Age(m) == a
  }

  /** One step of a stable insertion sort: `x` goes before the first element
      that is not strictly older than it. */
  function InsertByAge(x: DebtMarker, s: seq<DebtMarker>): (r: seq<DebtMarker>)
    requires HasGitInfo(x) && AllBlamed(s)
    ensures AllBlamed(r)
    ensures multiset(r) == multiset{x} + multiset(s)
  {
    if s == [] || Age(s[0]) <= Age(x) then [x] + s
    else
      assert s == [s[0]] + s[1..];
      [s[0]] + InsertByAge(x, s[1..])
  }

  /** `sort_by(|a, b| age_b.cmp(&age_a))`: a stable sort, oldest first. */
  function SortByAge(s: seq<DebtMarker>): (r: seq<DebtMarker>)
    requires AllBlamed(s)
    ensures AllBlamed(r)
    ensures multiset(r) == multiset(s)
  {
    if s == [] then []
    else
      assert s == [s[0]] + s[1..];
      InsertByAge(s[0], SortByAge(s[1..]))
  }

  lemma {:induction false} InsertKeepsOrder(x: DebtMarker, s: seq<DebtMarker>)
    requires HasGitInfo(x) && AllBlamed(s) && OldestFirst(s)
    ensures OldestFirst(InsertByAge(x, s))
  {
    if s != [] && Age(s[0]) > Age(x) {
      InsertKeepsOrder(x, s[1..]);
      var r := InsertByAge(x, s);
      var t := InsertByAge(x, s[1..]);
      assert r == [s[0]] + t;
      forall j | 0 < j < |r| ensures Age(r[0]) >= Age(r[j]) {
        assert r[j] == t[j - 1];
        InsertMember(x, s[1..], t[j - 1]);
      }
    }
  }

  lemma InsertMember(x: DebtMarker, s: seq<DebtMarker>, y: DebtMarker)
    requires HasGitInfo(x) && AllBlamed(s)
    requires y in InsertByAge(x, s)
    ensures y == x || y in s
  {
    assert multiset(InsertByAge(x, s))[y] > 0;
  }

  lemma {:induction false} SortByAgeOrdered(s: seq<DebtMarker>)
    requires AllBlamed(s)
    ensures OldestFirst(SortByAge(s))
  {
    if s != [] {
      SortByAgeOrdered(s[1..]);
      InsertKeepsOrder(s[0], SortByAge(s[1..]));
    }
  }

  lemma {:induction false} InsertStable(x: DebtMarker, s: seq<DebtMarker>, a: int)
    requires HasGitInfo(x) && AllBlamed(s)
    ensures Filter(InsertByAge(x, s), AgeIs(a)) == Filter([x] + s, AgeIs(a))
  {
    if s != [] && Age(s[0]) > Age(x) {
      InsertStable(x, s[1..], a);
      assert ([x] + s)[1..] == s;
      assert ([x] + s[1..])[1..] == s[1..];
      assert ([s[0]] + InsertByAge(x, s[1..]))[1..] == InsertByAge(x, s[1..]);
      assert s == [s[0]] + s[1..];
    }
  }

  /** Stability: among markers of equal age, the sorted order is the original
      order (the markers of each age form the same subsequence before and
      after sorting). */
  lemma {:induction false} SortByAgeStable(s: seq<DebtMarker>, a: int)
    requires AllBlamed(s)
    ensures Filter(SortByAge(s), AgeIs(a)) == Filter(s, AgeIs(a))
  {
    if s != [] {
      SortByAgeStable(s[1..], a);
      InsertStable(s[0], SortByAge(s[1..]), a);
      assert ([s[0]] + SortByAge(s[1..]))[1..] == SortByAge(s[1..]);
      assert s == [s[0]] + s[1..];
    }
  }

  /** `DebtReport::oldest_markers`: the blamed markers, oldest first (ties in
      report order), cut to at most `limit`. */
  function OldestMarkers(report: DebtReport, limit: nat): (r: seq<DebtMarker>)
    ensures AllBlamed(r) && OldestFirst(r)
    ensures |r| == if limit < |Filter(report.markers, HasGitInfo)| then limit else |Filter(report.markers, HasGitInfo)|
    ensures multiset(r) <= multiset(report.markers)
    ensures r == Take(SortByAge(Filter(report.markers, HasGitInfo)), limit)
  {
    var blamed := Filter(report.markers, HasGitInfo);
    var sorted := SortByAge(blamed);
    SortByAgeOrdered(blamed);
    FilterSubMultiset(report.markers, HasGitInfo);
    var r := Take(sorted, limit);
    assert OldestFirst(r) by {
      forall i, j | 0 <= i < j < |r| ensures Age(r[i]) >= Age(r[j]) {
        assert r[i] == sorted[i] && r[j] == sorted[j];
      }
    }
    r
  }

  // ---------------------------------------------------------------------
  // Config::default

  function DefaultMarkers(): seq<string> {
    ["TODO", "FIXME", "HACK", "XXX", "NOTE"]
  }

  function DefaultIgnoredDirs(): seq<string> {
    [".git", "node_modules", "target", "dist", "build", ".venv", "venv",
     "vendor", ".next", "__pycache__", ".pytest_cache", "coverage"]
  }

  function DefaultContextLines(): nat {
    2
  }

  function DefaultConfig(): Config {
    Config(DefaultMarkers(), DefaultIgnoredDirs(), DefaultContextLines(), map[])
  }

  /** The expectations of the default-configuration unit test. */
  lemma DefaultConfigValues()
    ensures "TODO" in DefaultConfig().markers && "FIXME" in DefaultConfig().markers
    ensures DefaultConfig().contextLines == 2
    ensures ".git" in DefaultConfig().ignoredDirs
    ensures DefaultConfig().severity == map[]
  {
    assert DefaultConfig().markers[0] == "TODO";
    assert DefaultConfig().markers[1] == "FIXME";
    assert DefaultConfig().ignoredDirs[0] == ".git";
  }

  /** The default vocabulary is non-empty and no token is a prefix of
      another, so the order of the alternation cannot change which type a
      line is reported with. */
  lemma DefaultMarkersUnambiguous()
    ensures |DefaultMarkers()| > 0
    ensures forall t, u :: t in DefaultMarkers() && u in DefaultMarkers() && t != u ==> !StartsWith(u, t)
  {
    forall t, u | t in DefaultMarkers() && u in DefaultMarkers() && t != u
      ensures !StartsWith(u, t)
    {
      FirstCharDiffers(t, u);
    }
  }

  /** Distinct default tokens already differ in their first character. */
  lemma FirstCharDiffers(t: string, u: string)
    requires t in DefaultMarkers() && u in DefaultMarkers() && t != u
    ensures |t| > 0 && |u| > 0 && t[0] != u[0]
  {
  }
}
