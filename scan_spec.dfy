// What `scan_file` (src/scanner.rs) emits for one file, stated declaratively:
// which matched lines survive as markers, and which lines each marker carries
// as context.  The imperative scanner in scanner.dfy is proved to produce
// exactly `Markers(s)`.
module ScanSpec {

  import opened Wrappers
  import opened Models

  /** A compiled marker rule: the marker type it captures from a line, if
      the line matches. */
  type Pattern = string -> Option<string>

  /** One file as the scanner sees it.  `lines[i]` is None when line i could
      not be decoded as text.  `window` is `context_lines`; `keep` is how many
      lines before a match end up in `context_before` (one less than the
      rolling buffer's capacity). */
  datatype FileScan = FileScan(
    path: string,
    lines: seq<Option<string>>,
    pattern: Pattern,
    window: nat,
    keep: nat)

  /** Line i decodes and the marker rule accepts it. */
  predicate IsMatch(s: FileScan, i: nat)
    requires i < |s.lines|
  {
    s.lines[i].Some? && s.pattern(s.lines[i].value).Some?
  }

  /** The decodable lines among lines[lo..hi], in order. */
  function Decoded(lines: seq<Option<string>>, lo: nat, hi: nat): (d: seq<string>)
    requires lo <= hi <= |lines|
    ensures |d| <= hi - lo
    decreases hi - lo
  {
    if lo == hi then []
    else if lines[hi - 1].Some? then Decoded(lines, lo, hi - 1) + [lines[hi - 1].value]
    else Decoded(lines, lo, hi - 1)
  }

  /** The last `n` elements of `q` (all of them when there are fewer). */
  function LastN(q: seq<string>, n: nat): (r: seq<string>)
    ensures |r| == if n < |q| then n else |q|
  {
    if n < |q| then q[|q| - n..] else q
  }

  /** The first `n` elements of `q` (all of them when there are fewer). */
  function FirstN(q: seq<string>, n: nat): (r: seq<string>)
    ensures |r| == if n < |q| then n else |q|
  {
    if n < |q| then q[..n] else q
  }

  /** The last match strictly before line i, or -1 when there is none. */
  function PrevMatch(s: FileScan, i: nat): (r: int)
    requires i <= |s.lines|
    ensures -1 <= r < i
    ensures r >= 0 ==> IsMatch(s, r)
    ensures forall j :: r < j < i ==> !IsMatch(s, j)
  {
    if i == 0 then -1
    else if IsMatch(s, i - 1) then i - 1
    else PrevMatch(s, i - 1)
  }

  /** The first match at or after line i, or |lines| when there is none. */
  function NextMatch(s: FileScan, i: nat): (r: nat)
    requires i <= |s.lines|
    ensures i <= r <= |s.lines|
    ensures r < |s.lines| ==> IsMatch(s, r)
    ensures forall j :: i <= j < r ==> !IsMatch(s, j)
    decreases |s.lines| - i
  {
    if i == |s.lines| then i
    else if IsMatch(s, i) then i
    else NextMatch(s, i + 1)
  }

  /** The marker built when line i matches, with the context it ends up with
      if it is emitted: `keep` decodable lines before it (none from at or
      before the previous match) and `window` decodable lines after it. */
  function MarkerAt(s: FileScan, i: nat): (m: DebtMarker)
    requires i < |s.lines| && IsMatch(s, i)
  {
    DebtMarker(
      s.pattern(s.lines[i].value).value,
      s.path,
      i + 1,
      s.lines[i].value,
      LastN(Decoded(s.lines, PrevMatch(s, i) + 1, i), s.keep),
      FirstN(Decoded(s.lines, i + 1, |s.lines|), s.window),
      None)
  }

  /** A matched line's marker is emitted unless a later match arrives while
      it is still collecting its `window` lines of trailing context. */
  predicate Survives(s: FileScan, i: nat)
    requires i < |s.lines|
  {
    var next := NextMatch(s, i + 1);
    s.window == 0 || next == |s.lines| || |Decoded(s.lines, i + 1, next)| >= s.window
  }

  /** The markers of the surviving matches among lines[..k], in line order. */
  function Emitted(s: FileScan, k: nat): seq<DebtMarker>
    requires k <= |s.lines|
  {
    if k == 0 then []
    else if IsMatch(s, k - 1) && Survives(s, k - 1) then Emitted(s, k - 1) + [MarkerAt(s, k - 1)]
    else Emitted(s, k - 1)
  }

  /** The markers `scan_file` returns for the file. */
  function Markers(s: FileScan): seq<DebtMarker> {
    Emitted(s, |s.lines|)
  }

  // ---------------------------------------------------------------------
  // Facts about the pieces

  lemma {:induction false} DecodedSplit(lines: seq<Option<string>>, lo: nat, mid: nat, hi: nat)
    requires lo <= mid <= hi <= |lines|
    ensures Decoded(lines, lo, hi) == Decoded(lines, lo, mid) + Decoded(lines, mid, hi)
    decreases hi - mid
  {
    if mid < hi {
      DecodedSplit(lines, lo, mid, hi - 1);
    }
  }

  /** Without matches in lines[lo..hi], nothing is emitted there. */
  lemma {:induction false} EmittedSkip(s: FileScan, lo: nat, hi: nat)
    requires lo <= hi <= |s.lines|
    requires forall j :: lo <= j < hi ==> !IsMatch(s, j)
    ensures Emitted(s, hi) == Emitted(s, lo)
    decreases hi - lo
  {
    if lo < hi {
      EmittedSkip(s, lo, hi - 1);
    }
  }

  /** Every marker in `Emitted(s, k)` comes from a surviving match before k,
      and every surviving match before k contributes its marker. */
  lemma {:induction false} EmittedMembers(s: FileScan, k: nat)
    requires k <= |s.lines|
    ensures forall m :: m in Emitted(s, k) ==>
      exists i :: 0 <= i < k && IsMatch(s, i) && Survives(s, i) && m == MarkerAt(s, i)
    ensures forall i :: 0 <= i < k && IsMatch(s, i) && Survives(s, i) ==> MarkerAt(s, i) in Emitted(s, k)
  {
    if k > 0 {
      EmittedMembers(s, k - 1);
    }
  }

  /** Line numbers in `Emitted(s, k)` increase strictly and stay at most k. */
  lemma {:induction false} EmittedOrdered(s: FileScan, k: nat)
    requires k <= |s.lines|
    ensures forall a :: 0 <= a < |Emitted(s, k)| ==> 1 <= Emitted(s, k)[a].lineNumber <= k
    ensures forall a, b :: 0 <= a < b < |Emitted(s, k)| ==>
      Emitted(s, k)[a].lineNumber < Emitted(s, k)[b].lineNumber
  {
    if k > 0 {
      EmittedOrdered(s, k - 1);
    }
  }

  // ---------------------------------------------------------------------
  // Properties of the emitted markers

  /** A marker is emitted exactly when it belongs to a surviving match. */
  lemma MarkersAreSurvivors(s: FileScan)
    ensures forall m :: m in Markers(s) <==>
      exists i :: 0 <= i < |s.lines| && IsMatch(s, i) && Survives(s, i) && m == MarkerAt(s, i)
  {
    EmittedMembers(s, |s.lines|);
  }

  /** Markers come out in strictly increasing line order, with 1-based line
      numbers that count undecodable lines too. */
  lemma MarkersOrdered(s: FileScan)
    ensures forall a, b :: 0 <= a < b < |Markers(s)| ==> Markers(s)[a].lineNumber < Markers(s)[b].lineNumber
    ensures forall a :: 0 <= a < |Markers(s)| ==> 1 <= Markers(s)[a].lineNumber <= |s.lines|
  {
    EmittedOrdered(s, |s.lines|);
  }

  /** Every emitted marker carries the type the pattern captures from its
      line, repeats the decodable line at its 1-based line number, and has no
      blame information yet. */
  lemma MarkerFields(s: FileScan)
    ensures forall m :: m in Markers(s) ==>
      && Some(m.markerType) == s.pattern(m.lineContent)
      && 1 <= m.lineNumber <= |s.lines|
      && s.lines[m.lineNumber - 1] == Some(m.lineContent)
      && m.filePath == s.path
      && m.gitInfo.None?
  {
    MarkersAreSurvivors(s);
    forall m | m in Markers(s)
      ensures Some(m.markerType) == s.pattern(m.lineContent) && 1 <= m.lineNumber <= |s.lines|
      ensures s.lines[m.lineNumber - 1] == Some(m.lineContent)
    {
      var j :| 0 <= j < |s.lines| && IsMatch(s, j) && Survives(s, j) && m == MarkerAt(s, j);
    }
  }

  /** `context_after` is the first `window` decodable lines after the match,
      in order: fewer only when the file ends first. */
  lemma ContextAfterShape(s: FileScan, i: nat)
    requires i < |s.lines| && IsMatch(s, i)
    ensures var after := MarkerAt(s, i).contextAfter;
      var rest := Decoded(s.lines, i + 1, |s.lines|);
      |after| <= s.window
      && (|after| < s.window ==> after == rest)
      && after == rest[..|after|]
  {
  }

  /** An emitted marker's `context_after` lies entirely before the next
      match: it is a prefix of the decodable lines between the two. */
  lemma {:induction false} ContextAfterBeforeNextMatch(s: FileScan, i: nat)
    requires i < |s.lines| && IsMatch(s, i) && Survives(s, i)
    ensures var after := MarkerAt(s, i).contextAfter;
      var gap := Decoded(s.lines, i + 1, NextMatch(s, i + 1));
      |after| <= |gap| && after == gap[..|after|]
  {
    var next := NextMatch(s, i + 1);
    DecodedSplit(s.lines, i + 1, next, |s.lines|);
  }

  /** `context_before` is the last `keep` decodable lines before the match
      that come after the previous match, in order. */
  lemma ContextBeforeShape(s: FileScan, i: nat)
    requires i < |s.lines| && IsMatch(s, i)
    ensures var before := MarkerAt(s, i).contextBefore;
      var gap := Decoded(s.lines, PrevMatch(s, i) + 1, i);
      |before| <= s.keep
      && (|before| < s.keep ==> before == gap)
      && before == gap[|gap| - |before|..]
  {
  }

  /** With a zero window a marker is emitted at once with empty trailing
      context, and every match survives. */
  lemma ZeroWindow(s: FileScan, i: nat)
    requires s.window == 0
    requires i < |s.lines| && IsMatch(s, i)
    ensures MarkerAt(s, i) in Markers(s)
    ensures MarkerAt(s, i).contextAfter == []
  {
    MarkersAreSurvivors(s);
  }

  /** A match followed by another match with fewer than `window` decodable
      lines in between never reaches the output: no emitted marker carries
      its line number. */
  lemma {:induction false} OverlappedMarkerDropped(s: FileScan, i: nat)
    requires i < |s.lines| && IsMatch(s, i)
    requires NextMatch(s, i + 1) < |s.lines|
    requires |Decoded(s.lines, i + 1, NextMatch(s, i + 1))| < s.window
    ensures forall m :: m in Markers(s) ==> m.lineNumber != i + 1
  {
    MarkersAreSurvivors(s);
    forall m | m in Markers(s) ensures m.lineNumber != i + 1 {
      var j :| 0 <= j < |s.lines| && IsMatch(s, j) && Survives(s, j) && m == MarkerAt(s, j);
      assert j != i;
    }
  }

  /** Conversely, a match that survives is emitted, and only it carries its
      line number. */
  lemma SurvivorEmitted(s: FileScan, i: nat)
    requires i < |s.lines| && IsMatch(s, i) && Survives(s, i)
    ensures MarkerAt(s, i) in Markers(s)
    ensures forall m :: m in Markers(s) && m.lineNumber == i + 1 ==> m == MarkerAt(s, i)
  {
    EmittedMembers(s, |s.lines|);
    forall m | m in Markers(s) && m.lineNumber == i + 1 ensures m == MarkerAt(s, i) {
      var j :| 0 <= j < |s.lines| && IsMatch(s, j) && Survives(s, j) && m == MarkerAt(s, j);
      assert j == i;
    }
  }

  // ---------------------------------------------------------------------
  // Steps of the line-by-line scan (used by Scanner.ScanLines)

  /** Keeping the last `n` lines, one line at a time: append the new line and
      drop the oldest when there are more than `n`. */
  lemma RollingWindow(q: seq<string>, x: string, n: nat)
    ensures var b := LastN(q, n) + [x];
      (if |b| > n then b[1..] else b) == LastN(q + [x], n)
  {
  }

  /** The lines of a rolling window of capacity `cap` other than the newest
      one are the last `cap - 1` lines before it. */
  lemma WindowWithoutNewest(q: seq<string>, x: string, cap: nat)
    ensures var b := LastN(q + [x], cap);
      b[..if |b| > 0 then |b| - 1 else 0] == LastN(q, if cap == 0 then 0 else cap - 1)
  {
  }

  /** A pending marker whose trailing window just filled is emitted when the
      next decodable line arrives, with exactly the lines it collected. */
  lemma {:induction false} WindowFilled(s: FileScan, last: nat, k: nat)
    requires last < k <= |s.lines| && IsMatch(s, last)
    requires forall j :: last < j < k ==> !IsMatch(s, j)
    requires |Decoded(s.lines, last + 1, k)| == s.window > 0
    ensures Survives(s, last)
    ensures MarkerAt(s, last).contextAfter == Decoded(s.lines, last + 1, k)
    ensures Emitted(s, k) == Emitted(s, last) + [MarkerAt(s, last)]
  {
    var next := NextMatch(s, last + 1);
    assert next >= k;
    DecodedSplit(s.lines, last + 1, k, next);
    DecodedSplit(s.lines, last + 1, k, |s.lines|);
    EmittedSkip(s, last + 1, k);
  }

  /** A pending marker still short of its trailing window when the next
      match arrives is never emitted. */
  lemma {:induction false} WindowCutShort(s: FileScan, last: nat, k: nat)
    requires last < k < |s.lines| && IsMatch(s, last) && IsMatch(s, k)
    requires forall j :: last < j < k ==> !IsMatch(s, j)
    requires |Decoded(s.lines, last + 1, k)| < s.window
    ensures !Survives(s, last)
    ensures Emitted(s, k) == Emitted(s, last)
  {
    assert NextMatch(s, last + 1) == k;
    EmittedSkip(s, last + 1, k);
  }

  /** Reading one more line: the last match and the decodable lines since
      it move on by that line. */
  lemma ReadOneLine(s: FileScan, k: nat)
    requires k < |s.lines|
    ensures PrevMatch(s, k + 1) == if IsMatch(s, k) then k else PrevMatch(s, k)
    ensures !IsMatch(s, k) ==> Emitted(s, k + 1) == Emitted(s, k)
    ensures !IsMatch(s, k) ==>
      Decoded(s.lines, PrevMatch(s, k) + 1, k + 1)
      == Decoded(s.lines, PrevMatch(s, k) + 1, k) + (if s.lines[k].Some? then [s.lines[k].value] else [])
  {
  }

  /** At end of file a pending marker is emitted with the lines it has. */
  lemma {:induction false} EndOfFile(s: FileScan, last: nat)
    requires last < |s.lines| && IsMatch(s, last)
    requires forall j :: last < j < |s.lines| ==> !IsMatch(s, j)
    requires |Decoded(s.lines, last + 1, |s.lines|)| <= s.window
    ensures Survives(s, last)
    ensures MarkerAt(s, last).contextAfter == Decoded(s.lines, last + 1, |s.lines|)
    ensures Markers(s) == Emitted(s, last) + [MarkerAt(s, last)]
  {
    EmittedSkip(s, last + 1, |s.lines|);
  }
}
