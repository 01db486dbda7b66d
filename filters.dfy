/** `src/filters.rs`: the duration parser behind `--min-age` and the three
    marker filters (by age, by author, by type). */
module Filters {

  import opened Wrappers
  import opened Text
  import opened Seqs
  import opened Models

  const SECONDS_PER_DAY: nat := 24 * 60 * 60

  /** Why a duration string is rejected.  `Blank` and `Overflow` stand for
      inputs on which the Rust code panics (or wraps) instead of returning
      an error. */
  datatype DurationError =
    | EmptyInput
    | Blank
    | InvalidNumber(cause: ParseIntError)
    | InvalidUnit(unit: char)
    | Overflow

  /** Days per unit: d, w, m (30 days) and y (365 days). */
  function UnitDays(unit: char): (r: Option<nat>)
    ensures r.Some? <==> unit in {'d', 'w', 'm', 'y'}
  {
    match unit
    case 'd' => Some(1)
    case 'w' => Some(7)
    case 'm' => Some(30)
    case 'y' => Some(365)
    case _ => None
  }

  /** `parse_duration`: the length of "<u64><unit>" in seconds.  The empty
      string is rejected before trimming; after trimming, the number is
      parsed before the unit is looked at. */
  function ParseDuration(s: string): (r: Result<nat, DurationError>)
    ensures s == [] ==> r == Err(EmptyInput)
    ensures r.Ok? ==> r.value % SECONDS_PER_DAY == 0 && r.value <= U64_MAX
  {
    if s == [] then Err(EmptyInput)
    else
      var t := Trim(s);
      if t == [] then Err(Blank)
      else
        var numStr := t[..|t| - 1];
        var unit := t[|t| - 1];
        match ParseU64(numStr)
        case Err(e) => Err(InvalidNumber(e))
        case Ok(num) =>
          match UnitDays(unit)
          case None => Err(InvalidUnit(unit))
          case Some(k) =>
            var days := num * k;
            if days > U64_MAX || days * SECONDS_PER_DAY > U64_MAX then Err(Overflow)
            else Ok(days * SECONDS_PER_DAY)
  }

  /** Surrounding whitespace is ignored. */
  lemma TrimUnchanged(s: string)
    requires s != [] && !IsSpace(s[0]) && !IsSpace(s[|s| - 1])
    ensures Trim(s) == s
  {
    assert LeadingSpaces(s) == 0;
    assert s[0..] == s;
    assert TrailingSpaces(s) == 0;
  }

  /** Writing a number and a unit and parsing it back gives that many days,
      in seconds. */
  lemma ParseDurationRoundTrip(n: nat, unit: char)
    requires UnitDays(unit).Some?
    requires n * UnitDays(unit).value * SECONDS_PER_DAY <= U64_MAX
    ensures ParseDuration(NatToString(n) + [unit]) == Ok(n * UnitDays(unit).value * SECONDS_PER_DAY)
  {
    var digits := NatToString(n);
    var s := digits + [unit];
    assert s[0] == digits[0];
    assert !IsSpace(s[0]) by { assert IsDigit(digits[0]); }
    TrimUnchanged(s);
    assert s[..|s| - 1] == digits;
    NatToStringParses(n);
    ParseDurationOfParts(s, n);
  }

  /** A number and unit whose length in seconds does not fit in a `u64` are
      rejected (where the Rust code's multiplication overflows). */
  lemma ParseDurationOverflow(n: nat, unit: char)
    requires UnitDays(unit).Some? && n <= U64_MAX
    requires n * UnitDays(unit).value * SECONDS_PER_DAY > U64_MAX
    ensures ParseDuration(NatToString(n) + [unit]) == Err(Overflow)
  {
    var digits := NatToString(n);
    var s := digits + [unit];
    assert s[0] == digits[0];
    assert !IsSpace(s[0]) by { assert IsDigit(digits[0]); }
    TrimUnchanged(s);
    assert s[..|s| - 1] == digits;
    NatToStringParses(n);
  }

  /** A number too large for a `u64` is reported as an overflow of the
      number even when a stray character follows it, since the digits are
      read left to right. */
  lemma ParseDurationNumberTooLarge(n: nat, rest: string, unit: char)
    requires n > U64_MAX && !IsSpace(unit)
    ensures ParseDuration(NatToString(n) + rest + [unit]) == Err(InvalidNumber(PosOverflow))
  {
    var digits := NatToString(n);
    var s := digits + rest + [unit];
    assert s[0] == digits[0];
    assert !IsSpace(s[0]) by { assert IsDigit(digits[0]); }
    TrimUnchanged(s);
    assert s[..|s| - 1] == digits + rest;
    DecimalRoundTrip(n);
    OverflowBeforeJunk(digits, rest);
  }

  /** A trimmed string whose front parses as `num` and whose last character
      is a unit is accepted, if the product fits. */
  lemma ParseDurationOfParts(s: string, num: nat)
    requires s != [] && Trim(s) == s
    requires ParseU64(s[..|s| - 1]) == Ok(num)
    requires UnitDays(s[|s| - 1]).Some?
    requires num * UnitDays(s[|s| - 1]).value * SECONDS_PER_DAY <= U64_MAX
    ensures ParseDuration(s) == Ok(num * UnitDays(s[|s| - 1]).value * SECONDS_PER_DAY)
  {
    var days := num * UnitDays(s[|s| - 1]).value;
    assert days <= days * SECONDS_PER_DAY;
  }

  /** A string is accepted only if, once trimmed, it ends in one of the
      four units after a number that `u64` parsing accepts. */
  lemma ParseDurationAccepts(s: string)
    requires ParseDuration(s).Ok?
    ensures var t := Trim(s);
      t != [] && UnitDays(t[|t| - 1]).Some? && ParseU64(t[..|t| - 1]).Ok?
      && ParseDuration(s).value == ParseU64(t[..|t| - 1]).value * UnitDays(t[|t| - 1]).value * SECONDS_PER_DAY
  {
  }

  // ---------------------------------------------------------------------
  // filter_by_age

  /** The marker has blame information and is at least `minDays` old. */
  predicate OldEnough(m: DebtMarker, minDays: nat) {
    m.gitInfo.Some? && m.gitInfo.value.ageDays >= minDays
  }

  /** The age test as a filter predicate. */
  function AgeAtLeast(minDays: nat): DebtMarker -> bool {
    m => OldEnough(m, minDays)
  }

  /** `filter_by_age`: keep the markers at least as old as the duration, in
      whole days; an invalid duration is an error. */
  function FilterByAge(markers: seq<DebtMarker>, minAge: string): (r: Result<seq<DebtMarker>, DurationError>)
    ensures ParseDuration(minAge).Err? ==> r == Err(ParseDuration(minAge).error)
  {
    match ParseDuration(minAge)
    case Err(e) => Err(e)
    case Ok(secs) => Ok(Filter(markers, AgeAtLeast(secs / SECONDS_PER_DAY)))
  }

  /** With a valid duration of `d` days, the result is the markers that have
      blame information and are at least `d` days old, each kept as often as
      it occurs, in the original order. */
  lemma FilterByAgeSpec(markers: seq<DebtMarker>, minAge: string)
    requires ParseDuration(minAge).Ok?
    ensures var days := ParseDuration(minAge).value / SECONDS_PER_DAY;
      var r := FilterByAge(markers, minAge);
      r.Ok?
      && (forall m :: m in r.value <==> m in markers && m.gitInfo.Some? && m.gitInfo.value.ageDays >= days)
      && (forall m :: multiset(r.value)[m] == (if OldEnough(m, days) then multiset(markers)[m] else 0))
      && IsSubsequence(r.value, markers)
  {
    var days := ParseDuration(minAge).value / SECONDS_PER_DAY;
    FilterSpec(markers, AgeAtLeast(days));
  }

  /** Filtering the result again by the same age changes nothing. */
  lemma FilterByAgeIdempotent(markers: seq<DebtMarker>, minAge: string)
    requires FilterByAge(markers, minAge).Ok?
    ensures FilterByAge(FilterByAge(markers, minAge).value, minAge) == FilterByAge(markers, minAge)
  {
    var days := ParseDuration(minAge).value / SECONDS_PER_DAY;
    FilterIdempotent(markers, AgeAtLeast(days));
  }

  // ---------------------------------------------------------------------
  // filter_by_author

  /** The marker has blame information whose author name or e-mail, lower-
      cased, contains the lower-cased query. */
  predicate ByAuthor(m: DebtMarker, author: string) {
    m.gitInfo.Some?
    && (Contains(Lower(m.gitInfo.value.author), Lower(author))
        || Contains(Lower(m.gitInfo.value.authorEmail), Lower(author)))
  }

  /** The author test as a filter predicate. */
  function AuthorMatch(author: string): DebtMarker -> bool {
    m => ByAuthor(m, author)
  }

  /** `filter_by_author`. */
  function FilterByAuthor(markers: seq<DebtMarker>, author: string): (r: seq<DebtMarker>)
    ensures |r| <= |markers|
  {
    Filter(markers, AuthorMatch(author))
  }

  /** The query occurs, ignoring case, inside the author name or the
      e-mail of the marker's blame information. */
  ghost predicate AuthorMentions(m: DebtMarker, author: string) {
    m.gitInfo.Some?
    && ((exists i :: OccursAt(Lower(m.gitInfo.value.author), Lower(author), i))
        || (exists i :: OccursAt(Lower(m.gitInfo.value.authorEmail), Lower(author), i)))
  }

  /** The substring search of the filter finds exactly those occurrences. */
  lemma ByAuthorIff(m: DebtMarker, author: string)
    ensures ByAuthor(m, author) <==> AuthorMentions(m, author)
  {
    if m.gitInfo.Some? {
      ContainsIff(Lower(m.gitInfo.value.author), Lower(author));
      ContainsIff(Lower(m.gitInfo.value.authorEmail), Lower(author));
    }
  }

  /** The result is the markers with blame information whose author or
      e-mail, lower-cased, has the lower-cased query somewhere inside it,
      each as often as in the input, in the original order. */
  lemma FilterByAuthorSpec(markers: seq<DebtMarker>, author: string)
    ensures forall m :: m in FilterByAuthor(markers, author) <==> m in markers && AuthorMentions(m, author)
    ensures forall m ::
      multiset(FilterByAuthor(markers, author))[m] == (if AuthorMentions(m, author) then multiset(markers)[m] else 0)
    ensures IsSubsequence(FilterByAuthor(markers, author), markers)
  {
    FilterSpec(markers, AuthorMatch(author));
    forall m: DebtMarker ensures ByAuthor(m, author) <==> AuthorMentions(m, author) {
      ByAuthorIff(m, author);
    }
  }

  /** Filtering the result again by the same author changes nothing. */
  lemma FilterByAuthorIdempotent(markers: seq<DebtMarker>, author: string)
    ensures FilterByAuthor(FilterByAuthor(markers, author), author) == FilterByAuthor(markers, author)
  {
    FilterIdempotent(markers, AuthorMatch(author));
  }

  // ---------------------------------------------------------------------
  // filter_by_type

  /** The marker's type equals the query, ignoring case. */
  predicate OfType(m: DebtMarker, markerType: string) {
    Lower(m.markerType) == Lower(markerType)
  }

  /** The type test as a filter predicate. */
  function TypeMatch(markerType: string): DebtMarker -> bool {
    m => OfType(m, markerType)
  }

  /** `filter_by_type`. */
  function FilterByType(markers: seq<DebtMarker>, markerType: string): (r: seq<DebtMarker>)
    ensures |r| <= |markers|
  {
    Filter(markers, TypeMatch(markerType))
  }

  /** The result is the markers whose type equals the query ignoring case,
      with or without blame information, in the original order. */
  lemma FilterByTypeSpec(markers: seq<DebtMarker>, markerType: string)
    ensures forall m :: m in FilterByType(markers, markerType) <==>
      m in markers && Lower(m.markerType) == Lower(markerType)
    ensures forall m ::
      multiset(FilterByType(markers, markerType))[m] == (if OfType(m, markerType) then multiset(markers)[m] else 0)
    ensures IsSubsequence(FilterByType(markers, markerType), markers)
  {
    FilterSpec(markers, TypeMatch(markerType));
  }

  /** Filtering the result again by the same type changes nothing. */
  lemma FilterByTypeIdempotent(markers: seq<DebtMarker>, markerType: string)
    ensures FilterByType(FilterByType(markers, markerType), markerType) == FilterByType(markers, markerType)
  {
    FilterIdempotent(markers, TypeMatch(markerType));
  }

  /** The type filter only looks at the lower-cased type: queries that agree
      ignoring case select the same markers. */
  lemma FilterByTypeIgnoresCase(markers: seq<DebtMarker>, a: string, b: string)
    requires Lower(a) == Lower(b)
    ensures FilterByType(markers, a) == FilterByType(markers, b)
  {
    FilterSamePredicate(markers, TypeMatch(a), TypeMatch(b));
  }
}
