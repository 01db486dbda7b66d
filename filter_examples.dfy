/** The duration and filter scenarios of `src/filters.rs`, on markers built
    the way its tests build them. */
module FilterExamples {

  import opened Wrappers
  import opened Text
  import opened Seqs
  import opened Models
  import opened Filters

  /** A marker of the given type, age and author, with blame information whose
      e-mail is the lower-cased author at example.com.  The commit time is a
      clock reading and plays no part in the filters: it is fixed at 0. */
  function TestMarker(markerType: string, ageDays: int, author: string): (m: DebtMarker)
    ensures m.gitInfo.Some? && m.gitInfo.value.ageDays == ageDays && m.gitInfo.value.author == author
  {
    DebtMarker(markerType, "test.rs", 1, "// " + markerType + ": test", [], [],
      Some(GitBlameInfo(author, Lower(author) + "@example.com", "abc123", 0, ageDays)))
  }

  /** The same marker without blame information. */
  function Unblamed(m: DebtMarker): (r: DebtMarker)
    ensures r.gitInfo == None && r.markerType == m.markerType
  {
    m.(gitInfo := None)
  }

  lemma Filter2<T(!new)>(a: T, b: T, p: T -> bool)
    ensures Filter([a, b], p) == (if p(a) then [a] else []) + (if p(b) then [b] else [])
  {
    assert [a, b][1..] == [b];
    assert [b][1..] == [];
  }

  lemma DropFirstOfThree<T(!new)>(a: T, b: T, c: T, p: T -> bool)
    requires !p(a) && p(b) && p(c)
    ensures Filter([a, b, c], p) == [b, c]
  {
    Filter3(a, b, c, p);
    Filter2(b, c, p);
  }

  lemma Filter3<T(!new)>(a: T, b: T, c: T, p: T -> bool)
    ensures Filter([a, b, c], p) == (if p(a) then [a] else []) + Filter([b, c], p)
  {
    assert [a, b, c][1..] == [b, c];
  }

  /** A query containing a character the text lacks does not occur in it. */
  lemma MissingChar(hay: string, needle: string, k: nat)
    requires k < |needle| && needle[k] !in hay
    ensures !Contains(hay, needle)
  {
    ContainsIff(hay, needle);
  }

  lemma PairAt(hay: string, needle: string, i: int, k: nat)
    requires OccursAt(hay, needle, i) && k + 1 < |needle|
    ensures hay[i + k] == needle[k] && hay[i + k + 1] == needle[k + 1]
  {
    assert hay[i..i + |needle|][k] == needle[k];
    assert hay[i..i + |needle|][k + 1] == needle[k + 1];
  }

  /** A query containing two adjacent characters that are never adjacent in
      the text does not occur in it. */
  lemma MissingPair(hay: string, needle: string, k: nat)
    requires k + 1 < |needle|
    requires forall i :: 0 <= i < |hay| - 1 ==> !(hay[i] == needle[k] && hay[i + 1] == needle[k + 1])
    ensures !Contains(hay, needle)
  {
    ContainsIff(hay, needle);
    if exists i :: OccursAt(hay, needle, i) {
      var i :| OccursAt(hay, needle, i);
      PairAt(hay, needle, i, k);
    }
  }

  lemma LowerAlice() ensures Lower("Alice") == "alice" {}
  lemma LowerBob() ensures Lower("Bob") == "bob" {}
  lemma LowerCharlie() ensures Lower("Charlie") == "charlie" {}
  lemma LowerTypes() ensures Lower("TODO") == "todo" && Lower("todo") == "todo" {}
  lemma LowerQueries() ensures Lower("alice") == "alice" && Lower("ob") == "ob" {}

  /** The e-mail of a test marker is already lower case. */
  lemma EmailLower(name: string)
    ensures Lower(Lower(name) + "@example.com") == Lower(name) + "@example.com"
  {
    LowerAppend(Lower(name), "@example.com");
    LowerTwice(name);
    LowerDomain();
  }

  lemma LowerDomain()
    ensures Lower("@example.com") == "@example.com"
  {
    var d := "@example.com";
    forall i | 0 <= i < |d| ensures LowerChar(d[i]) == d[i] {
      assert !('A' <= d[i] <= 'Z');
    }
    LowerFixed(d);
  }

  lemma LowerFixed(s: string)
    requires forall i :: 0 <= i < |s| ==> LowerChar(s[i]) == s[i]
    ensures Lower(s) == s
  {
  }

  lemma LowerAppend(a: string, b: string)
    ensures Lower(a + b) == Lower(a) + Lower(b)
  {
  }

  lemma LowerTwice(s: string)
    ensures Lower(Lower(s)) == Lower(s)
  {
  }

  // ---------------------------------------------------------------------
  // parse_duration

  lemma DurationDays()
    ensures ParseDuration("1d") == Ok(SECONDS_PER_DAY)
  {
    assert "1d" == NatToString(1) + ['d'];
    ParseDurationRoundTrip(1, 'd');
  }

  lemma DurationWeeks()
    ensures ParseDuration("2w") == Ok(14 * SECONDS_PER_DAY)
  {
    assert "2w" == NatToString(2) + ['w'];
    ParseDurationRoundTrip(2, 'w');
  }

  lemma DurationMonths()
    ensures ParseDuration("3m") == Ok(90 * SECONDS_PER_DAY)
  {
    assert "3m" == NatToString(3) + ['m'];
    ParseDurationRoundTrip(3, 'm');
  }

  lemma DurationYears()
    ensures ParseDuration("1y") == Ok(365 * SECONDS_PER_DAY)
  {
    assert "1y" == NatToString(1) + ['y'];
    ParseDurationRoundTrip(1, 'y');
  }

  /** "invalid": the part before the last character is not a number. */
  lemma DurationNotANumber()
    ensures ParseDuration("invalid") == Err(InvalidNumber(InvalidDigit))
  {
    var s := "invalid";
    TrimUnchanged(s);
    var front := s[..|s| - 1];
    assert !IsDigit(front[0]);
  }

  /** "10x": the number parses, the unit does not exist. */
  lemma DurationUnknownUnit()
    ensures ParseDuration("10x") == Err(InvalidUnit('x'))
  {
    var s := "10x";
    TrimUnchanged(s);
    assert s[..|s| - 1] == NatToString(10);
    NatToStringParses(10);
  }

  /** Only blanks: the Rust code panics here. */
  lemma DurationBlank()
    ensures ParseDuration(" ") == Err(Blank)
  {
    assert LeadingSpaces(" ") == 1;
  }

  // ---------------------------------------------------------------------
  // filter_by_age

  /** A duration of whole days filters by that many days. */
  lemma FilterByAgeDays(markers: seq<DebtMarker>, minAge: string, days: nat)
    requires ParseDuration(minAge) == Ok(days * SECONDS_PER_DAY)
    ensures FilterByAge(markers, minAge) == Ok(Filter(markers, AgeAtLeast(days)))
  {
    assert days * SECONDS_PER_DAY / SECONDS_PER_DAY == days;
  }

  lemma ThirtyDays()
    ensures ParseDuration("30d") == Ok(30 * SECONDS_PER_DAY)
  {
    assert "30d" == NatToString(30) + ['d'];
    ParseDurationRoundTrip(30, 'd');
  }

  lemma SixtyDays()
    ensures ParseDuration("60d") == Ok(60 * SECONDS_PER_DAY)
  {
    assert "60d" == NatToString(60) + ['d'];
    ParseDurationRoundTrip(60, 'd');
  }

  /** Markers 10, 50 and 100 days old, at least 30 days: the two older ones. */
  lemma AgeFilterKeepsOlder(a: DebtMarker, b: DebtMarker, c: DebtMarker)
    requires a == TestMarker("TODO", 10, "Alice")
    requires b == TestMarker("TODO", 50, "Bob")
    requires c == TestMarker("TODO", 100, "Charlie")
    ensures FilterByAge([a, b, c], "30d") == Ok([b, c])
  {
    ThirtyDays();
    FilterByAgeDays([a, b, c], "30d", 30);
    DropFirstOfThree(a, b, c, AgeAtLeast(30));
  }

  /** Markers 10 and 50 days old, at least 60 days: none. */
  lemma AgeFilterKeepsNone(a: DebtMarker, b: DebtMarker)
    requires a == TestMarker("TODO", 10, "Alice")
    requires b == TestMarker("TODO", 50, "Bob")
    ensures FilterByAge([a, b], "60d") == Ok([])
  {
    SixtyDays();
    FilterByAgeDays([a, b], "60d", 60);
    Filter2(a, b, AgeAtLeast(60));
  }

  /** A marker without blame information never passes the age filter. */
  lemma AgeFilterNeedsBlame(m: DebtMarker)
    requires m == Unblamed(TestMarker("TODO", 100, "Alice"))
    ensures FilterByAge([m], "30d") == Ok([])
  {
    ThirtyDays();
    FilterByAgeDays([m], "30d", 30);
    assert [m][1..] == [];
  }

  // ---------------------------------------------------------------------
  // filter_by_author

  /** A test marker whose lower-cased author contains the lower-cased
      query passes the author filter. */
  lemma TestMarkerMentions(t: string, age: int, author: string, q: string, i: int)
    requires OccursAt(Lower(author), Lower(q), i)
    ensures ByAuthor(TestMarker(t, age, author), q)
  {
    ContainsIff(Lower(author), Lower(q));
  }

  /** A test marker whose lower-cased author and e-mail each lack one of the
      query's characters fails the author filter. */
  lemma TestMarkerLacks(t: string, age: int, author: string, q: string, k: nat, j: nat)
    requires k < |q| && LowerChar(q[k]) !in Lower(author)
    requires j < |q| && LowerChar(q[j]) !in Lower(author) + "@example.com"
    ensures !ByAuthor(TestMarker(t, age, author), q)
  {
    EmailLower(author);
    MissingChar(Lower(author), Lower(q), k);
    MissingChar(Lower(author) + "@example.com", Lower(q), j);
  }

  /** The same, when the author and e-mail lack a pair of adjacent query
      characters. */
  lemma TestMarkerLacksPair(t: string, age: int, author: string, q: string, k: nat)
    requires k + 1 < |q|
    requires forall i :: 0 <= i < |Lower(author) + "@example.com"| - 1 ==>
      !((Lower(author) + "@example.com")[i] == LowerChar(q[k]) && (Lower(author) + "@example.com")[i + 1] == LowerChar(q[k + 1]))
    ensures !ByAuthor(TestMarker(t, age, author), q)
  {
    EmailLower(author);
    var e := Lower(author) + "@example.com";
    forall i | 0 <= i < |Lower(author)| - 1
      ensures !(Lower(author)[i] == Lower(q)[k] && Lower(author)[i + 1] == Lower(q)[k + 1])
    {
      assert e[i] == Lower(author)[i] && e[i + 1] == Lower(author)[i + 1];
    }
    MissingPair(Lower(author), Lower(q), k);
    MissingPair(e, Lower(q), k);
  }

  lemma AliceMentioned()
    ensures ByAuthor(TestMarker("TODO", 10, "Alice"), "alice")
  {
    LowerAlice();
    LowerQueries();
    TestMarkerMentions("TODO", 10, "Alice", "alice", 0);
  }

  lemma BobNotAlice()
    ensures !ByAuthor(TestMarker("TODO", 20, "Bob"), "alice")
  {
    LowerBob();
    TestMarkerLacks("TODO", 20, "Bob", "alice", 0, 2);
  }

  lemma CharlieNotAlice()
    ensures !ByAuthor(TestMarker("TODO", 30, "Charlie"), "alice")
  {
    LowerCharlie();
    TestMarkerLacksPair("TODO", 30, "Charlie", "alice", 0);
  }

  /** "alice" matches Alice only. */
  lemma AuthorFilterAlice(a: DebtMarker, b: DebtMarker, c: DebtMarker)
    requires a == TestMarker("TODO", 10, "Alice")
    requires b == TestMarker("TODO", 20, "Bob")
    requires c == TestMarker("TODO", 30, "Charlie")
    ensures FilterByAuthor([a, b, c], "alice") == [a]
  {
    AliceMentioned();
    BobNotAlice();
    CharlieNotAlice();
    Filter3(a, b, c, AuthorMatch("alice"));
    Filter2(b, c, AuthorMatch("alice"));
  }

  lemma AliceNotOb()
    ensures !ByAuthor(TestMarker("TODO", 10, "Alice"), "ob")
  {
    LowerAlice();
    TestMarkerLacks("TODO", 10, "Alice", "ob", 0, 1);
  }

  lemma BobMentioned()
    ensures ByAuthor(TestMarker("TODO", 20, "Bob"), "ob")
  {
    LowerBob();
    LowerQueries();
    TestMarkerMentions("TODO", 20, "Bob", "ob", 1);
  }

  /** "ob" matches inside "Bob", not at its start. */
  lemma AuthorFilterPartial(a: DebtMarker, b: DebtMarker)
    requires a == TestMarker("TODO", 10, "Alice")
    requires b == TestMarker("TODO", 20, "Bob")
    ensures FilterByAuthor([a, b], "ob") == [b]
  {
    AliceNotOb();
    BobMentioned();
    Filter2(a, b, AuthorMatch("ob"));
  }

  /** A marker without blame information never passes the author filter. */
  lemma AuthorFilterNeedsBlame(m: DebtMarker)
    requires m == Unblamed(TestMarker("TODO", 100, "Alice"))
    ensures FilterByAuthor([m], "alice") == []
  {
    assert [m][1..] == [];
  }

  // ---------------------------------------------------------------------
  // filter_by_type

  /** "todo" selects both TODO markers. */
  lemma TypeFilterIgnoresCase(a: DebtMarker, b: DebtMarker, c: DebtMarker)
    requires a == TestMarker("TODO", 10, "Alice")
    requires b == TestMarker("FIXME", 20, "Bob")
    requires c == TestMarker("TODO", 30, "Charlie")
    ensures FilterByType([a, b, c], "todo") == [a, c]
  {
    LowerTypes();
    assert Lower("FIXME")[0] != Lower("todo")[0];
    Filter3(a, b, c, TypeMatch("todo"));
    Filter2(b, c, TypeMatch("todo"));
  }

  /** "FIXME" selects the FIXME marker only. */
  lemma TypeFilterExact(a: DebtMarker, b: DebtMarker)
    requires a == TestMarker("TODO", 10, "Alice")
    requires b == TestMarker("FIXME", 20, "Bob")
    ensures FilterByType([a, b], "FIXME") == [b]
  {
    assert Lower("TODO")[0] != Lower("FIXME")[0];
    Filter2(a, b, TypeMatch("FIXME"));
  }
}
