/** The scenarios of the unit tests in `src/models.rs`. */
module ModelExamples {

  import opened Wrappers
  import opened Seqs
  import opened Models

  /** A blame record of the given age; the other fields do not affect the
      display. */
  function Blame(ageDays: int): (info: GitBlameInfo)
    ensures info.ageDays == ageDays
  {
    GitBlameInfo("Test", "test@example.com", "abc123", 0, ageDays)
  }

  lemma AgeInDays()
    ensures AgeDisplay(Blame(15)) == "15d"
  {
  }

  lemma AgeInMonths()
    ensures AgeDisplay(Blame(60)) == "2m"
  {
  }

  lemma AgeInYears()
    ensures AgeDisplay(Blame(400)) == "1y"
  {
  }

  /** Two unblamed TODO markers in one file: two in total, two of type TODO,
      two in the file, no authors. */
  lemma ReportCreation(a: DebtMarker, b: DebtMarker)
    requires a == DebtMarker("TODO", "test.rs", 1, "// TODO: test", [], [], None)
    requires b == DebtMarker("TODO", "test.rs", 2, "// TODO: test2", [], [], None)
    ensures Histogram(TypesOf([a, b])) == map["TODO" := 2]
    ensures Histogram(FilesOf([a, b])) == map["test.rs" := 2]
    ensures Histogram(AuthorsOf([a, b])) == map[]
  {
    assert TypesOf([a, b]) == ["TODO", "TODO"];
    assert FilesOf([a, b]) == ["test.rs", "test.rs"];
    assert [a, b][1..] == [b];
    assert Filter([a, b], HasGitInfo) == [];
    HistogramTwice("TODO");
    HistogramTwice("test.rs");
  }

  lemma HistogramTwice<K(!new)>(k: K)
    ensures Histogram([k, k]) == map[k := 2]
  {
    assert multiset([k, k])[k] == 2;
  }
}
