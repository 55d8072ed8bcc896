/**
 * The fixture of the application's own test case: one directory with one
 * version that starts today and holds one element.
 */
module Scenarios {
  import opened Wrappers
  import opened Orm
  import opened Models
  import ElementView
  import CheckElementView
  import DirectoryView

  function Fixture(today: Day): Store {
    Store([Directory(1, "1", "Справочник1", None)],
          [Version(1, 1, "1.0", Some(today))],
          [Element(1, 1, "E01", "Хирург")])
  }

  lemma FixtureIsValid(today: Day)
    ensures StoreValid(Fixture(today))
  {
  }

  /** Without a version, the listing of the directory's elements has its one element. */
  lemma FixtureElements(today: Day)
    ensures ElementView.Get(Fixture(today), 1, None, today)
      == ElementView.Elements([ElementView.ElementRow("E01", "Хирург")])
  {
    var st := Fixture(today);
    var d := st.directories[0];
    var v := st.versions[0];
    assert DirectoriesWithId(st, 1) == [d];
    assert ElementView.CurrentCandidates(st, d, today) == [v];
    assert ElementsOfVersion(st, v) == st.elements;
  }

  /** Without a version, the element's own code and value are found (200). */
  lemma FixtureCheck(today: Day)
    ensures CheckElementView.Get(Fixture(today), 1, Some("E01"), Some("Хирург"), None) == CheckElementView.Found
  {
    var st := Fixture(today);
    var v := st.versions[0];
    FixtureIsValid(today);
    CheckElementView.LatestVersion(st, v, Some("E01"), Some("Хирург"), None);
    CheckElementView.FindElementIsMembership(st, v, Some("E01"), Some("Хирург"));
  }

  /** Without a date, the directory listing has the one directory. */
  method FixtureDirectories(today: Day) returns (refbooks: seq<DirectoryView.DirectoryRow>)
    ensures refbooks == [DirectoryView.DirectoryRow(1, "1", "Справочник1")]
  {
    FixtureIsValid(today);
    refbooks := DirectoryView.Get(Fixture(today), None);
  }
}
