/**
 * `CheckElementView.get`: whether a directory's version holds an element with
 * the given code and value; the version is given by its label or, without
 * one, is the directory's `get_latest_version`.
 */
module CheckElementView {
  import opened Wrappers
  import opened Orm
  import opened QueryParams
  import opened Models
  import ElementView

  datatype Response =
    | Found                          // 200
    | ElementNotFound                // 400
    | DirectoryNotFound              // 404
    | VersionNotFound                // 404
    | ServerError(cause: Exception)  // an exception the view does not catch

  function Status(r: Response): int {
    match r
    case Found => 200
    case ElementNotFound => 400
    case DirectoryNotFound => 404
    case VersionNotFound => 404
    case ServerError(_) => 500
  }

  /** Whether element `e` matches the query parameters; an absent one is `None`, which no stored element matches. */
  predicate Matches(e: Element, code: Option<string>, value: Option<string>) {
    Some(e.elementCode) == code && Some(e.elementValue) == value
  }

  /**
   * The lookup of the version's one element with exactly this code and
   * value: `Found`, `ElementNotFound` when there is none, or the exception
   * `get` raises when there are several.
   */
  function FindElement(st: Store, v: Version, code: Option<string>, value: Option<string>): (r: Response)
    ensures r.Found? || r.ElementNotFound? || r == ServerError(MultipleObjectsReturned)
    ensures r.Found? ==> exists e :: e in st.elements && e.directoryVersion == v.id && Matches(e, code, value)
    ensures r.ElementNotFound? <==>
      forall e | e in st.elements :: !(e.directoryVersion == v.id && Matches(e, code, value))
  {
    match Orm.Get(Filter((e: Element) => e.directoryVersion == v.id && Matches(e, code, value), st.elements))
    case Got(_) => Found
    case Raised(DoesNotExist) => ElementNotFound
    case Raised(e) => ServerError(e)
  }

  function Get(st: Store, id: int, code: Option<string>, value: Option<string>, version: Option<string>): (r: Response)
    ensures r.DirectoryNotFound? <==> forall d | d in st.directories :: d.id != id
    ensures r.VersionNotFound? ==> Present(version)
    ensures r.Found? ==>
      exists e :: e in st.elements && Matches(e, code, value)
        && exists v :: v in st.versions && v.directory == id && v.id == e.directoryVersion
  {
    match Orm.Get(DirectoriesWithId(st, id))
    case Raised(DoesNotExist) => DirectoryNotFound
    case Raised(e) => ServerError(e)
    case Got(directory) =>
      if Present(version) then
        match Orm.Get(VersionsWithLabel(st, directory.id, version.value))
        case Raised(DoesNotExist) => VersionNotFound
        case Raised(e) => ServerError(e)
        case Got(v) => FindElement(st, v, code, value)
      else
        match GetLatestVersion(st, directory)
        // `version.element_set` on `None`
        case None => ServerError(AttributeError)
        case Some(v) => FindElement(st, v, code, value)
  }

  /**
   * On a valid store the element check is exact membership: `Found` when the
   * version has an element with exactly that code and that value, and
   * otherwise `ElementNotFound`, answered with 400.
   */
  lemma FindElementIsMembership(st: Store, v: Version, code: Option<string>, value: Option<string>)
    requires StoreValid(st)
    ensures FindElement(st, v, code, value) == Found <==>
      exists e :: e in st.elements && e.directoryVersion == v.id && Matches(e, code, value)
    ensures FindElement(st, v, code, value) != Found ==>
      FindElement(st, v, code, value) == ElementNotFound && Status(FindElement(st, v, code, value)) == 400
  {
    var p := (e: Element) => e.directoryVersion == v.id && Matches(e, code, value);
    assert forall i, j | 0 <= i < j < |st.elements| :: !(p(st.elements[i]) && p(st.elements[j])) by {
      forall i, j | 0 <= i < j < |st.elements| ensures !(p(st.elements[i]) && p(st.elements[j])) {
        assert !(st.elements[i].directoryVersion == st.elements[j].directoryVersion
                 && st.elements[i].elementCode == st.elements[j].elementCode);
      }
    }
    FilterAtMostOne(p, st.elements);
  }

  /** A nonexistent directory id gives 404 whatever the other parameters. */
  lemma UnknownDirectory(st: Store, id: int, code: Option<string>, value: Option<string>, version: Option<string>)
    requires forall d | d in st.directories :: d.id != id
    ensures Get(st, id, code, value, version) == DirectoryNotFound
    ensures Status(Get(st, id, code, value, version)) == 404
  {
  }

  /** Under an existing directory, a given label with no version of that label gives 404, and only then. */
  lemma UnknownVersionLabel(st: Store, d: Directory, code: Option<string>, value: Option<string>, version: Option<string>)
    requires StoreValid(st) && d in st.directories
    ensures Get(st, d.id, code, value, version) == VersionNotFound <==>
      Present(version) && forall v | v in st.versions :: !(v.directory == d.id && v.version == version.value)
  {
    DirectoryById(st, d);
    if Present(version) {
      var p := (v: Version) => v.directory == d.id && v.version == version.value;
      if exists v :: v in st.versions && p(v) {
        var v :| v in st.versions && p(v);
        VersionByLabel(st, v);
        FindElementIsMembership(st, v, code, value);
      } else {
        FilterNone(p, st.versions);
      }
    }
  }

  /** A given label selects exactly the version with that label; the check is then membership in it. */
  lemma ExplicitVersion(st: Store, v: Version, code: Option<string>, value: Option<string>)
    requires StoreValid(st) && v in st.versions && v.version != ""
    ensures Get(st, v.directory, code, value, Some(v.version)) == FindElement(st, v, code, value)
  {
    var d := DirectoryOfVersion(st, v);
    DirectoryById(st, d);
    VersionByLabel(st, v);
  }

  /**
   * Without a label the checked version is the directory's version with the
   * latest start date, with no bound by the current date.
   */
  lemma LatestVersion(st: Store, v: Version, code: Option<string>, value: Option<string>, version: Option<string>)
    requires StoreValid(st) && v in st.versions && !Present(version) && v.startDate.Some?
    requires forall w | w in st.versions && w.directory == v.directory && w.startDate.Some? ::
      w.startDate.value <= v.startDate.value
    ensures Get(st, v.directory, code, value, version) == FindElement(st, v, code, value)
  {
    var d := DirectoryOfVersion(st, v);
    DirectoryById(st, d);
    GetLatestVersionIsTheMaximum(st, d, v);
  }

  /**
   * Without a label, for a directory with no version at all,
   * `get_latest_version` returns `None` and the request fails reading
   * `element_set` from it.
   */
  lemma NoLatestVersion(st: Store, d: Directory, code: Option<string>, value: Option<string>, version: Option<string>)
    requires StoreValid(st) && d in st.directories && !Present(version)
    requires forall w | w in st.versions :: w.directory != d.id
    ensures Get(st, d.id, code, value, version) == ServerError(AttributeError)
  {
    DirectoryById(st, d);
  }

  /**
   * Without a label, for a directory whose versions are all undated, the
   * check runs on one of those undated versions.
   */
  lemma UndatedLatestVersion(st: Store, d: Directory, code: Option<string>, value: Option<string>, version: Option<string>)
    requires StoreValid(st) && d in st.directories && !Present(version)
    requires exists w :: w in st.versions && w.directory == d.id
    requires forall w | w in st.versions && w.directory == d.id :: w.startDate.None?
    ensures GetLatestVersion(st, d).Some?
    ensures var v := GetLatestVersion(st, d).value;
      && v in st.versions && v.directory == d.id && v.startDate.None?
      && Get(st, d.id, code, value, version) == FindElement(st, v, code, value)
  {
    DirectoryById(st, d);
  }

  /**
   * The two endpoints resolve the default version differently: with one
   * version starting on day 100, on day 50 the element listing fails while
   * the check finds the element in that future version.
   */
  lemma DefaultVersionRulesDisagree()
    ensures
      var d := Directory(1, "specialties", "Specialties", None);
      var v := Version(1, 1, "1.0", Some(100));
      var e := Element(1, 1, "E01", "Хирург");
      var st := Store([d], [v], [e]);
      && ElementView.Get(st, 1, None, 50) == ElementView.ServerError(DoesNotExist)
      && Get(st, 1, Some("E01"), Some("Хирург"), None) == Found
  {
    var d := Directory(1, "specialties", "Specialties", None);
    var v := Version(1, 1, "1.0", Some(100));
    var e := Element(1, 1, "E01", "Хирург");
    var st := Store([d], [v], [e]);
    assert DirectoriesWithId(st, 1) == [d];
    assert ElementView.CurrentCandidates(st, d, 50) == [];
    assert VersionsOf(st, 1) == [v];
    assert Filter((x: Element) => x.directoryVersion == v.id && Matches(x, Some("E01"), Some("Хирург")), st.elements) == [e];
  }

  /**
   * With only an undated version the two endpoints disagree on every day:
   * the listing has no current version, while the check falls back to the
   * undated one and finds the element there.
   */
  lemma UndatedVersionRulesDisagree(today: Day)
    ensures
      var d := Directory(1, "specialties", "Specialties", None);
      var v := Version(1, 1, "1.0", None);
      var e := Element(1, 1, "E01", "Хирург");
      var st := Store([d], [v], [e]);
      && ElementView.Get(st, 1, None, today) == ElementView.ServerError(DoesNotExist)
      && Get(st, 1, Some("E01"), Some("Хирург"), None) == Found
  {
    var d := Directory(1, "specialties", "Specialties", None);
    var v := Version(1, 1, "1.0", None);
    var e := Element(1, 1, "E01", "Хирург");
    var st := Store([d], [v], [e]);
    assert DirectoriesWithId(st, 1) == [d];
    assert ElementView.CurrentCandidates(st, d, today) == [];
    assert VersionsOf(st, 1) == [v];
    assert Filter((x: Element) => x.directoryVersion == v.id && Matches(x, Some("E01"), Some("Хирург")), st.elements) == [e];
  }
}
