/**
 * `ElementView.get`: the elements of a directory's version, the version given
 * by its label or, without one, the current version as of today.
 */
module ElementView {
  import opened Wrappers
  import opened Orm
  import opened QueryParams
  import opened Models

  /** An element as the serializer emits it: code and value. */
  datatype ElementRow = ElementRow(elementCode: string, elementValue: string)

  datatype Response =
    | Elements(elements: seq<ElementRow>)   // 200
    | DirectoryNotFound                     // 404
    | VersionNotFound                       // 404
    | ServerError(cause: Exception)         // an exception the view does not catch

  function Status(r: Response): int {
    match r
    case Elements(_) => 200
    case DirectoryNotFound => 404
    case VersionNotFound => 404
    case ServerError(_) => 500
  }

  function RowOf(e: Element): ElementRow {
    ElementRow(e.elementCode, e.elementValue)
  }

  /** `filter(directory_version=v)` in the default order, serialized. */
  function ElementRows(st: Store, v: Version): (r: seq<ElementRow>)
    ensures |r| == |ElementsOfVersion(st, v)|
    ensures forall i, j | 0 <= i < j < |r| :: StringLe(r[i].elementCode, r[j].elementCode)
  {
    Project(RowOf, OrderByCode(ElementsOfVersion(st, v)))
  }

  /** The versions `filter(start_date__lte=today)` keeps of directory `d`. */
  function CurrentCandidates(st: Store, d: Directory, today: Day): (r: seq<Version>)
    ensures forall v :: v in r <==> v in st.versions && v.directory == d.id && StartedBy(v, today)
  {
    Filter((v: Version) => v.directory == d.id && StartedBy(v, today), st.versions)
  }

  function Get(st: Store, id: int, version: Option<string>, today: Day): (r: Response)
    ensures r.DirectoryNotFound? <==> forall d | d in st.directories :: d.id != id
    ensures r.VersionNotFound? ==> Present(version)
    ensures r.Elements? ==>
      exists v :: v in st.versions && v.directory == id && r.elements == ElementRows(st, v)
  {
    match Orm.Get(DirectoriesWithId(st, id))
    case Raised(DoesNotExist) => DirectoryNotFound
    case Raised(e) => ServerError(e)
    case Got(directory) =>
      if Present(version) then
        match Orm.Get(VersionsWithLabel(st, directory.id, version.value))
        case Raised(DoesNotExist) => VersionNotFound
        case Raised(e) => ServerError(e)
        case Got(v) => Elements(ElementRows(st, v))
      else
        // `latest` raises when nothing qualifies, so the view's own
        // "no versions" answer is never reached
        match LatestByStartDate(CurrentCandidates(st, directory, today))
        case None => ServerError(DoesNotExist)
        case Some(v) => Elements(ElementRows(st, v))
  }

  /**
   * The listed elements are exactly the resolved version's elements, none of
   * another version, as many as it has, sorted by code.
   */
  lemma ElementRowsOfVersion(st: Store, v: Version)
    ensures forall row :: row in ElementRows(st, v) <==>
      exists e :: e in st.elements && e.directoryVersion == v.id && RowOf(e) == row
    ensures |ElementRows(st, v)| == |ElementsOfVersion(st, v)|
    ensures forall i, j | 0 <= i < j < |ElementRows(st, v)| ::
      StringLe(ElementRows(st, v)[i].elementCode, ElementRows(st, v)[j].elementCode)
  {
    var own := ElementsOfVersion(st, v);
    var es := OrderByCode(own);
    var rows := Project(RowOf, es);
    forall row ensures row in rows <==>
      exists e :: e in st.elements && e.directoryVersion == v.id && RowOf(e) == row
    {
      if row in rows {
        var k :| 0 <= k < |rows| && rows[k] == row;
        assert es[k] in multiset(own);
        assert es[k] in own;
      }
      if exists e :: e in st.elements && e.directoryVersion == v.id && RowOf(e) == row {
        var e :| e in st.elements && e.directoryVersion == v.id && RowOf(e) == row;
        assert e in own;
        assert e in multiset(es);
        var k :| 0 <= k < |es| && es[k] == e;
        assert rows[k] == row;
      }
    }
  }

  /** A nonexistent directory id gives 404 whatever the version parameter and the date. */
  lemma UnknownDirectory(st: Store, id: int, version: Option<string>, today: Day)
    requires forall d | d in st.directories :: d.id != id
    ensures Get(st, id, version, today) == DirectoryNotFound
    ensures Status(Get(st, id, version, today)) == 404
  {
  }

  /** Under an existing directory, a given label with no version of that label gives 404, and only then. */
  lemma UnknownVersionLabel(st: Store, d: Directory, version: Option<string>, today: Day)
    requires StoreValid(st) && d in st.directories
    ensures Get(st, d.id, version, today) == VersionNotFound <==>
      Present(version) && forall v | v in st.versions :: !(v.directory == d.id && v.version == version.value)
  {
    DirectoryById(st, d);
    if Present(version) {
      var p := (v: Version) => v.directory == d.id && v.version == version.value;
      if exists v :: v in st.versions && p(v) {
        var v :| v in st.versions && p(v);
        VersionByLabel(st, v);
      } else {
        FilterNone(p, st.versions);
      }
    }
  }

  /** A given label resolves to exactly the version with that label, whatever the date. */
  lemma ExplicitVersion(st: Store, v: Version, today: Day)
    requires StoreValid(st) && v in st.versions && v.version != ""
    ensures Get(st, v.directory, Some(v.version), today) == Elements(ElementRows(st, v))
  {
    var d := DirectoryOfVersion(st, v);
    DirectoryById(st, d);
    VersionByLabel(st, v);
  }

  /**
   * Without a label, the listed version is the directory's version with the
   * latest start date not after today.
   */
  lemma CurrentVersion(st: Store, v: Version, version: Option<string>, today: Day)
    requires StoreValid(st) && v in st.versions && !Present(version)
    requires StartedBy(v, today)
    requires forall w | w in st.versions && w.directory == v.directory && StartedBy(w, today) ::
      w.startDate.value <= v.startDate.value
    ensures Get(st, v.directory, version, today) == Elements(ElementRows(st, v))
  {
    var d := DirectoryOfVersion(st, v);
    DirectoryById(st, d);
    LatestIsTheMaximum(st, CurrentCandidates(st, d, today), v);
  }

  /**
   * Without a label and with no version started by today, `latest` raises:
   * the request fails with an uncaught `DoesNotExist` instead of a 404.
   */
  lemma NoCurrentVersion(st: Store, d: Directory, version: Option<string>, today: Day)
    requires StoreValid(st) && d in st.directories && !Present(version)
    requires forall w | w in st.versions && w.directory == d.id :: !StartedBy(w, today)
    ensures Get(st, d.id, version, today) == ServerError(DoesNotExist)
  {
    DirectoryById(st, d);
    FilterNone((v: Version) => v.directory == d.id && StartedBy(v, today), st.versions);
  }

  /**
   * When no version of the directory starts after today, the current version
   * and `get_latest_version` agree as soon as one version is dated. When
   * none is dated, the filtered `latest` raises while `get_latest_version`
   * returns an undated version, if there is one.
   */
  lemma CurrentVersionIsLatestWithoutFutureVersions(st: Store, d: Directory, today: Day)
    requires StoreValid(st)
    requires forall w | w in st.versions && w.directory == d.id && w.startDate.Some? :: w.startDate.value <= today
    ensures (exists w :: w in st.versions && w.directory == d.id && w.startDate.Some?) ==>
      LatestByStartDate(CurrentCandidates(st, d, today)) == GetLatestVersion(st, d)
    ensures (forall w | w in st.versions && w.directory == d.id :: w.startDate.None?) ==>
      && LatestByStartDate(CurrentCandidates(st, d, today)) == None
      && (GetLatestVersion(st, d).None? <==> forall w | w in st.versions :: w.directory != d.id)
  {
    var latest := GetLatestVersion(st, d);
    if exists w :: w in st.versions && w.directory == d.id && w.startDate.Some? {
      LatestIsTheMaximum(st, CurrentCandidates(st, d, today), latest.value);
    } else {
      FilterNone((v: Version) => v.directory == d.id && StartedBy(v, today), st.versions);
    }
  }
}
