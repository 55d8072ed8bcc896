/**
 * The three tables of the reference-book application (directories, their
 * versions, and the elements of each version) as one store value, the
 * constraints the model declarations put on it, `get_latest_version`, and the
 * default ordering of elements.
 */
module Models {
  import opened Wrappers
  import opened Orm

  /** A calendar date, as a day number. */
  type Day = int

  datatype Directory = Directory(id: int, code: string, name: string, description: Option<string>)

  /** A version of the directory whose id is `directory`; `startDate` is nullable. */
  datatype Version = Version(id: int, directory: int, version: string, startDate: Option<Day>)

  /** An element of the version whose id is `directoryVersion`. */
  datatype Element = Element(id: int, directoryVersion: int, elementCode: string, elementValue: string)

  /** The database: each table in its storage order. */
  datatype Store = Store(directories: seq<Directory>, versions: seq<Version>, elements: seq<Element>)

  /** Primary keys and `Directory.code` are unique. */
  predicate KeysUnique(st: Store) {
    && (forall i, j | 0 <= i < j < |st.directories| :: st.directories[i].id != st.directories[j].id)
    && (forall i, j | 0 <= i < j < |st.directories| :: st.directories[i].code != st.directories[j].code)
    && (forall i, j | 0 <= i < j < |st.versions| :: st.versions[i].id != st.versions[j].id)
    && (forall i, j | 0 <= i < j < |st.elements| :: st.elements[i].id != st.elements[j].id)
  }

  /** Every foreign key names an existing row. */
  predicate ForeignKeysValid(st: Store) {
    && (forall v | v in st.versions :: exists d :: d in st.directories && d.id == v.directory)
    && (forall e | e in st.elements :: exists v :: v in st.versions && v.id == e.directoryVersion)
  }

  /** `unique_together` of Version: (directory, version) and (directory, start_date); NULL dates never collide. */
  predicate VersionsUnique(st: Store) {
    && (forall i, j | 0 <= i < j < |st.versions| ::
          !(st.versions[i].directory == st.versions[j].directory && st.versions[i].version == st.versions[j].version))
    && (forall i, j | 0 <= i < j < |st.versions| ::
          !(st.versions[i].directory == st.versions[j].directory && st.versions[i].startDate.Some?
            && st.versions[i].startDate == st.versions[j].startDate))
  }

  /** `unique_together` of Element: (directory_version, element_code). */
  predicate ElementsUnique(st: Store) {
    forall i, j | 0 <= i < j < |st.elements| ::
      !(st.elements[i].directoryVersion == st.elements[j].directoryVersion
        && st.elements[i].elementCode == st.elements[j].elementCode)
  }

  /** What the database guarantees about every store the views read. */
  predicate StoreValid(st: Store) {
    KeysUnique(st) && ForeignKeysValid(st) && VersionsUnique(st) && ElementsUnique(st)
  }

  /** `start_date__lte=day`: a NULL start date never qualifies. */
  predicate StartedBy(v: Version, day: Day) {
    v.startDate.Some? && v.startDate.value <= day
  }

  /** `version_set` of the directory whose id is `directoryId`. */
  function VersionsOf(st: Store, directoryId: int): seq<Version> {
    Filter((v: Version) => v.directory == directoryId, st.versions)
  }

  /** The rows `Directory.objects.get(id=id)` chooses from. */
  function DirectoriesWithId(st: Store, id: int): seq<Directory> {
    Filter((d: Directory) => d.id == id, st.directories)
  }

  /** The rows `get(directory=…, version=label)` on versions chooses from. */
  function VersionsWithLabel(st: Store, directoryId: int, versionLabel: string): seq<Version> {
    Filter((v: Version) => v.directory == directoryId && v.version == versionLabel, st.versions)
  }

  /** `filter(directory_version=v)`, before ordering. */
  function ElementsOfVersion(st: Store, v: Version): seq<Element> {
    Filter((e: Element) => e.directoryVersion == v.id, st.elements)
  }

  /** On a valid store, looking a directory up by its id finds exactly that directory. */
  lemma DirectoryById(st: Store, d: Directory)
    requires StoreValid(st) && d in st.directories
    ensures Get(DirectoriesWithId(st, d.id)) == Got(d)
  {
    GetUnique((x: Directory) => x.id == d.id, st.directories, d);
  }

  /** On a valid store, the directory a version points to exists. */
  lemma DirectoryOfVersion(st: Store, v: Version) returns (d: Directory)
    requires StoreValid(st) && v in st.versions
    ensures d in st.directories && d.id == v.directory
  {
    d :| d in st.directories && d.id == v.directory;
  }

  /** On a valid store, a label names one version of a directory at most: looking it up finds exactly that version. */
  lemma VersionByLabel(st: Store, v: Version)
    requires StoreValid(st) && v in st.versions
    ensures Get(VersionsWithLabel(st, v.directory, v.version)) == Got(v)
  {
    GetUnique((w: Version) => w.directory == v.directory && w.version == v.version, st.versions, v);
  }

  /**
   * `latest("start_date")` over a query's versions: the first row of the
   * query ordered by start date, descending, with NULL dates sorting below
   * every date; `None` where the query is empty and `latest` raises
   * `DoesNotExist`. Of equal dates, and of NULL dates, the first in storage
   * order is taken.
   */
  function LatestByStartDate(vs: seq<Version>): (r: Option<Version>)
    ensures r.None? <==> vs == []
    ensures r.Some? ==> r.value in vs
    ensures r.Some? && r.value.startDate.None? ==> forall w | w in vs :: w.startDate.None?
    ensures r.Some? && r.value.startDate.Some? ==>
      forall w | w in vs && w.startDate.Some? :: w.startDate.value <= r.value.startDate.value
  {
    if vs == [] then None
    else
      var rest := LatestByStartDate(vs[1..]);
      if rest.None? then Some(vs[0])
      else if vs[0].startDate.None? then rest
      else if rest.value.startDate.Some? && vs[0].startDate.value < rest.value.startDate.value then rest
      else Some(vs[0])
  }

  /**
   * `Directory.get_latest_version`: the directory's version with the latest
   * start date, with no bound by the current date; an undated version when
   * none is dated; `None` only when the directory has no version.
   */
  function GetLatestVersion(st: Store, d: Directory): (r: Option<Version>)
    ensures r.None? <==> forall w | w in st.versions :: w.directory != d.id
    ensures r.Some? ==> r.value in st.versions && r.value.directory == d.id
    ensures r.Some? && r.value.startDate.None? ==>
      forall w | w in st.versions && w.directory == d.id :: w.startDate.None?
    ensures r.Some? && r.value.startDate.Some? ==>
      forall w | w in st.versions && w.directory == d.id && w.startDate.Some? ::
        w.startDate.value <= r.value.startDate.value
  {
    LatestByStartDate(VersionsOf(st, d.id))
  }

  /** Two versions of one directory with the same non-NULL start date are the same version. */
  lemma StartDateIdentifiesVersion(st: Store, v: Version, w: Version)
    requires StoreValid(st)
    requires v in st.versions && w in st.versions && v.directory == w.directory
    requires v.startDate.Some? && v.startDate == w.startDate
    ensures v == w
  {
    var i :| 0 <= i < |st.versions| && st.versions[i] == v;
    var j :| 0 <= j < |st.versions| && st.versions[j] == w;
  }

  /**
   * The version `latest` picks is determined by the dates alone: on a valid
   * store, a version of the query whose start date is at least every other
   * one's is the one picked.
   */
  lemma LatestIsTheMaximum(st: Store, vs: seq<Version>, v: Version)
    requires StoreValid(st)
    requires forall w | w in vs :: w in st.versions && w.directory == v.directory
    requires v in vs && v.startDate.Some?
    requires forall w | w in vs && w.startDate.Some? :: w.startDate.value <= v.startDate.value
    ensures LatestByStartDate(vs) == Some(v)
  {
    var r := LatestByStartDate(vs);
    assert r.Some?;
    var u := r.value;
    assert u in st.versions && u.directory == v.directory && u.startDate.Some?;
    assert u.startDate.value <= v.startDate.value <= u.startDate.value;
    StartDateIdentifiesVersion(st, u, v);
  }

  /** On a valid store, `get_latest_version` returns exactly the directory's latest-dated version. */
  lemma GetLatestVersionIsTheMaximum(st: Store, d: Directory, v: Version)
    requires StoreValid(st)
    requires v in st.versions && v.directory == d.id && v.startDate.Some?
    requires forall w | w in st.versions && w.directory == d.id && w.startDate.Some? ::
      w.startDate.value <= v.startDate.value
    ensures GetLatestVersion(st, d) == Some(v)
  {
    LatestIsTheMaximum(st, VersionsOf(st, d.id), v);
  }

  /** A directory without versions has no latest version. */
  lemma GetLatestVersionWithoutVersions(st: Store, d: Directory)
    requires forall w | w in st.versions :: w.directory != d.id
    ensures GetLatestVersion(st, d) == None
  {
  }

  /**
   * The bound "not later than today" that the method's documentation states
   * is not applied: a directory whose only version starts on day 100 gets
   * that version as its latest one on any earlier day.
   */
  lemma GetLatestVersionIgnoresToday(today: Day)
    requires today < 100
    ensures
      var d := Directory(1, "specialties", "Specialties", None);
      var v := Version(1, 1, "2.0", Some(100));
      var r := GetLatestVersion(Store([d], [v], []), d);
      r == Some(v) && r.value.startDate.value > today
  {
    var d := Directory(1, "specialties", "Specialties", None);
    var v := Version(1, 1, "2.0", Some(100));
    assert VersionsOf(Store([d], [v], []), d.id) == [v];
  }

  // ----- the default ordering of elements -----

  /**
   * Element's `ordering` is (directory_version, element_code); every query
   * the views run keeps the elements of one version, so it orders them by
   * code, stably.
   */
  predicate SortedByCode(es: seq<Element>) {
    forall i, j | 0 <= i < j < |es| :: StringLe(es[i].elementCode, es[j].elementCode)
  }

  function InsertByCode(e: Element, es: seq<Element>): seq<Element> {
    if es == [] then [e]
    else if StringLe(e.elementCode, es[0].elementCode) then [e] + es
    else [es[0]] + InsertByCode(e, es[1..])
  }

  /**
   * The rows of an element query in their default order: sorted by code,
   * and exactly the rows it was given.
   */
  function OrderByCode(es: seq<Element>): (r: seq<Element>)
    ensures SortedByCode(r)
    ensures multiset(r) == multiset(es)
    ensures |r| == |es|
  {
    if es == [] then []
    else
      var rest := OrderByCode(es[1..]);
      InsertByCodeSorted(es[0], rest);
      InsertByCodePermutes(es[0], rest);
      assert es == [es[0]] + es[1..];
      InsertByCode(es[0], rest)
  }

  lemma {:induction false} InsertByCodePermutes(e: Element, es: seq<Element>)
    ensures multiset(InsertByCode(e, es)) == multiset(es) + multiset{e}
  {
    if es != [] && !StringLe(e.elementCode, es[0].elementCode) {
      InsertByCodePermutes(e, es[1..]);
      assert es == [es[0]] + es[1..];
    }
  }

  lemma {:induction false} InsertByCodeSorted(e: Element, es: seq<Element>)
    requires SortedByCode(es)
    ensures SortedByCode(InsertByCode(e, es))
  {
    if es == [] {
    } else if StringLe(e.elementCode, es[0].elementCode) {
      forall j | 0 <= j < |es| ensures StringLe(e.elementCode, es[j].elementCode) {
        if j > 0 {
          StringLeTransitive(e.elementCode, es[0].elementCode, es[j].elementCode);
        }
      }
    } else {
      var tail := es[1..];
      InsertByCodeSorted(e, tail);
      InsertByCodePermutes(e, tail);
      StringLeTotal(e.elementCode, es[0].elementCode);
      var t := InsertByCode(e, tail);
      forall k | 0 <= k < |t| ensures StringLe(es[0].elementCode, t[k].elementCode) {
        assert t[k] in multiset(t);
        if t[k] != e {
          assert t[k] in multiset(tail);
          var m :| 0 <= m < |tail| && tail[m] == t[k];
          assert es[m + 1] == t[k];
        }
      }
    }
  }
}
