/**
 * `DirectoryView.get`: the list of directories, optionally only those with a
 * version started by a given date, each directory once.
 */
module DirectoryView {
  import opened Wrappers
  import opened Orm
  import opened Models

  /** A directory as the serializer emits it: id, code and name. */
  datatype DirectoryRow = DirectoryRow(id: int, code: string, name: string)

  function RowOf(d: Directory): DirectoryRow {
    DirectoryRow(d.id, d.code, d.name)
  }

  function Rows(ds: seq<Directory>): seq<DirectoryRow> {
    Project(RowOf, ds)
  }

  /** Whether some version in `vs` of directory `d` started by `day`. */
  predicate HasVersionStartedBy(vs: seq<Version>, d: Directory, day: Day) {
    exists v :: v in vs && v.directory == d.id && StartedBy(v, day)
  }

  /** Whether a directory belongs in the listing for the optional date. */
  predicate Qualifies(st: Store, d: Directory, date: Option<Day>) {
    date.None? || HasVersionStartedBy(st.versions, d, date.value)
  }

  /**
   * `filter(version__start_date__lte=day)` is a join: each directory comes
   * back once per version of it started by `day`.
   */
  function Join(ds: seq<Directory>, vs: seq<Version>, day: Day): (r: seq<Directory>)
    ensures forall k | 0 <= k < |r| :: r[k] in ds && HasVersionStartedBy(vs, r[k], day)
  {
    if ds == [] then []
    else
      var qualifying := Filter((v: Version) => v.directory == ds[0].id && StartedBy(v, day), vs);
      seq(|qualifying|, _ => ds[0]) + Join(ds[1..], vs, day)
  }

  /** The queryset the view iterates: all directories, or the join. */
  function Queryset(st: Store, date: Option<Day>): (r: seq<Directory>)
    ensures forall k | 0 <= k < |r| :: r[k] in st.directories && Qualifies(st, r[k], date)
  {
    if date.None? then st.directories else Join(st.directories, st.versions, date.value)
  }

  predicate HasId(rows: seq<DirectoryRow>, id: int) {
    exists k :: 0 <= k < |rows| && rows[k].id == id
  }

  predicate NoDuplicateIds(rows: seq<DirectoryRow>) {
    forall i, j | 0 <= i < j < |rows| :: rows[i].id != rows[j].id
  }

  /** The rows whose id no earlier row has, in their order. */
  function FirstById(rows: seq<DirectoryRow>): seq<DirectoryRow>
    decreases |rows|
  {
    if rows == [] then []
    else
      var n := |rows| - 1;
      FirstById(rows[..n]) + (if HasId(rows[..n], rows[n].id) then [] else [rows[n]])
  }

  /** Keeping first occurrences loses no id and adds none. */
  lemma {:induction false} FirstByIdKeepsIds(rows: seq<DirectoryRow>, id: int)
    ensures HasId(FirstById(rows), id) <==> HasId(rows, id)
    decreases |rows|
  {
    if rows != [] {
      var n := |rows| - 1;
      var prefix := rows[..n];
      FirstByIdKeepsIds(prefix, id);
      FirstByIdKeepsIds(prefix, rows[n].id);
      var kept := FirstById(prefix);
      var last: seq<DirectoryRow> := if HasId(prefix, rows[n].id) then [] else [rows[n]];
      assert FirstById(rows) == kept + last;
      if HasId(rows, id) {
        var k :| 0 <= k < |rows| && rows[k].id == id;
        if k < n || HasId(prefix, rows[n].id) {
          if k < n {
            assert prefix[k].id == id;
          }
          assert HasId(prefix, id);
          var m :| 0 <= m < |kept| && kept[m].id == id;
          assert (kept + last)[m].id == id;
        } else {
          assert (kept + last)[|kept|].id == id;
        }
      }
      if HasId(kept + last, id) {
        var k :| 0 <= k < |kept + last| && (kept + last)[k].id == id;
        if k < |kept| {
          assert (kept + last)[k] == kept[k];
          assert HasId(kept, id);
          var m :| 0 <= m < |prefix| && prefix[m].id == id;
          assert rows[m].id == id;
        } else {
          assert (kept + last)[k] == last[k - |kept|] == rows[n];
          assert rows[n].id == id;
        }
      }
    }
  }

  /** The de-duplicated rows have pairwise distinct ids. */
  lemma {:induction false} FirstByIdNoDuplicates(rows: seq<DirectoryRow>)
    ensures NoDuplicateIds(FirstById(rows))
    decreases |rows|
  {
    if rows != [] {
      var n := |rows| - 1;
      var prefix := rows[..n];
      FirstByIdNoDuplicates(prefix);
      FirstByIdKeepsIds(prefix, rows[n].id);
      var kept := FirstById(prefix);
      if !HasId(prefix, rows[n].id) {
        var r := kept + [rows[n]];
        forall i, j | 0 <= i < j < |r| ensures r[i].id != r[j].id {
          if j == |kept| {
            assert r[i] == kept[i];
          }
        }
      }
    }
  }

  /** Every kept row is the first row of its id, and nothing is kept that is not in the input. */
  lemma {:induction false} FirstByIdKeepsFirstOccurrences(rows: seq<DirectoryRow>, k: nat)
    requires k < |FirstById(rows)|
    ensures exists j :: 0 <= j < |rows| && rows[j] == FirstById(rows)[k] && !HasId(rows[..j], rows[j].id)
    decreases |rows|
  {
    var n := |rows| - 1;
    var prefix := rows[..n];
    var kept := FirstById(prefix);
    if k < |kept| {
      FirstByIdKeepsFirstOccurrences(prefix, k);
      var j :| 0 <= j < |prefix| && prefix[j] == kept[k] && !HasId(prefix[..j], prefix[j].id);
      assert prefix[..j] == rows[..j];
      assert rows[j] == FirstById(rows)[k];
    } else {
      assert FirstById(rows)[k] == rows[n];
    }
  }

  /** A list whose ids are already distinct is left as it is. */
  lemma {:induction false} FirstByIdOfDistinct(rows: seq<DirectoryRow>)
    requires NoDuplicateIds(rows)
    ensures FirstById(rows) == rows
    decreases |rows|
  {
    if rows != [] {
      var n := |rows| - 1;
      var prefix := rows[..n];
      assert NoDuplicateIds(prefix);
      FirstByIdOfDistinct(prefix);
      assert prefix + [rows[n]] == rows;
    }
  }

  /** A directory has a row in the join exactly when one of its versions started by `day`. */
  lemma {:induction false} JoinMembers(ds: seq<Directory>, vs: seq<Version>, day: Day, d: Directory)
    ensures d in Join(ds, vs, day) <==> d in ds && HasVersionStartedBy(vs, d, day)
  {
    if ds != [] {
      JoinMembers(ds[1..], vs, day, d);
      var p := (v: Version) => v.directory == ds[0].id && StartedBy(v, day);
      var qualifying := Filter(p, vs);
      var head := seq(|qualifying|, _ => ds[0]);
      var rest := Join(ds[1..], vs, day);
      assert Join(ds, vs, day) == head + rest;
      assert d in ds <==> d == ds[0] || d in ds[1..] by {
        assert ds == [ds[0]] + ds[1..];
      }
      assert d in head <==> d == ds[0] && qualifying != [] by {
        if d in head {
          var k :| 0 <= k < |head| && head[k] == d;
        }
        if d == ds[0] && qualifying != [] {
          assert head[0] == d;
        }
      }
      if d == ds[0] {
        assert qualifying != [] <==> HasVersionStartedBy(vs, d, day);
      }
    }
  }

  /** The ids in the queryset are the ids of the qualifying directories. */
  lemma QuerysetIds(st: Store, date: Option<Day>, id: int)
    ensures HasId(Rows(Queryset(st, date)), id) <==>
      exists d :: d in st.directories && d.id == id && Qualifies(st, d, date)
  {
    var qs := Queryset(st, date);
    var rows := Rows(qs);
    if HasId(rows, id) {
      var k :| 0 <= k < |rows| && rows[k].id == id;
      assert qs[k] in st.directories && qs[k].id == id && Qualifies(st, qs[k], date);
    }
    if exists d :: d in st.directories && d.id == id && Qualifies(st, d, date) {
      var d :| d in st.directories && d.id == id && Qualifies(st, d, date);
      QualifyingInQueryset(st, date, d);
      var k :| 0 <= k < |qs| && qs[k] == d;
      assert rows[k].id == id;
    }
  }

  /** Every qualifying stored directory is in the queryset. */
  lemma QualifyingInQueryset(st: Store, date: Option<Day>, d: Directory)
    requires d in st.directories && Qualifies(st, d, date)
    ensures d in Queryset(st, date)
  {
    if date.Some? {
      JoinMembers(st.directories, st.versions, date.value, d);
    }
  }

  /** Every row in the queryset is the row of a stored directory. */
  lemma QuerysetRows(st: Store, date: Option<Day>, row: DirectoryRow)
    requires row in Rows(Queryset(st, date))
    ensures exists d :: d in st.directories && RowOf(d) == row
  {
    var qs := Queryset(st, date);
    var k :| 0 <= k < |qs| && Rows(qs)[k] == row;
    if date.Some? {
      JoinMembers(st.directories, st.versions, date.value, qs[k]);
    }
  }

  /**
   * The de-duplicated queryset lists each qualifying directory exactly once,
   * as the row of a stored directory; without a date, on a valid store, it is
   * every directory in storage order.
   */
  lemma ListingCorrect(st: Store, date: Option<Day>)
    ensures NoDuplicateIds(FirstById(Rows(Queryset(st, date))))
    ensures forall id :: HasId(FirstById(Rows(Queryset(st, date))), id) <==>
      exists d :: d in st.directories && d.id == id && Qualifies(st, d, date)
    ensures forall row | row in FirstById(Rows(Queryset(st, date))) ::
      exists d :: d in st.directories && RowOf(d) == row
    ensures StoreValid(st) && date.None? ==> FirstById(Rows(Queryset(st, date))) == Rows(st.directories)
  {
    var rows := Rows(Queryset(st, date));
    var refbooks := FirstById(rows);
    FirstByIdNoDuplicates(rows);
    forall id ensures HasId(refbooks, id) <==>
      exists d :: d in st.directories && d.id == id && Qualifies(st, d, date)
    {
      FirstByIdKeepsIds(rows, id);
      QuerysetIds(st, date, id);
    }
    forall row | row in refbooks ensures exists d :: d in st.directories && RowOf(d) == row {
      var k :| 0 <= k < |refbooks| && refbooks[k] == row;
      FirstByIdKeepsFirstOccurrences(rows, k);
      QuerysetRows(st, date, row);
    }
    if StoreValid(st) && date.None? {
      assert NoDuplicateIds(rows) by {
        forall i, j | 0 <= i < j < |rows| ensures rows[i].id != rows[j].id {
          assert st.directories[i].id != st.directories[j].id;
        }
      }
      FirstByIdOfDistinct(rows);
    }
  }

  /** The `any` scan: whether a row already kept has this id, stopping at the first one. */
  method AnyWithId(kept: seq<DirectoryRow>, id: int) returns (seen: bool)
    ensures seen <==> HasId(kept, id)
  {
    seen := false;
    var j := 0;
    while j < |kept| && !seen
      invariant 0 <= j <= |kept|
      invariant seen <==> exists k :: 0 <= k < j && kept[k].id == id
    {
      seen := kept[j].id == id;
      j := j + 1;
    }
  }

  /**
   * The view: iterate over the queryset and append each directory's row
   * unless a row with its id is already in the list.
   */
  method Get(st: Store, date: Option<Day>) returns (refbooks: seq<DirectoryRow>)
    ensures refbooks == FirstById(Rows(Queryset(st, date)))
    ensures NoDuplicateIds(refbooks)
    ensures forall id :: HasId(refbooks, id) <==>
      exists d :: d in st.directories && d.id == id && Qualifies(st, d, date)
    ensures forall row | row in refbooks :: exists d :: d in st.directories && RowOf(d) == row
    ensures StoreValid(st) && date.None? ==> refbooks == Rows(st.directories)
  {
    var directories := Queryset(st, date);
    ghost var rows := Rows(directories);
    var directoryData: seq<DirectoryRow> := [];
    for i := 0 to |directories|
      invariant directoryData == FirstById(rows[..i])
    {
      var data := RowOf(directories[i]);
      var seen := AnyWithId(directoryData, data.id);
      FirstByIdKeepsIds(rows[..i], data.id);
      assert rows[..i + 1][..i] == rows[..i];
      if !seen {
        directoryData := directoryData + [data];
      }
    }
    assert rows[..|directories|] == rows;
    refbooks := directoryData;
    ListingCorrect(st, date);
  }
}
