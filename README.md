# Reference-book lookup service: a Dafny model of its query layer

The service publishes versioned reference books ("directories", such as a list
of medical specialties) over HTTP. A directory owns versions; a version has a
label and an optional start date and owns elements (a code and a value). Three
read-only endpoints sit on top of three tables:

- the directory listing, optionally restricted to directories with a version
  started by a given date, each directory once;
- the element listing of one version of a directory: the version named by its
  label or, without one, the *current* version (latest start date not after
  today);
- the element check: does that version hold an element with exactly this code
  and value? Without a label, the version checked is the one
  `Directory.get_latest_version` returns (latest start date, with no bound by
  today).

The model keeps the database as one value (`Models.Store`: a sequence per
table, in storage order, with integer ids and foreign keys as ids).
`Models.StoreValid` collects what the model declarations make the database
guarantee: unique primary keys, unique `Directory.code`, existing foreign keys,
`unique_together` (directory, version) and (directory, start_date) on versions
(NULL dates never collide) and (directory_version, element_code) on elements.
The mapper's `filter`, `get` and `latest` are modelled in `Orm` and `Models`
with their exceptions. Each view is a module: `DirectoryView` (a method with
the source's loop), `ElementView` and `CheckElementView` (pure functions
returning a response datatype). The current date and the `date` parameter are
day numbers passed in.

Modelling decisions:

- A query parameter counts as given only when present and non-empty
  (`QueryParams.Present`), as the views' `if param:` tests do.
- `latest("start_date")` orders by start date, descending, with NULL dates
  sorting last (as SQLite and MySQL sort them). It picks a dated version with
  the greatest start date. When every row is undated it falls back to an
  undated one, and it raises `DoesNotExist` only on an empty set. So
  `get_latest_version` returns `None` only for a directory without versions.
- `filter(version__start_date__lte=date)` is a join: the model lists each
  directory once per qualifying version, directories in storage order. The
  database fixes no order here.
- The element order (`ordering` by version, then code) is a stable sort by code.
  Codes compare by code point, as a binary collation does.
- An absent `code` or `value` in the check is `None`. Filtering by `None` means
  `IS NULL`, which no stored element matches.
- An exception a view does not catch is `ServerError(cause)`.

What the proofs pin down about the code as written:

- In `ElementView.get`, `latest()` raises `DoesNotExist` when no version
  started by today, so the view's own "no versions found" 404 is never
  returned (`ElementView.NoCurrentVersion`).
- In `CheckElementView.get`, `get_latest_version` returns `None` for a
  directory without versions, and reading `element_set` from it fails
  (`CheckElementView.NoLatestVersion`). A directory whose versions are all
  undated is checked against one of those versions
  (`CheckElementView.UndatedLatestVersion`).
- The documentation of `get_latest_version` promises the bound "not later than
  today", but the code does not apply it (`Models.GetLatestVersionIgnoresToday`).
  So the two endpoints disagree on the default version
  (`CheckElementView.DefaultVersionRulesDisagree`). They agree when no version
  starts in the future and the directory has a dated version
  (`ElementView.CurrentVersionIsLatestWithoutFutureVersions`). When all its
  versions are undated, the listing has no current version, while the check
  uses an undated one (`CheckElementView.UndatedVersionRulesDisagree`).
- An element that is not found is answered with 400, not 404. The model keeps
  the code's 400 even though a 404 would be consistent with the other not-found
  answers.

Every operation takes the store as a value and is a function, or a method with
no `modifies` clause. So no call changes the store, and equal inputs give
equal outcomes.

## Model

| member | source | states |
|---|---|---|
| `DirectoryView.Get` | medical_site/refbooks/views.py:42-57 | The loop with its `any` scan returns exactly the first row of each id of the queryset, in queryset order. No id appears twice. An id is listed iff a stored directory has it and qualifies (no date; or a version started by the date). Every entry is a stored directory's row. Without a date, on a valid store, the listing is every directory once, in storage order. |
| `DirectoryView.ListingCorrect` | medical_site/refbooks/views.py:45-55 | The de-duplicated queryset has distinct ids and lists exactly the qualifying directories' ids, each entry a stored directory's row. With no date on a valid store it is every directory. |
| `DirectoryView.FirstByIdKeepsIds` | medical_site/refbooks/views.py:50-55 | Keeping first occurrences neither loses an id nor adds one. |
| `DirectoryView.FirstByIdNoDuplicates` | medical_site/refbooks/views.py:50-55 | After de-duplication no two entries share an id, even when the join repeats a directory. |
| `DirectoryView.FirstByIdKeepsFirstOccurrences` | medical_site/refbooks/views.py:50-55 | Every kept entry is an input row that no earlier row shares an id with. |
| `DirectoryView.FirstByIdOfDistinct` | medical_site/refbooks/views.py:50-55 | A list whose ids are already distinct comes out unchanged. |
| `DirectoryView.Join` | medical_site/refbooks/views.py:45-46 | Every row of the date-filtered join is a stored directory with a version started by the date. |
| `DirectoryView.Queryset` | medical_site/refbooks/views.py:45-48 | Every row the view iterates is a stored directory that qualifies for the optional date. |
| `DirectoryView.AnyWithId` | medical_site/refbooks/views.py:54 | The `any` scan answers true iff a row already kept has the directory's id. |
| `DirectoryView.QualifyingInQueryset` | medical_site/refbooks/views.py:45-48 | Every stored directory that qualifies for the optional date is among the rows the view iterates. |
| `DirectoryView.JoinMembers` | medical_site/refbooks/views.py:45-46 | A directory appears in the date-filtered join iff it is stored and one of its versions has a non-NULL start date on or before the date. |
| `DirectoryView.QuerysetIds` | medical_site/refbooks/views.py:45-48 | An id occurs in the queryset iff a stored directory with that id qualifies for the optional date. |
| `DirectoryView.QuerysetRows` | medical_site/refbooks/views.py:45-48 | Every row of the queryset is the row of a stored directory. |
| `ElementView.Get` | medical_site/refbooks/views.py:97-130 | `DirectoryNotFound` iff no directory has the id. `VersionNotFound` only when a label was given. A listing is always the elements of some version of that directory. |
| `ElementView.ElementRowsOfVersion` | medical_site/refbooks/views.py:127-130 | The listed rows are exactly the rows of the elements whose version is the resolved one, as many as it has, sorted by code. |
| `ElementView.UnknownDirectory` | medical_site/refbooks/views.py:100-103 | A nonexistent directory id gives `DirectoryNotFound` (404), whatever the version parameter and the date. |
| `ElementView.UnknownVersionLabel` | medical_site/refbooks/views.py:105-114 | Under an existing directory on a valid store, the answer is `VersionNotFound` iff a label is given and no version of the directory has it. |
| `ElementView.ExplicitVersion` | medical_site/refbooks/views.py:105-110 | A given label lists exactly the elements of the version with that label, whatever the date. |
| `ElementView.CurrentVersion` | medical_site/refbooks/views.py:116-118 | Without a label, the listed version is the directory's version with the greatest start date on or before today. |
| `ElementView.NoCurrentVersion` | medical_site/refbooks/views.py:116-125 | Without a label and with no version started by today, the result is an uncaught `DoesNotExist`, not the 404 of lines 120-124. |
| `ElementView.CurrentVersionIsLatestWithoutFutureVersions` | medical_site/refbooks/views.py:116-118 | When no version of the directory starts after today and it has a dated version, the bounded and the unbounded latest version are the same. When all its versions are undated, the bounded query finds nothing, while `get_latest_version` returns `None` only if there is no version at all. |
| `ElementView.CurrentCandidates` | medical_site/refbooks/views.py:116-117 | The bounded query keeps exactly the directory's versions whose start date is non-NULL and on or before today. |
| `ElementView.ElementRows` | medical_site/refbooks/views.py:127-128 | A version's listing has one row per element of that version, in ascending code order. |
| `CheckElementView.Get` | medical_site/refbooks/views.py:185-214 | `DirectoryNotFound` iff no directory has the id. `VersionNotFound` only when a label was given. `Found` only when a version of that directory holds an element with exactly that code and value. |
| `CheckElementView.FindElementIsMembership` | medical_site/refbooks/views.py:207-214 | On a valid store, `Found` iff the version has an element with exactly this code and value. Otherwise the answer is `ElementNotFound` with status 400. |
| `CheckElementView.UnknownDirectory` | medical_site/refbooks/views.py:190-195 | A nonexistent directory id gives `DirectoryNotFound` (404), whatever the other parameters. |
| `CheckElementView.UnknownVersionLabel` | medical_site/refbooks/views.py:197-203 | Under an existing directory on a valid store, the answer is `VersionNotFound` iff a label is given and no version of the directory has it. |
| `CheckElementView.ExplicitVersion` | medical_site/refbooks/views.py:197-200 | A given label checks exactly the version with that label. |
| `CheckElementView.LatestVersion` | medical_site/refbooks/views.py:204-205 | Without a label, the checked version is the directory's version with the greatest start date, future dates included. |
| `CheckElementView.NoLatestVersion` | medical_site/refbooks/views.py:204-208 | Without a label, for a directory with no version at all, the request fails with an `AttributeError` on `None`. |
| `CheckElementView.UndatedLatestVersion` | medical_site/refbooks/views.py:204-208 | Without a label, for a directory whose versions are all undated, the check runs on one of those versions. That version belongs to the directory. |
| `CheckElementView.FindElement` | medical_site/refbooks/views.py:207-214 | The lookup answers `Found`, `ElementNotFound` or a `MultipleObjectsReturned` error. `Found` only when the version holds an element with exactly that code and value. `ElementNotFound` iff it holds none. |
| `CheckElementView.UndatedVersionRulesDisagree` | medical_site/refbooks/views.py:204-205 | For one directory whose only version is undated: on any day the listing's bounded query (lines 116-118) fails, while the check finds the version's element. |
| `CheckElementView.DefaultVersionRulesDisagree` | medical_site/refbooks/views.py:205 | For one directory whose only version starts on day 100: on day 50 the listing fails, while the check finds the version's element. |
| `Models.LatestByStartDate` | medical_site/refbooks/models.py:25 | `latest("start_date")` yields nothing iff there are no rows. It picks one of the rows. A dated pick's start date is at least every other dated row's. An undated pick happens only when no row is dated. |
| `Models.GetLatestVersion` | medical_site/refbooks/models.py:16-28 | `None` iff the directory has no version. A returned version belongs to the directory. If it is dated, its start date is at least that of every dated version of the directory. It is undated only when all of the directory's versions are. |
| `Models.GetLatestVersionWithoutVersions` | medical_site/refbooks/models.py:27-28 | A directory without versions gets `None`. |
| `Models.GetLatestVersionIgnoresToday` | medical_site/refbooks/models.py:17-25 | Unlike its documented bound, `get_latest_version` returns a version that starts after today. |
| `Models.GetLatestVersionIsTheMaximum` | medical_site/refbooks/models.py:24-26 | On a valid store, the returned version is the directory's latest-dated version. The result is determined. |
| `Models.StartDateIdentifiesVersion` | medical_site/refbooks/models.py:56 | On a valid store, two versions of one directory with the same non-NULL start date are the same version. |
| `Models.LatestIsTheMaximum` | medical_site/refbooks/models.py:54-57 | On a valid store, a query's version whose start date is at least all others' is the one `latest` returns, so both resolution rules are deterministic. |
| `Models.VersionByLabel` | medical_site/refbooks/models.py:55 | On a valid store, looking up a directory's version by label finds exactly the one version with that label. |
| `Models.DirectoryById` | medical_site/refbooks/models.py:7 | On a valid store, `get(id=…)` finds exactly the directory with that primary key. |
| `Models.DirectoryOfVersion` | medical_site/refbooks/models.py:40-42 | On a valid store, the directory a version points to exists. |
| `Models.OrderByCode` | medical_site/refbooks/models.py:84 | The default element order is sorted by code and is a permutation of the query's rows. |
| `Models.StoreValid` | medical_site/refbooks/models.py:54-57 | The database invariant: the version constraints here, with NULL start dates never colliding, plus unique primary keys and directory codes (lines 7-10), existing foreign keys (lines 40-42 and 65-69) and the element constraint (line 81). |
| `Models.InsertByCodeSorted` | medical_site/refbooks/models.py:84 | Inserting an element into a list sorted by code keeps it sorted. |
| `Models.InsertByCodePermutes` | medical_site/refbooks/models.py:84 | Inserting adds exactly that element. |
| `Orm.FilterAtMostOne` | medical_site/refbooks/models.py:81 | A filter selects at most one row when no two rows both satisfy it. This is how each `unique_together` makes a `get` return at most one row. |
| `QueryParams.Present` | medical_site/refbooks/views.py:105 | A query parameter counts as given iff it is present and non-empty, as Python's truth test on a string; the same test is at lines 45 and 197. |
| `Scenarios.FixtureElements` | medical_site/refbooks/tests.py:25-30 | For the test fixture (one version starting today, one element), the default listing is that one element. |
| `Scenarios.FixtureCheck` | medical_site/refbooks/tests.py:32-41 | For the test fixture, checking the element's own code and value without a version gives `Found`. |
| `Scenarios.FixtureDirectories` | medical_site/refbooks/tests.py:19-23 | For the test fixture, the listing without a date is the one directory. |

## Left out

- The `index` HTML view, the admin panel (`admin.py`), URL routing and the API-documentation decorators are left out. They hold no query logic the endpoints use.
- HTTP requests, responses and message texts are left out. Each endpoint returns a response datatype; `Status` gives the status code.
- Parsing the `date` query string is left out. A malformed date raises in the database layer; the model takes the date as a day number.
- `timezone.now()` is not called: today is a parameter, a day number. The time of day and time zones are not modelled.
- Serializers are left out; the model projects rows to `{id, code, name}` and `{element_code, element_value}`.
- `blank=False` and `max_length` are form and column checks on data entry. The read path never relies on them, so they are not modelled.
- `Directory.code` uniqueness is part of `Models.StoreValid`, but no operation looks a directory up by code, so no lemma uses it.
- Version's `ordering` (by directory, then label) is not modelled. No endpoint lists versions, and `latest` overrides the ordering.
- `Models.LatestByStartDate`: NULL start dates sort last. A database that sorts NULLs first under descending order (PostgreSQL) picks an undated version even when dated ones exist. Among several undated versions, the one picked depends on storage order.
- `DirectoryView.Get`: the row order of the join is the model's choice (directory-major). The database fixes no order.
- Concurrency of request handling and query compilation are left out. The store is a value; writes come only from administrative data entry, which is outside this model.
