/**
 * The part of the object-relational mapper's behaviour that the views depend
 * on: `filter`, `get`, the exceptions they raise, and the database's ordering
 * of character columns.
 */
module Orm {

  /** The exceptions a query, or an attribute read on `None`, raises in the views. */
  datatype Exception =
    | DoesNotExist             // `get` or `latest` found no row
    | MultipleObjectsReturned  // `get` found more than one row
    | AttributeError           // an attribute was read from `None`

  /** What `get` yields: the one matching row, or the exception it raises. */
  datatype Fetched<T> = Got(row: T) | Raised(error: Exception)

  /** `filter`: the rows satisfying `p`, in table order. */
  function Filter<T(!new)>(p: T -> bool, s: seq<T>): (r: seq<T>)
    ensures |r| <= |s|
    ensures forall x :: x in r <==> x in s && p(x)
    ensures r == [] <==> forall x | x in s :: !p(x)
  {
    if s == [] then [] else (if p(s[0]) then [s[0]] else []) + Filter(p, s[1..])
  }

  /**
   * A serializer applied to each row of a query, one row after another:
   * the k-th output is the serialized k-th row.
   */
  function Project<T, U>(f: T -> U, s: seq<T>): (r: seq<U>)
    ensures |r| == |s|
    ensures forall k | 0 <= k < |s| :: r[k] == f(s[k])
  {
    if s == [] then [] else [f(s[0])] + Project(f, s[1..])
  }

  /**
   * `get` applied to the rows a filter selected: it returns a row only when
   * that row is the only one, and otherwise raises.
   */
  function Get<T>(rows: seq<T>): (r: Fetched<T>)
    ensures r.Got? ==> rows == [r.row]
  {
    if |rows| == 0 then Raised(DoesNotExist)
    else if |rows| == 1 then Got(rows[0])
    else Raised(MultipleObjectsReturned)
  }

  /** When no two rows both satisfy `p`, a filter by `p` selects at most one row. */
  lemma {:induction false} FilterAtMostOne<T(!new)>(p: T -> bool, s: seq<T>)
    requires forall i, j | 0 <= i < j < |s| :: !(p(s[i]) && p(s[j]))
    ensures |Filter(p, s)| <= 1
  {
    if s != [] {
      var tail := s[1..];
      assert forall i, j | 0 <= i < j < |tail| :: !(p(tail[i]) && p(tail[j])) by {
        forall i, j | 0 <= i < j < |tail| ensures !(p(tail[i]) && p(tail[j])) {
          assert tail[i] == s[i + 1] && tail[j] == s[j + 1];
        }
      }
      FilterAtMostOne(p, tail);
      if p(s[0]) {
        FilterNone(p, tail);
      }
    }
  }

  /** A filter that no row satisfies selects nothing. */
  lemma {:induction false} FilterNone<T(!new)>(p: T -> bool, s: seq<T>)
    requires forall i | 0 <= i < |s| :: !p(s[i])
    ensures Filter(p, s) == []
  {
    if s != [] {
      FilterNone(p, s[1..]);
    }
  }

  /** When a row satisfying `p` is in `s` and no two rows both satisfy it, `get` returns that row. */
  lemma GetUnique<T(!new)>(p: T -> bool, s: seq<T>, x: T)
    requires forall i, j | 0 <= i < j < |s| :: !(p(s[i]) && p(s[j]))
    requires x in s && p(x)
    ensures Get(Filter(p, s)) == Got(x)
  {
    FilterAtMostOne(p, s);
    var rows := Filter(p, s);
    assert x in rows;
  }

  /**
   * The database's order on character columns, taken as a binary collation:
   * lexicographic by code point, a prefix first.
   */
  predicate StringLe(a: string, b: string)
    decreases |a|
  {
    if a == [] then true
    else if b == [] then false
    else if a[0] != b[0] then a[0] < b[0]
    else StringLe(a[1..], b[1..])
  }

  lemma {:induction false} StringLeTotal(a: string, b: string)
    ensures StringLe(a, b) || StringLe(b, a)
    decreases |a|
  {
    if a != [] && b != [] && a[0] == b[0] {
      StringLeTotal(a[1..], b[1..]);
    }
  }

  lemma {:induction false} StringLeTransitive(a: string, b: string, c: string)
    requires StringLe(a, b) && StringLe(b, c)
    ensures StringLe(a, c)
    decreases |a|
  {
    if a != [] && b != [] && c != [] && a[0] == b[0] && b[0] == c[0] {
      StringLeTransitive(a[1..], b[1..], c[1..]);
    }
  }
}
