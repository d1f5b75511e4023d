/**
 * An SQLite table whose key is `INTEGER PRIMARY KEY AUTOINCREMENT`: a map
 * from row id to record, plus the id the next `INSERT` hands out
 * (`cursor.lastrowid`). Ids start at 1 and are never reused, even after a
 * `DELETE`. A `SELECT` without `ORDER BY` walks the rows in id order.
 */
module Store {
  import opened Common

  datatype Row<T> = Row(id: int, value: T)

  datatype Table<T> = Table(rows: map<int, T>, next: int)

  /** Every stored id is below the next id to hand out. */
  predicate Valid<T>(t: Table<T>) {
    t.next >= 1 && forall id :: id in t.rows ==> 1 <= id < t.next
  }

  function Empty<T>(): (t: Table<T>)
    ensures Valid(t) && t.rows == map[]
  {
    Table(map[], 1)
  }

  /** `INSERT`: the new row receives a fresh id, and every existing row stays as it was. */
  function Insert<T>(t: Table<T>, v: T): (r: Table<T>)
    requires Valid(t)
    ensures Valid(r)
    ensures t.next !in t.rows && t.next in r.rows && r.rows[t.next] == v
    ensures r.rows.Keys == t.rows.Keys + {t.next}
    ensures forall id :: id in t.rows ==> r.rows[id] == t.rows[id]
  {
    Table(t.rows[t.next := v], t.next + 1)
  }

  /** The rows with ids `i ..< next`, in id order. */
  function RowsFrom<T>(t: Table<T>, i: int): seq<Row<T>>
    decreases t.next - i
  {
    if i >= t.next then []
    else (if i in t.rows then [Row(i, t.rows[i])] else []) + RowsFrom(t, i + 1)
  }

  lemma {:induction false} RowsFromFacts<T(!new)>(t: Table<T>, i: int)
    ensures var r := RowsFrom(t, i);
      && (forall x :: x in r <==> i <= x.id < t.next && x.id in t.rows && t.rows[x.id] == x.value)
      && (forall a, b :: 0 <= a < b < |r| ==> r[a].id < r[b].id)
      && (forall k :: 0 <= k < |r| ==> i <= r[k].id)
    decreases t.next - i
  {
    if i < t.next {
      RowsFromFacts(t, i + 1);
    }
  }

  /** Every row of the table, in id order; each stored row appears exactly once. */
  function Rows<T(!new)>(t: Table<T>): (r: seq<Row<T>>)
    requires Valid(t)
    ensures forall x :: x in r <==> x.id in t.rows && t.rows[x.id] == x.value
    ensures forall a, b :: 0 <= a < b < |r| ==> r[a].id < r[b].id
    ensures |r| == |t.rows|
  {
    RowsFromFacts(t, 1);
    var r := RowsFrom(t, 1);
    forall id | id in t.rows.Keys ensures exists k :: 0 <= k < |r| && r[k].id == id {
      assert Row(id, t.rows[id]) in r;
    }
    ListingSize(r, t.rows.Keys);
    r
  }

  /** No row id occurs twice. */
  predicate DistinctIds<T>(s: seq<Row<T>>) {
    forall a, b :: 0 <= a < b < |s| ==> s[a].id != s[b].id
  }

  /** A listing without repeated ids whose ids are exactly `ids` has `|ids|` rows. */
  lemma {:induction false} ListingSize<T>(r: seq<Row<T>>, ids: set<int>)
    requires DistinctIds(r)
    requires forall k :: 0 <= k < |r| ==> r[k].id in ids
    requires forall id :: id in ids ==> exists k :: 0 <= k < |r| && r[k].id == id
    ensures |r| == |ids|
  {
    if r == [] {
      assert forall id :: id !in ids;
    } else {
      var t, rest := r[1..], ids - {r[0].id};
      assert forall k :: 0 <= k < |t| ==> t[k] == r[k + 1];
      forall id | id in rest ensures exists k :: 0 <= k < |t| && t[k].id == id {
        var k :| 0 <= k < |r| && r[k].id == id;
        assert t[k - 1].id == id;
      }
      ListingSize(t, rest);
    }
  }

  /** Filtering the rows of a table (`SELECT ... WHERE p`) lists each matching row once. */
  lemma FilterDistinct<T(!new)>(t: Table<T>, p: Row<T> -> bool)
    requires Valid(t)
    ensures DistinctIds(Filter(Rows(t), p))
    ensures forall x :: multiset(Filter(Rows(t), p))[x] <= 1
  {
    var rows := Rows(t);
    var r := Filter(rows, p);
    assert NoDuplicates(rows);
    CountsOfNoDuplicates(rows);
    NoDuplicatesOfCounts(r);
    forall a, b | 0 <= a < b < |r| ensures r[a].id != r[b].id {
      assert r[a] in rows && r[b] in rows;
      assert r[a] != r[b];
    }
  }

  /**
   * A query (`SELECT ... WHERE p ORDER BY le`) lists each matching row once,
   * since sorting only permutes the filtered rows.
   */
  lemma QueryDistinct<T(!new)>(t: Table<T>, p: Row<T> -> bool, le: (Row<T>, Row<T>) -> bool)
    requires Valid(t) && TotalPreorder(le)
    ensures DistinctIds(SortBy(Filter(Rows(t), p), le))
  {
    var rows := Rows(t);
    var r := SortBy(Filter(rows, p), le);
    FilterDistinct(t, p);
    NoDuplicatesOfCounts(r);
    forall a, b | 0 <= a < b < |r| ensures r[a].id != r[b].id {
      assert r[a] in rows && r[b] in rows;
      assert r[a] != r[b];
    }
  }

  /** The row with a given id, as `SELECT ... WHERE id = ?` with `fetch_one`. */
  function Lookup<T>(t: Table<T>, id: int): (r: Option<Row<T>>)
    ensures r.Some? <==> id in t.rows
    ensures r.Some? ==> r.value.id == id && r.value.value == t.rows[id]
  {
    if id in t.rows then Some(Row(id, t.rows[id])) else None
  }

  /** The first row in id order satisfying `p`: `fetch_one` on a query without `ORDER BY`. */
  function First<T>(s: seq<Row<T>>, p: Row<T> -> bool): (r: Option<Row<T>>)
    ensures r.Some? ==> r.value in s && p(r.value)
    ensures r.None? <==> forall k :: 0 <= k < |s| ==> !p(s[k])
  {
    if s == [] then None
    else if p(s[0]) then Some(s[0])
    else First(s[1..], p)
  }
}
