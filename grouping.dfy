/**
 * `GROUP BY value` with `COUNT(*) AS clicks`, then `ORDER BY … DESC` and an
 * optional `LIMIT`: the shape shared by every facet query of the analytics.
 */
module Grouping {

  import opened Wrappers
  import Seqs

  /** One result row: a grouped value and the number of rows that carry it. */
  datatype Row<T> = Row(value: T, clicks: nat)

  function RowClicks<T>(r: Row<T>): int {
    r.clicks
  }

  /** One row per key, counting the key's occurrences in `vs`. */
  function Tally<T(==)>(keys: seq<T>, vs: seq<T>): (r: seq<Row<T>>)
    ensures |r| == |keys|
    ensures forall i :: 0 <= i < |keys| ==> r[i] == Row(keys[i], multiset(vs)[keys[i]])
  {
    if keys == [] then [] else [Row(keys[0], multiset(vs)[keys[0]])] + Tally(keys[1..], vs)
  }

  /** `GROUP BY` over the values `vs`, in no particular order. */
  function GroupBy<T(==)>(vs: seq<T>): seq<Row<T>> {
    Tally(Seqs.Distinct(vs), vs)
  }

  /** Rows of a `GROUP BY` whose count is determined by the value, with distinct values. */
  ghost predicate Counted<T>(rows: seq<Row<T>>, vs: seq<T>) {
    && (forall i :: 0 <= i < |rows| ==> rows[i].value in vs && rows[i].clicks == multiset(vs)[rows[i].value])
    && (forall i, j :: 0 <= i < j < |rows| ==> rows[i].value != rows[j].value)
  }

  /** Every value of `vs` has a row. */
  ghost predicate Covers<T>(rows: seq<Row<T>>, vs: seq<T>) {
    forall k :: 0 <= k < |vs| ==> Row(vs[k], multiset(vs)[vs[k]]) in rows
  }

  /** Some row carries the value `v`. */
  ghost predicate HasRow<T>(rows: seq<Row<T>>, v: T) {
    exists i :: 0 <= i < |rows| && rows[i].value == v
  }

  /** Every row counts a value of `vs`, no value has two rows and every value has one. */
  lemma GroupBySpec<T>(vs: seq<T>)
    ensures Counted(GroupBy(vs), vs)
    ensures Covers(GroupBy(vs), vs)
  {
    var keys := Seqs.Distinct(vs);
    var rows := GroupBy(vs);
    forall k | 0 <= k < |vs| ensures Row(vs[k], multiset(vs)[vs[k]]) in rows {
      var i :| 0 <= i < |keys| && keys[i] == vs[k];
      assert rows[i] == Row(vs[k], multiset(vs)[vs[k]]);
    }
  }

  /** Rows with distinct values are distinct rows. */
  lemma CountedNoDup<T>(rows: seq<Row<T>>, vs: seq<T>)
    requires Counted(rows, vs)
    ensures Seqs.NoDup(rows)
  {
  }

  /** A duplicate-free reordering of counted rows is counted, and loses no row. */
  lemma {:induction false} ReorderCounted<T>(rows: seq<Row<T>>, sorted: seq<Row<T>>, vs: seq<T>)
    requires Counted(rows, vs) && Seqs.NoDup(sorted)
    requires multiset(sorted) == multiset(rows)
    ensures Counted(sorted, vs)
    ensures forall i :: 0 <= i < |rows| ==> rows[i] in sorted
  {
    forall i | 0 <= i < |sorted|
      ensures sorted[i].value in vs && sorted[i].clicks == multiset(vs)[sorted[i].value]
    {
      assert sorted[i] in multiset(rows);
      var m :| 0 <= m < |rows| && rows[m] == sorted[i];
    }
    forall i | 0 <= i < |rows| ensures rows[i] in sorted {
      assert rows[i] in multiset(rows);
    }
  }

  /** The sorted `GROUP BY` rows: keys never increase, rows are counted and every value has one. */
  lemma {:induction false} SortedGroups<T>(vs: seq<T>, key: Row<T> -> int, sorted: seq<Row<T>>)
    requires sorted == Seqs.SortDesc(GroupBy(vs), key)
    ensures Seqs.SortedDesc(sorted, key)
    ensures Counted(sorted, vs) && Covers(sorted, vs)
  {
    var rows := GroupBy(vs);
    GroupBySpec(vs);
    CountedNoDup(rows, vs);
    Seqs.SortDescSpec(rows, key);
    ReorderCounted(rows, sorted, vs);
    forall k | 0 <= k < |vs| ensures Row(vs[k], multiset(vs)[vs[k]]) in sorted {
      var m :| 0 <= m < |rows| && rows[m] == Row(vs[k], multiset(vs)[vs[k]]);
      assert rows[m] in sorted;
    }
  }

  /** `ORDER BY key DESC` over the `GROUP BY` rows, then `LIMIT n` when a limit is given. */
  function Ranked<T(==)>(vs: seq<T>, key: Row<T> -> int, limit: Option<nat>): seq<Row<T>> {
    var sorted := Seqs.SortDesc(GroupBy(vs), key);
    match limit
    case None => sorted
    case Some(n) => Seqs.Take(sorted, n)
  }

  /**
   * A value of `vs` that has no row in `r` was cut off by the limit: `r` is
   * full and every row in it ranks at least as high as the missing one.
   */
  ghost predicate TopRows<T>(r: seq<Row<T>>, vs: seq<T>, key: Row<T> -> int, limit: Option<nat>) {
    forall k :: 0 <= k < |vs| ==>
      HasRow(r, vs[k]) ||
      (limit.Some? && |r| == limit.value && forall i :: 0 <= i < |r| ==> key(r[i]) >= key(Row(vs[k], multiset(vs)[vs[k]])))
  }

  /** A prefix of counted rows is counted. */
  lemma PrefixCounted<T>(r: seq<Row<T>>, sorted: seq<Row<T>>, vs: seq<T>)
    requires Counted(sorted, vs) && r <= sorted
    ensures Counted(r, vs)
  {
    assert forall i :: 0 <= i < |r| ==> r[i] == sorted[i];
  }

  /** One value of `vs` either has a row in the cut or ranks no higher than every row kept. */
  lemma {:induction false} TopOfSortedAt<T>(sorted: seq<Row<T>>, r: seq<Row<T>>, vs: seq<T>, key: Row<T> -> int, limit: Option<nat>, k: nat)
    requires Seqs.SortedDesc(sorted, key) && Covers(sorted, vs) && k < |vs|
    requires r == match limit case None => sorted case Some(n) => Seqs.Take(sorted, n)
    ensures HasRow(r, vs[k]) ||
      (limit.Some? && |r| == limit.value && forall i :: 0 <= i < |r| ==> key(r[i]) >= key(Row(vs[k], multiset(vs)[vs[k]])))
  {
    Seqs.TakeDominates(sorted, if limit.Some? then limit.value else |sorted|, key);
    var j :| 0 <= j < |sorted| && sorted[j] == Row(vs[k], multiset(vs)[vs[k]]);
    if j < |r| {
      assert r[j] == sorted[j];
    } else {
      assert limit.Some? && |r| == limit.value;
      forall i | 0 <= i < |r| ensures key(r[i]) >= key(sorted[j]) {
        assert r[i] == sorted[i];
      }
    }
  }

  /** Cutting a sorted, covering sequence of rows at the limit leaves the top rows. */
  lemma TopOfSorted<T>(sorted: seq<Row<T>>, r: seq<Row<T>>, vs: seq<T>, key: Row<T> -> int, limit: Option<nat>)
    requires Seqs.SortedDesc(sorted, key) && Covers(sorted, vs)
    requires r == match limit case None => sorted case Some(n) => Seqs.Take(sorted, n)
    ensures TopRows(r, vs, key, limit)
  {
    forall k | 0 <= k < |vs| {
      TopOfSortedAt(sorted, r, vs, key, limit, k);
    }
  }

  /**
   * What the ranked query returns: at most `limit` rows, keys never increasing,
   * each row counting the occurrences of its own value and no value twice,
   * and no value missing unless the limit cut it off.
   */
  lemma {:induction false} RankedSpec<T>(vs: seq<T>, key: Row<T> -> int, limit: Option<nat>, r: seq<Row<T>>)
    requires r == Ranked(vs, key, limit)
    ensures limit.Some? ==> |r| <= limit.value
    ensures Seqs.SortedDesc(r, key)
    ensures Counted(r, vs)
    ensures TopRows(r, vs, key, limit)
  {
    var sorted := Seqs.SortDesc(GroupBy(vs), key);
    SortedGroups(vs, key, sorted);
    assert r <= sorted;
    PrefixCounted(r, sorted, vs);
    TopOfSorted(sorted, r, vs, key, limit);
  }
}
