/*
 * A model of `slog`, a fixed-retention time-series log kept in one SQLite
 * file (slog.php). The `logs` table is modelled as the sequence of its rows
 * in insertion (ROWID) order; the `meta` values `length` and `num_columns`
 * are fields of the log object. Whether a backend statement succeeds is not
 * decided here: each such outcome is a boolean parameter of the operation.
 */
module Slog {

  datatype Option<T> = None | Some(value: T)

  /** One row of `logs`: the INTEGER timestamp, then the TEXT value columns. */
  datatype Row = Row(ts: int, vals: seq<string>)

  /** One row of `meta`: a (name, value) pair, both TEXT. */
  datatype MetaRow = MetaRow(name: string, value: string)

  /** Timestamps strictly increase in insertion order. */
  ghost predicate Increasing(rows: seq<Row>) {
    forall i, j :: 0 <= i < j < |rows| ==> rows[i].ts < rows[j].ts
  }

  /** The WHERE clause of `fetch`: a missing bound (PHP `null`) is no bound. */
  predicate InBounds(ts: int, start: Option<int>, end: Option<int>) {
    (start.None? || start.value <= ts) && (end.None? || ts <= end.value)
  }

  // ---------------------------------------------------------------------
  // Queries
  // ---------------------------------------------------------------------

  /**
   * `current`: the row with the highest ROWID, i.e. the last one inserted.
   * Under the ordering invariant it is also the row with the newest timestamp.
   */
  function Current(rows: seq<Row>): (r: Option<Row>)
    ensures r.None? <==> rows == []
    ensures r.Some? ==> r.value in rows
  {
    if rows == [] then None else Some(rows[|rows| - 1])
  }

  /**
   * `fetch`: the rows whose timestamp lies within the optional inclusive
   * bounds, in stored order. The query has no ORDER BY, so SQLite may return
   * the rows in timestamp-index order instead; on a log whose timestamps
   * strictly increase (`Log.Valid`) the two orders agree, which
   * `FetchIncreasing` shows. The `value_at_time` lookup that `fetch` makes
   * when a start is given has its result thrown away, so it contributes
   * nothing here.
   */
  function Fetch(rows: seq<Row>, start: Option<int>, end: Option<int>): (r: seq<Row>)
    ensures |r| <= |rows|
    ensures forall row {:trigger row in r} :: row in r ==> row in rows && InBounds(row.ts, start, end)
    ensures forall row {:trigger row in rows} :: row in rows && InBounds(row.ts, start, end) ==> row in r
    decreases |rows|
  {
    if rows == [] then []
    else
      var last := rows[|rows| - 1];
      var rest := Fetch(rows[..|rows| - 1], start, end);
      assert rows == rows[..|rows| - 1] + [last];
      if InBounds(last.ts, start, end) then rest + [last] else rest
  }

  /**
   * `value_at_time`: the last-inserted row whose timestamp is at most `t`,
   * or no row when every stored timestamp is later than `t`.
   */
  function ValueAtTime(rows: seq<Row>, t: int): (r: Option<Row>)
    ensures r.None? <==> forall i :: 0 <= i < |rows| ==> rows[i].ts > t
    ensures r.Some? ==>
      exists i :: 0 <= i < |rows| && rows[i] == r.value && r.value.ts <= t &&
        forall j :: i < j < |rows| ==> rows[j].ts > t
    decreases |rows|
  {
    if rows == [] then None
    else if rows[|rows| - 1].ts <= t then Some(rows[|rows| - 1])
    else ValueAtTime(rows[..|rows| - 1], t)
  }

  /**
   * The rows that survive `DELETE FROM logs WHERE timestamp < tooOld`:
   * nothing older than `tooOld` is left and nothing else is removed.
   */
  function Expire(rows: seq<Row>, tooOld: int): (r: seq<Row>)
    ensures |r| <= |rows|
    ensures forall row {:trigger row in r} :: row in r ==> row in rows && tooOld <= row.ts
    ensures forall row {:trigger row in rows} :: row in rows && tooOld <= row.ts ==> row in r
    decreases |rows|
  {
    if rows == [] then []
    else
      var last := rows[|rows| - 1];
      var rest := Expire(rows[..|rows| - 1], tooOld);
      assert rows == rows[..|rows| - 1] + [last];
      if last.ts < tooOld then rest else rest + [last]
  }

  // ---------------------------------------------------------------------
  // Properties of the queries
  // ---------------------------------------------------------------------

  /** Filtering keeps stored order: it distributes over concatenation. */
  lemma {:induction false} FetchAppend(a: seq<Row>, b: seq<Row>, start: Option<int>, end: Option<int>)
    ensures Fetch(a + b, start, end) == Fetch(a, start, end) + Fetch(b, start, end)
    decreases |b|
  {
    if b == [] {
      assert a + b == a;
    } else {
      var b' := b[..|b| - 1];
      assert (a + b)[..|a + b| - 1] == a + b';
      assert (a + b)[|a + b| - 1] == b[|b| - 1];
      FetchAppend(a, b', start, end);
    }
  }

  /** A filtered copy of a strictly increasing series is strictly increasing. */
  lemma {:induction false} FetchIncreasing(rows: seq<Row>, start: Option<int>, end: Option<int>)
    requires Increasing(rows)
    ensures Increasing(Fetch(rows, start, end))
    decreases |rows|
  {
    if rows != [] {
      var prefix := rows[..|rows| - 1];
      var last := rows[|rows| - 1];
      var rest := Fetch(prefix, start, end);
      FetchIncreasing(prefix, start, end);
      forall row | row in rest ensures row.ts < last.ts {
        var k :| 0 <= k < |prefix| && prefix[k] == row;
        assert rows[k] == row;
      }
      if InBounds(last.ts, start, end) {
        var s := rest + [last];
        forall i, j | 0 <= i < j < |s| ensures s[i].ts < s[j].ts {
          if j < |rest| {
            assert s[i] == rest[i] && s[j] == rest[j];
          } else {
            assert s[i] in rest;
          }
        }
      }
    }
  }

  /**
   * The DELETE of `update` leaves exactly what `fetch` with start `tooOld`
   * and no end returns.
   */
  lemma {:induction false} ExpireIsFetch(rows: seq<Row>, tooOld: int)
    ensures Expire(rows, tooOld) == Fetch(rows, Some(tooOld), None)
    decreases |rows|
  {
    if rows != [] {
      ExpireIsFetch(rows[..|rows| - 1], tooOld);
    }
  }

  /** Expiry keeps the surviving rows in their original relative order. */
  lemma ExpireAppend(a: seq<Row>, b: seq<Row>, tooOld: int)
    ensures Expire(a + b, tooOld) == Expire(a, tooOld) + Expire(b, tooOld)
  {
    ExpireIsFetch(a + b, tooOld);
    ExpireIsFetch(a, tooOld);
    ExpireIsFetch(b, tooOld);
    FetchAppend(a, b, Some(tooOld), None);
  }

  /** Expiry keeps a strictly increasing series strictly increasing. */
  lemma ExpireIncreasing(rows: seq<Row>, tooOld: int)
    requires Increasing(rows)
    ensures Increasing(Expire(rows, tooOld))
  {
    ExpireIsFetch(rows, tooOld);
    FetchIncreasing(rows, Some(tooOld), None);
  }

  /**
   * `value_at_time(t)` is the last row of `fetch(null, t)`: the step-function
   * lookup agrees with the range query.
   */
  lemma {:induction false} ValueAtTimeIsLastFetched(rows: seq<Row>, t: int)
    ensures var f := Fetch(rows, None, Some(t));
      ValueAtTime(rows, t) == if f == [] then None else Some(f[|f| - 1])
    decreases |rows|
  {
    if rows != [] {
      var prefix, last := rows[..|rows| - 1], rows[|rows| - 1];
      if last.ts <= t {
        assert Fetch(rows, None, Some(t)) == Fetch(prefix, None, Some(t)) + [last];
      } else {
        assert Fetch(rows, None, Some(t)) == Fetch(prefix, None, Some(t));
        ValueAtTimeIsLastFetched(prefix, t);
      }
    }
  }

  /**
   * On a strictly increasing series `value_at_time(t)` holds the value of the
   * newest row at or before `t`.
   */
  lemma ValueAtTimeIsNewestBefore(rows: seq<Row>, t: int)
    requires Increasing(rows)
    ensures var r := ValueAtTime(rows, t);
      r.Some? ==> forall row :: row in rows && row.ts <= t ==> row.ts <= r.value.ts
  {
    var r := ValueAtTime(rows, t);
    if r.Some? {
      var i :| 0 <= i < |rows| && rows[i] == r.value && r.value.ts <= t &&
        forall j :: i < j < |rows| ==> rows[j].ts > t;
      forall row | row in rows && row.ts <= t ensures row.ts <= r.value.ts {
        var k :| 0 <= k < |rows| && rows[k] == row;
        assert k <= i;
      }
    }
  }

  /** On a strictly increasing series the last-inserted row is the newest. */
  lemma CurrentIsNewest(rows: seq<Row>)
    requires Increasing(rows)
    ensures Current(rows).Some? ==> forall row :: row in rows ==> row.ts <= Current(rows).value.ts
  {
    forall row | row in rows ensures row.ts <= rows[|rows| - 1].ts {
      var k :| 0 <= k < |rows| && rows[k] == row;
    }
  }

  /** When no stored row is later than `t`, `value_at_time(t)` is `current`. */
  lemma CurrentIsValueAtLatest(rows: seq<Row>, t: int)
    requires forall i :: 0 <= i < |rows| ==> rows[i].ts <= t
    ensures Current(rows) == ValueAtTime(rows, t)
  {
  }

  // ---------------------------------------------------------------------
  // The insert decision of `update`
  // ---------------------------------------------------------------------

  /**
   * The insert flag as `update` computes it. It starts as "the latest row
   * has no value columns" and the comparison loop can only clear it, so it is
   * true exactly when the log is empty or the latest row has no values.
   */
  predicate InsertsAsCoded(rows: seq<Row>) {
    rows == [] || |rows[|rows| - 1].vals| == 0
  }

  /** The decision the source's comment describes: some value differs. */
  predicate ValuesDiffer(cur: Row, dp: Row) {
    exists i :: 0 <= i < |cur.vals| && i < |dp.vals| && cur.vals[i] != dp.vals[i]
  }

  /**
   * Step 2 of `update` on a non-empty log, as coded: the flag starts as
   * "the latest row `cur` has no value columns" and the comparison loop only
   * ever clears it. So the result never says "insert" for a point that
   * differs from `cur`. When `cur` is wider than `dp` (a log re-created with
   * fewer columns), a missing entry of `dp` reads as PHP `null`, which
   * compares equal to the empty string.
   */
  method DecideInsert(cur: Row, dp: Row) returns (insert: bool)
    ensures insert <==> |cur.vals| == 0
    ensures insert ==> !ValuesDiffer(cur, dp)
  {
    insert := |cur.vals| == 0;
    var i := 0;
    while i < |cur.vals|
      invariant 0 <= i <= |cur.vals|
      invariant insert <==> |cur.vals| == 0
    {
      var v := if i < |dp.vals| then dp.vals[i] else "";
      if cur.vals[i] != v {
        insert := false;
        break;
      }
      i := i + 1;
    }
  }

  /** The table after the insert-or-touch step, before expiry. */
  function AfterInsert(rows: seq<Row>, dp: Row): seq<Row> {
    if InsertsAsCoded(rows) then rows + [dp] else rows
  }

  /**
   * The decision as coded is the opposite of the comment's: in a non-empty
   * log a point whose values differ from the latest row is never inserted,
   * and a point is inserted only when the latest row has no values, so
   * there is nothing that could differ.
   */
  lemma ChangedPointNotInserted(rows: seq<Row>, dp: Row)
    requires rows != []
    ensures ValuesDiffer(rows[|rows| - 1], dp) ==> AfterInsert(rows, dp) == rows
    ensures InsertsAsCoded(rows) ==> !ValuesDiffer(rows[|rows| - 1], dp)
  {
  }

  /**
   * A log created with at least one column holds rows with at least one
   * value each, so once it has a row no `update` appends another.
   */
  lemma NoInsertAfterFirstRow(rows: seq<Row>, numColumns: int, dp: Row)
    requires numColumns >= 2
    requires Widths(rows, numColumns)
    requires rows != []
    ensures AfterInsert(rows, dp) == rows
  {
  }

  /** Every row has `numColumns` fields, the timestamp included. */
  ghost predicate Widths(rows: seq<Row>, numColumns: int) {
    forall i :: 0 <= i < |rows| ==> |rows[i].vals| + 1 == numColumns
  }

  /** Expiry only removes rows, so it keeps every remaining row's width. */
  lemma {:induction false} ExpireKeepsWidths(rows: seq<Row>, numColumns: int, tooOld: int)
    requires Widths(rows, numColumns)
    ensures Widths(Expire(rows, tooOld), numColumns)
    decreases |rows|
  {
    if rows != [] {
      ExpireKeepsWidths(rows[..|rows| - 1], numColumns, tooOld);
    }
  }

  /**
   * A point newer than the latest row keeps timestamps strictly increasing,
   * both after the insert-or-touch step and after expiry.
   */
  lemma StepKeepsIncreasing(rows: seq<Row>, dp: Row, tooOld: int)
    requires Increasing(rows)
    requires rows == [] || rows[|rows| - 1].ts < dp.ts
    ensures Increasing(AfterInsert(rows, dp))
    ensures Increasing(Expire(AfterInsert(rows, dp), tooOld))
  {
    var s := AfterInsert(rows, dp);
    if InsertsAsCoded(rows) {
      forall i, j | 0 <= i < j < |s| ensures s[i].ts < s[j].ts {
        if j == |rows| && i < |rows| - 1 {
          assert rows[i].ts < rows[|rows| - 1].ts;
        }
      }
    }
    ExpireIncreasing(s, tooOld);
  }

  /**
   * A point that passes the width check keeps a table of full-width rows at
   * full width, both after the insert-or-touch step and after expiry.
   */
  lemma StepKeepsWidths(rows: seq<Row>, numColumns: int, dp: Row, tooOld: int)
    requires Widths(rows, numColumns)
    requires |dp.vals| + 1 == numColumns
    ensures Widths(AfterInsert(rows, dp), numColumns)
    ensures Widths(Expire(AfterInsert(rows, dp), tooOld), numColumns)
  {
    ExpireKeepsWidths(AfterInsert(rows, dp), numColumns, tooOld);
  }

  /**
   * On the insert path the new point is the last row after expiry, so
   * `current` returns it, and the table grew by one row less the expired
   * ones (given a non-negative retention length).
   */
  lemma CurrentAfterInsert(rows: seq<Row>, dp: Row, length: int)
    requires length >= 0
    requires InsertsAsCoded(rows)
    ensures Current(Expire(AfterInsert(rows, dp), dp.ts - length)) == Some(dp)
    ensures |Expire(AfterInsert(rows, dp), dp.ts - length)| == |Expire(rows, dp.ts - length)| + 1
  {
    ExpireAppend(rows, [dp], dp.ts - length);
    assert Expire([dp], dp.ts - length) == [dp] by {
      assert [dp][..0] == [];
    }
  }

  // ---------------------------------------------------------------------
  // Loading `meta` (the loop of `open`)
  // ---------------------------------------------------------------------

  /** No later row of `pairs` has the same name as row `i`. */
  predicate LastOfName(pairs: seq<MetaRow>, i: int)
    requires 0 <= i < |pairs|
  {
    forall j :: i < j < |pairs| ==> pairs[j].name != pairs[i].name
  }

  /**
   * Reads the rows of `meta` into a name-to-value map, one assignment per
   * row, so every name is present and a repeated name keeps its last value.
   */
  method ReadMeta(pairs: seq<MetaRow>) returns (meta: map<string, string>)
    ensures forall name :: name in meta <==> exists i :: 0 <= i < |pairs| && pairs[i].name == name
    ensures forall i :: 0 <= i < |pairs| && LastOfName(pairs, i) ==> meta[pairs[i].name] == pairs[i].value
  {
    meta := map[];
    var k := 0;
    while k < |pairs|
      invariant 0 <= k <= |pairs|
      invariant forall name :: name in meta <==> exists i :: 0 <= i < k && pairs[i].name == name
      invariant forall i :: 0 <= i < k && (forall j :: i < j < k ==> pairs[j].name != pairs[i].name) ==>
        pairs[i].name in meta && meta[pairs[i].name] == pairs[i].value
    {
      meta := meta[pairs[k].name := pairs[k].value];
      k := k + 1;
    }
  }

  // ---------------------------------------------------------------------
  // The log object
  // ---------------------------------------------------------------------

  class Log {
    /** The `logs` table, in ROWID order. */
    var rows: seq<Row>
    /** meta `num_columns`: the width of a data point, timestamp included. */
    var numColumns: int
    /** meta `length`: the retention window, in timestamp units. */
    var length: int
    /** How many times `update` refreshed the file's modification time. */
    var touches: nat

    /**
     * Stored timestamps strictly increase. Row width is not part of it: a
     * failed `create` over an existing file changes `numColumns` and keeps
     * the rows of the old width.
     */
    ghost predicate Valid()
      reads this
    {
      Increasing(rows)
    }

    /**
     * A handle on a log whose retention window is `length`. No columns are
     * declared yet, so every data point is refused until `Create`.
     */
    constructor (length: int)
      ensures Valid()
      ensures rows == [] && numColumns == 0 && this.length == length && touches == 0
    {
      rows := [];
      numColumns := 0;
      this.length := length;
      touches := 0;
    }

    /**
     * `create`: refuses an empty column list before touching the backend;
     * otherwise fixes the width at one timestamp plus the declared columns,
     * whatever the schema statements do. `openOk` is whether the file could
     * be opened and `schemaOk` whether every schema statement succeeded; when
     * they do, the `logs` table is new and empty, and when they fail (as on a
     * file that already holds a log) the stored rows stay as they were.
     */
    method Create(columns: seq<string>, openOk: bool, schemaOk: bool) returns (ok: bool)
      requires Valid()
      modifies this
      ensures Valid()
      ensures length == old(length) && touches == old(touches)
      ensures |columns| < 1 || !openOk ==>
        !ok && rows == old(rows) && numColumns == old(numColumns)
      ensures |columns| >= 1 && openOk ==>
        ok == schemaOk && numColumns == |columns| + 1 &&
        rows == (if schemaOk then [] else old(rows))
    {
      if |columns| < 1 {
        return false;
      }
      if !openOk {
        return false;
      }
      numColumns := |columns| + 1;
      if schemaOk {
        rows := [];
      }
      ok := schemaOk;
    }

    /**
     * `update`: records the data point `dp` (its timestamp and its values).
     * `insertOk` and `deleteOk` are whether the INSERT and the DELETE
     * statements succeed.
     */
    method Update(dp: Row, insertOk: bool, deleteOk: bool) returns (ok: bool)
      requires Valid()
      modifies this
      ensures Valid()
      ensures numColumns == old(numColumns) && length == old(length)
      ensures Widths(old(rows), numColumns) ==> Widths(rows, numColumns)
      // a point of the wrong width changes nothing
      ensures |dp.vals| + 1 != numColumns ==>
        !ok && rows == old(rows) && touches == old(touches)
      // a point not newer than the latest row changes nothing
      ensures old(rows) != [] && dp.ts <= old(rows)[|old(rows)| - 1].ts ==>
        !ok && rows == old(rows) && touches == old(touches)
      // a failed insert changes nothing
      ensures |dp.vals| + 1 == numColumns && (old(rows) == [] || old(rows)[|old(rows)| - 1].ts < dp.ts) &&
              InsertsAsCoded(old(rows)) && !insertOk ==>
        !ok && rows == old(rows) && touches == old(touches)
      // otherwise: insert or touch, then expire relative to the new timestamp
      ensures |dp.vals| + 1 == numColumns && (old(rows) == [] || old(rows)[|old(rows)| - 1].ts < dp.ts) &&
              (insertOk || !InsertsAsCoded(old(rows))) ==>
        ok == deleteOk &&
        touches == old(touches) + (if InsertsAsCoded(old(rows)) then 0 else 1) &&
        rows == (if deleteOk then Expire(AfterInsert(old(rows), dp), dp.ts - length)
                 else AfterInsert(old(rows), dp))
    {
      if |dp.vals| + 1 != numColumns {
        return false;
      }
      var insert := true;
      var current := Current(rows);
      if current.Some? {
        assert current.value == rows[|rows| - 1];
        assert current.value in rows;
        // `$ts` and `$cur_ts` of the source: the timestamps of the point
        // and of the latest row.
        if current.value.ts >= dp.ts {
          return false;
        }
        insert := DecideInsert(current.value, dp);
      }
      ok := Store(dp, insert, insertOk, deleteOk);
    }

    /**
     * The rest of `update`, for a point that passed the width and timestamp
     * checks: insert it or touch the file, then delete every row older than
     * the point's timestamp minus the retention length. On an empty log the
     * source never assigns `$ts`; the model uses the point's own timestamp on
     * both paths.
     */
    method Store(dp: Row, insert: bool, insertOk: bool, deleteOk: bool) returns (ok: bool)
      requires Valid()
      requires |dp.vals| + 1 == numColumns
      requires rows == [] || rows[|rows| - 1].ts < dp.ts
      requires insert == InsertsAsCoded(rows)
      modifies this
      ensures Valid()
      ensures numColumns == old(numColumns) && length == old(length)
      ensures Widths(old(rows), numColumns) ==> Widths(rows, numColumns)
      ensures insert && !insertOk ==> !ok && rows == old(rows) && touches == old(touches)
      ensures insertOk || !insert ==>
        ok == deleteOk &&
        touches == old(touches) + (if insert then 0 else 1) &&
        rows == (if deleteOk then Expire(AfterInsert(old(rows), dp), dp.ts - length)
                 else AfterInsert(old(rows), dp))
    {
      StepKeepsIncreasing(rows, dp, dp.ts - length);
      if Widths(rows, numColumns) {
        StepKeepsWidths(rows, numColumns, dp, dp.ts - length);
      }
      if insert {
        if !insertOk {
          return false;
        }
        rows := rows + [dp];
      } else {
        touches := touches + 1;
      }
      if deleteOk {
        rows := Expire(rows, dp.ts - length);
      }
      ok := deleteOk;
    }
  }
}
