# slog — a fixed-retention time-series log, modelled in Dafny

`slog` keeps one time series in an SQLite file: a `meta` table holding the
retention `length` and the row width `num_columns`, and a `logs` table holding
one row per stored data point (an integer timestamp and text value columns).
Callers `create` or `open` a log, push data points with `update`, and read it
back with `current`, `value_at_time` and `fetch`.

`slog.dfy` (module `Slog`) models the `slog` class of `slog.php`:

- The `logs` table is a `seq<Row>` in insertion (ROWID) order, with
  `Row(ts: int, vals: seq<string>)`.
- The read-only queries are functions over that sequence:
  - `Current` models `current`.
  - `ValueAtTime` is the step-function lookup of `value_at_time`.
  - `Fetch` is the range query of `fetch`.
  - `Expire` is the rows left by the `DELETE ... WHERE timestamp < too_old` of `update`.
- The object is the class `Log`. Its fields are:
  - `rows`;
  - `numColumns` and `length`, the two `meta` values;
  - `touches`, which counts how often the file's modification time was refreshed.
- `Log.Update` mirrors `update` step by step:
  - the width check;
  - the strictly-increasing timestamp check;
  - the insert decision, `DecideInsert`, which is the source's flag loop;
  - `Log.Store`, the insert-or-touch and the expiry.
- The class invariant `Valid()` says that stored timestamps strictly
  increase. Row width is not part of it, because a failed `create` over an
  existing log changes `num_columns` in memory and keeps the rows of the old
  width. `Log.Update` instead keeps the width property `Widths` (every row has
  `numColumns` fields, the timestamp included) whenever it held before.
- Whether a backend statement succeeds is a boolean parameter of the operation:
  - `openOk` and `schemaOk` for `create`;
  - `insertOk` and `deleteOk` for `update`.

Behaviour of the code that the model keeps deliberately:

- **The insert flag.** The comment at slog.php:96-97 says a point is inserted
  when it differs from the latest row. The code does something else. It sets
  the flag to `count($current) ? false : true`, and its loop can only clear
  the flag. So a point is inserted only when the log is empty or when the
  latest row has no value columns.
  - `create` demands at least one column, so once a log holds a row, no later
    `update` appends another. Every later update only touches the file and
    runs expiry. `ChangedPointNotInserted` and `NoInsertAfterFirstRow` state
    this.
  - A log with rows at 10, 20 and 30 therefore cannot arise from three updates
    at 10, 20 and 30. At most the first point could be stored, and as written
    even that INSERT is malformed (see the next point).
  - The comment's intent is kept only as the predicate `ValuesDiffer`.
- **`$ts` on an empty log.** `$ts` is assigned only when there is a current
  row (slog.php:88). The model uses the point's own timestamp for the insert
  and for expiry on both paths. In the source, the first INSERT is built with
  an empty timestamp and the point still holds its timestamp. That statement
  is malformed SQL. The model covers it by `insertOk = false`.
- **Row width.** `num_columns = count($columns) + 1` counts the timestamp plus
  the declared columns. That is exactly `count($dp)` for a full data point, so
  the width check is consistent and is not an off-by-one.
- **The discarded lookup in `fetch`.** `fetch` calls `value_at_time($start)`
  and throws the result away (slog.php:133-134). `Fetch` returns only the
  ranged rows.
- **A failed re-create.** `create` sets `num_columns` in memory before it
  runs the schema statements (slog.php:63). On a file that already holds a
  log, `CREATE TABLE meta` fails, yet the new width stays in memory and the
  old rows keep their old width. `Log.Create` does the same.
- **Fetch order.** The `fetch` query has no ORDER BY. `Fetch` returns rows in
  stored (ROWID) order. SQLite may instead use the timestamp index, but on a
  strictly increasing log the two orders agree (`FetchIncreasing`).
- **Comparisons.** PHP's loose comparisons are modelled as integer order on
  timestamps and string equality on values.

## Model

| member | source | states |
|---|---|---|
| `Slog.Current` | slog.php:73-78 | there is no current row exactly when the log is empty, and the current row is a stored row |
| `Slog.CurrentIsNewest` | slog.php:73-78 | on a strictly increasing log the last-inserted row has the greatest timestamp |
| `Slog.CurrentIsValueAtLatest` | slog.php:153-159 | when no row is later than `t`, `value_at_time(t)` equals `current()` |
| `Slog.ValueAtTime` | slog.php:151-160 | the result is "no row" exactly when every timestamp is later than `t`; otherwise it is a stored row with timestamp at most `t`, and every row inserted after it is later than `t` |
| `Slog.ValueAtTimeIsLastFetched` | slog.php:153-159 | `value_at_time(t)` is the last row of `fetch(null, t)`, or "no row" when that fetch is empty |
| `Slog.ValueAtTimeIsNewestBefore` | slog.php:153-159 | on a strictly increasing log, `value_at_time(t)` has the greatest timestamp among rows at or before `t` |
| `Slog.Fetch` | slog.php:127-148 | a row is returned exactly when it is stored and lies within the inclusive bounds, a missing bound being unbounded; no more rows than stored |
| `Slog.FetchAppend` | slog.php:145-148 | fetching distributes over concatenation, so stored (ROWID) order is kept; the query has no ORDER BY, and this order is the timestamp order only because stored timestamps strictly increase (`FetchIncreasing`) |
| `Slog.FetchIncreasing` | slog.php:137-148 | a fetch from a strictly increasing log is strictly increasing |
| `Slog.Expire` | slog.php:120-122 | after the delete no row is older than `too_old`, and every stored row at or after `too_old` is kept |
| `Slog.ExpireIsFetch` | slog.php:121-122 | the rows the delete keeps are exactly `fetch(too_old, null)` |
| `Slog.ExpireAppend` | slog.php:120-122 | expiry keeps surviving rows in their original relative order |
| `Slog.ExpireIncreasing` | slog.php:120-122 | expiry keeps strictly increasing timestamps strictly increasing |
| `Slog.ExpireKeepsWidths` | slog.php:120-122 | expiry keeps every remaining row at the declared width |
| `Slog.DecideInsert` | slog.php:96-103 | as coded, the flag is true exactly when the latest row has no value columns, and it is never true for a point whose values differ; this holds for any widths, a missing entry of the point reading as `null` |
| `Slog.ChangedPointNotInserted` | slog.php:96-117 | in a non-empty log, a point that differs from the latest row is not appended; a point is appended only when nothing could differ |
| `Slog.NoInsertAfterFirstRow` | slog.php:98-112 | with at least one declared column, a non-empty log is never appended to |
| `Slog.StepKeepsIncreasing` | slog.php:89-122 | a point newer than the latest row keeps timestamps strictly increasing, after the insert-or-touch step and after expiry |
| `Slog.StepKeepsWidths` | slog.php:82-122 | a point passing the width check keeps a full-width table at full width, after the insert-or-touch step and after expiry |
| `Slog.CurrentAfterInsert` | slog.php:106-122 | on the insert path with `length >= 0`, `current()` afterwards returns the new point, and the log holds one row more than the expired old log |
| `Slog.ReadMeta` | slog.php:47-50 | every name in `meta` is a key of the map and nothing else is, and each name maps to the value of its last row |
| `Slog.Log.constructor` | slog.php:33-36 | a new handle has an empty table, no declared width and the given retention length |
| `Slog.Log.Create` | slog.php:54-71 | an empty column list, or a failed open, fails and changes nothing; otherwise `num_columns` becomes the column count plus one whether or not the schema statements succeed, success is that of the schema statements, and the table is new and empty on success and unchanged on failure |
| `Slog.Log.Update` | slog.php:80-123 | a wrong-width point, a point not newer than the latest row, or a failed insert fails and changes nothing; otherwise the point is appended (when the flag says so) or the file touched, then rows older than the new timestamp minus `length` are deleted; strictly increasing timestamps are kept, and so is full row width when it held before |
| `Slog.Log.Store` | slog.php:106-122 | the insert-or-touch step followed by the expiry delete, with the new table stated exactly, strictly increasing timestamps kept, and full row width kept when it held before |

## Left out

- `open` (slog.php:38-52): the file-existence check and the opening of the handle are I/O. `ReadMeta` models its loading loop. It returns the map instead of storing it, because `Log` keeps `length` and `num_columns` as integers, and parsing the stored text is not modelled. `ReadMeta` starts from an empty map, while the source assigns into the object's existing `meta`. That `meta` may already hold `num_columns` when `create` ran on the same object, and a name missing from the file then keeps its in-memory value.
- `create` never stores `length` in the in-memory `meta` (only in the file). `Log` instead takes the retention length when it is constructed.
- `Log.Create`: `create` writes the two `meta` rows and may leave a partial schema behind when a statement fails. The model keeps only `num_columns` and the rows: an empty table when every schema statement succeeds, the old rows otherwise. The misquoted `num_columns` INSERT (slog.php:70) is one of the statements covered by `schemaOk`.
- SQL text and projection onto named columns (the `$columns` parameters of `current`, `fetch` and `value_at_time`) are not modelled, because they are only string building. Every query returns whole rows.
- Whether SQLite accepts a statement is a boolean parameter. This includes the malformed first INSERT.
- `touch` is represented only by the `touches` counter. The file system is not modelled.
- Concurrent writers and transactions are not modelled. The code has neither.
