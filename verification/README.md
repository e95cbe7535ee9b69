# tempmon telemetry core in Dafny

A model of the server-side logic of tempmon, a Raspberry Pi temperature,
humidity and pressure monitor. The model covers three pieces of `app.js`:

- **History query** (`GET /api/data/longterm`, `getLongtermData`). The
  `range` query parameter is normalised with JavaScript's `isNaN` and
  `parseInt`. The rows logged after `now - range * 3600` are then selected
  oldest first and returned as four parallel arrays (`times`, `temp`,
  `humidity`, `pressure`). Module `RangeParam` models `isNaN` (the
  ECMAScript StringNumericLiteral grammar) and `parseInt` over strings.
  Module `History` models the selection, its ordering and the projection.
- **Log step** (`logData`, run every five minutes). It deletes every row
  older than three days (259200 s). Then, if the sensor read succeeded, it
  inserts one row stamped with the current time. The new row gets the next
  AUTOINCREMENT id. Modules `Store` and `Retention` model this.
- **OpenWeatherMap cache** (`owm_cache`, `getOutdoorData`). A single cell
  `{expires, data}` answers hits with `cached = true` and
  `next_update = expires - now`. A miss asks upstream. A response with
  `cod == 200` refills the cell for 300 s. Any failure answers `null` and
  leaves the cell alone. Module `OutdoorCache` models this.

The table is a `seq<Row>` plus the largest id ever assigned, which is
SQLite's `sqlite_sequence` entry. The clock is a parameter `now` in whole
seconds. The sensor outcome is an `Option<Reading>` (`None` for a failed
read). The upstream weather request is an `Upstream` value: a parsed body
with its `cod`, or `Thrown`. Sensor and weather values are opaque (`real`,
compared only for equality). The `H:mm` time label is a function parameter
`timeLabel`.

Behaviour of the code worth noting, which the model keeps:

- `range` is not clamped to positive hours. A negative value passes
  through, and the query then selects only rows stamped in the future.
- Two cache calls in the same second both report `next_update == 300`.
  The countdown goes down strictly only once the clock has moved
  (`OutdoorCache.OneFetchWithinTtl`).

## Model

| member | source | states |
|---|---|---|
| RangeParam.NormaliseRange | app.js:109-114 | The handler's range as written. It can be NaN only for text that passes the `isNaN` guard. |
| RangeParam.DecimalRoundTrip | app.js:109-114 | The decimal text of any integer normalises back to that integer, in both the as-written and the corrected normalisation. Negative values are not clamped. |
| RangeParam.ParseIntOfDecimalText | app.js:113 | `parseInt` reads back the integer from its decimal text when the text is followed by anything that does not continue the number. |
| RangeParam.IntegerPartOnly | app.js:113 | Numeric text with a fraction or an exponent after the integer part yields the integer part: "1.7" gives 1, "-1.7" gives -1, "1e3" gives 1. `parseInt` truncates before `Math.round` sees the value. |
| RangeParam.FractionTruncates | app.js:109-114 | Any integer followed by a point and decimal digits normalises to the integer, truncated toward zero: "-1.7" gives -1, where rounding the number would give -2. |
| RangeParam.DecimalFractionIsNumber | app.js:110 | Such text always passes the `isNaN` guard. |
| RangeParam.DecimalTextIsNumber | app.js:110 | The decimal text of any integer passes the `isNaN` guard. |
| RangeParam.FractionExample | app.js:113 | The text "1.7" normalises to 1. |
| RangeParam.NonNumericIsDefault | app.js:110-111 | Text whose first non-blank character cannot start a numeric literal normalises to the 24-hour default. |
| RangeParam.EmptyRangeIsNaN | app.js:110-113 | The empty text passes the `isNaN` guard, and `parseInt` then gives NaN. |
| RangeParam.InfinityRangeIsNaN | app.js:110-113 | "Infinity" passes the `isNaN` guard, and `parseInt` then gives NaN. |
| RangeParam.FractionRangeIsNaN | app.js:110-113 | ".5" passes the `isNaN` guard, and `parseInt` then gives NaN. |
| RangeParam.ParseInt | app.js:113 | `parseInt` yields a number only from text that contains a decimal digit. |
| RangeParam.IsNaNText | app.js:110 | Text made only of white space is a number (0) to `isNaN`. |
| RangeParam.LeadingSpaceIgnored | app.js:110-113 | Leading white space changes neither `isNaN` nor `parseInt`. |
| RangeParam.ParseIntSign | app.js:113 | After white space, one `+` leaves `parseInt`'s result unchanged and one `-` negates it. |
| RangeParam.BlankRangeIsNaN | app.js:110-113 | Any text of white space only passes the `isNaN` guard, and `parseInt` then gives NaN. |
| RangeParam.HexLiteral | app.js:113 | `parseInt` reads a `0x` prefix: "0x1A" gives 26. |
| RangeParam.SignedHexIsDefault | app.js:110-113 | "-0x10" is NaN to `isNaN` although `parseInt` reads -16, so the range is the 24-hour default. |
| RangeParam.BinaryLiteralIsZero | app.js:110-113 | "0b11" is a number to `isNaN`, but `parseInt` reads only its leading zero, so the range is 0. |
| RangeParam.RangeHours | app.js:109-114 | The corrected normalisation. It agrees with the handler whenever the handler yields an integer, and it gives 24 whenever `parseInt` finds no integer. |
| Sequences.Filter | app.js:218 | Selection keeps exactly the elements that pass the test, never adds any, and keeps each kept element's multiplicity within the input's. |
| Sequences.FilterAppend | app.js:300 | Selection distributes over concatenation, so it preserves relative order. |
| Sequences.FilterCount | app.js:218 | An element that passes the test keeps its exact multiplicity. |
| Store.NewRow | app.js:23-29 | An inserted row carries the insert time and the reading's temperature, humidity and pressure. Its id is greater than the largest id ever assigned, so the id of a deleted row is never reused. In a valid table it is therefore greater than every id present. |
| Store.FilterKeepsValid | app.js:24 | Deleting rows keeps ids positive, distinct and at most the largest id ever assigned. |
| Retention.Prune | app.js:299-300 | After the delete, no row with `time < now - 259200` remains. Every row at or after that cutoff is kept, boundary included. |
| Retention.PruneKeepsOrder | app.js:300 | The delete preserves the relative order of the rows it keeps. |
| Retention.PruneLeavesRetainedRows | app.js:300 | A table with nothing older than the window is left unchanged: rows, fields and order. |
| Retention.PruneIdempotent | app.js:300 | A second delete at the same instant removes nothing. |
| Retention.LogStep | app.js:298-314 | After a log step every row is inside the window and every retained row survives. A failed read leaves exactly the pruned table. A successful read appends exactly one row stamped `now` with id one above the largest ever assigned. Table validity is preserved. |
| Retention.PrunedStaysValid | app.js:300 | The pruned table is still valid. |
| Retention.LogRun | app.js:298-314 | Over any run of log steps the id counter never goes back, and each step adds at most one row. After the last step no row older than three days before it remains. |
| Retention.FailedReadsAddNothing | app.js:302-305 | Any run of failed reads adds no row and leaves the id counter where it was. |
| Retention.IdsCountSuccesses | app.js:302-312 | Over any run of log steps the id counter grows by exactly the number of successful reads, and the table stays valid. |
| History.InsertByTime | app.js:218 | Inserting into a time-sorted sequence keeps it sorted and adds exactly the one row. |
| History.SortByTime | app.js:218 | The result is sorted by time and is a permutation of the input. |
| History.Select | app.js:215-218 | The query returns exactly the rows with `time > cutoff`, each as many times as stored, in non-decreasing time order. A row at exactly the cutoff is excluded. |
| History.SelectIsPermutation | app.js:218 | The selected rows are a reordering of the matching rows. |
| History.Project | app.js:223-240 | The four arrays have the length of the selection. Entry i of each comes from the i-th selected row. |
| History.CollectSeries | app.js:228-233 | The `forEach` push loop builds exactly the projection of the rows. |
| History.LongtermData | app.js:214-243 | The four arrays have equal length, equal to the number of matching rows. An empty table gives four empty arrays, not null. |
| History.LongtermRequest | app.js:108-117 | No `range` queries the last 24 hours. The decimal text of n queries the last n hours. Whenever the handler's normalisation yields whole hours, the request runs exactly that query. Where it yields NaN, the corrected normalisation runs the 24-hour query. |
| History.LoggedReadingIsQueried | app.js:307-312 | A row logged at `now` is returned exactly once by a query at `now` over one hour or more. |
| History.FullWindowQuery | app.js:299-300 | Right after a log step, a query over more than 72 hours returns every stored row, each as often as stored. |
| OutdoorCache.GetOutdoor | app.js:254-293 | An answer exists exactly on a hit with data, or on a miss with `cod == 200`. A failure leaves the cell untouched. Any answer is what the cell holds afterwards, with `next_update = expires - now`, and it is `cached` exactly on a hit. A miss sets `expires = now + 300` and answers the object built from the response body (app.js:273-281). |
| OutdoorCache.FreshPreserved | app.js:246-249 | The initial cell is fresh from the epoch on. Freshness (expiry at most 300 s ahead, an empty cell already expired) survives a forward clock and any call. |
| OutdoorCache.NextUpdateBounds | app.js:256-262 | On a fresh cell a hit always answers, and every answer has `0 < next_update <= 300`. |
| OutdoorCache.HitIgnoresUpstream | app.js:256-263 | A hit makes no upstream request: its answer and cell do not depend on the upstream outcome. |
| OutdoorCache.OneFetchWithinTtl | app.js:256-289 | After a refresh, a call within 300 s is a hit with the same snapshot. Its countdown has fallen by the elapsed time, strictly once the clock has moved. |
| OutdoorCache.FailureNeverServesStale | app.js:265-292 | A miss with `cod != 200` or an exception answers null, even when the cell still holds an older snapshot. |
| OutdoorCache.Serve | app.js:254-293 | One answer per call, in order. An empty cell that never gets a `cod == 200` response answers null to every call, so the cache never invents data. |
| OutdoorCache.ServeBounds | app.js:254-293 | Over any sequence of calls with a clock that never goes back, from a fresh cell, every answer has `0 < next_update <= 300`. |
| OutdoorCache.ServeFromStartBounds | app.js:246-249 | From the initial `{expires: 0, data: null}`, with a clock at or after the epoch, every answer has `0 < next_update <= 300`. |
| OutdoorCache.HitNextUpdateAsWritten | app.js:256-260 | The hit branch as written, with two clock readings. It is a hit exactly when the first reading is before `expires`, and it is positive when both readings agree. |
| OutdoorCache.AsWrittenAgreesAtOneInstant | app.js:256-260 | With a single clock reading, the as-written countdown equals the model's. |
| OutdoorCache.SecondClockReadGivesZero | app.js:256-260 | On a fresh cell, a second reading that lands on the expiry second gives `next_update == 0`. |

## Left out

- Sensor initialisation and reads (`bme280-sensor`): foreign calls. A read is the `Option<Reading>` argument of `Retention.LogStep`.
- `round` (app.js:319-321) and the front end's `heatIndex` and `round`: these use IEEE-754 doubles. Readings are stored as given.
- SQLite itself: the table is a sequence and the statements are functions. The error path of `getLongtermData` (app.js:219-221) resolves null and then falls through to undefined `rows`. It is not modelled.
- The HTTP routes and status codes, the WebSocket server and its 2-second broadcast, the cron schedule, and the shutdown hook: I/O plumbing and timers.
- `moment.unix(...).format('H:mm')`: time-zone-dependent formatting, replaced by the `timeLabel` parameter.
- Sensor reads are not single-flight, and the prune and the insert of a log step are separate statements, not one transaction. The model has no sensor reads, and `Retention.LogStep` runs the prune and the insert as one step.
- Concurrency: every call runs to completion before the next. Overlapping requests, and log steps interleaved with queries, are not modelled.
- RangeParam.NormaliseRange: JavaScript numbers are doubles. Integers beyond 2^53 and digit strings long enough to overflow to Infinity are not modelled, and neither is negative zero. The model uses unbounded integers.
- RangeParam.NormaliseRange: only single string values are modelled. Express also produces arrays and objects for repeated or bracketed parameters (`range=1&range=2`, `range[]=5`).
- History.LongtermRequest: uses the corrected normalisation `RangeHours`. Where the handler's range is NaN ("", white space, "Infinity", ".5"), the handler's SQL fails; the model runs the 24-hour query instead. The handler's own value is `RangeParam.NormaliseRange`.
- History.Select: SQL leaves the order of rows with equal `time` open. The model keeps storage order.
- Retention.LogStep: the model uses one instant. The source takes the prune cutoff before the sensor read and stamps the row with a second reading taken after the read completes. The insert's id exhaustion at 2^63 - 1 and the error reporting of the two statements are also not modelled.
- OutdoorCache.GetOutdoor: the fetch is treated as instantaneous. The source reads the clock again after awaiting the response to set `expires`. `cod` is taken as a number, although a JSON string such as "404" would compare through JavaScript's loose `!=`. A hit on an empty cell throws in the source; the model answers it with `None`. It is reachable only with a clock before the epoch.
- The `console.log` of the expiry (app.js:255) and the mutation of the cached object's `cached` and `next_update` fields. Every answer overwrites both fields, so the fields are returned alongside the snapshot instead.

## Findings

| source | as written | input that shows it | evidently intended | confidence | as-written member | corrected member |
|---|---|---|---|---|---|---|
| app.js:109-114 | The text "" (or white space only), "Infinity" or ".5" passes the `isNaN` guard, but `parseInt` then gives NaN. The cutoff becomes NaN and the SQL text reads `time > NaN`, which SQLite rejects. | `GET /api/data/longterm?range=` | Any value with no integer in it falls back to the 24-hour default | medium; not executed | RangeParam.NormaliseRange (shown by RangeParam.EmptyRangeIsNaN) | RangeParam.RangeHours |
| app.js:256-260 | The hit test and the `next_update` subtraction each call `unixTime()`. A second boundary between the two calls makes the countdown 0 on a cell that is still fresh. | `expires = t + 1`, first reading t, second reading t + 1 | One reading per call, so `0 < next_update <= 300` | low; not executed | OutdoorCache.HitNextUpdateAsWritten (shown by OutdoorCache.SecondClockReadGivesZero) | OutdoorCache.GetOutdoor (bound proved by OutdoorCache.NextUpdateBounds) |
