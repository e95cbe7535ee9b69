/** The `data` table of the telemetry database: one row per logged sample,
    with an AUTOINCREMENT id. Sensor values are opaque here; they are
    stored as the acquisition rounded them. */
module Store {
  import opened Sequences

  /** A sensor or weather value. Only equality is ever used. */
  type Measure = real

  /** One successful sensor read, as it is written to the table. */
  datatype Reading = Reading(temp: Measure, humidity: Measure, pressure: Measure)

  /** A row of `data (id, time, temp, humidity, pressure)`; `time` is in
      whole seconds since the epoch. */
  datatype Row = Row(id: int, time: int, temp: Measure, humidity: Measure, pressure: Measure)

  /** The table in storage order, with the largest id ever handed out
      (SQLite's `sqlite_sequence` entry, 0 for a fresh table). */
  datatype Table = Table(rows: seq<Row>, lastId: int)

  const EmptyTable := Table([], 0)

  /** Ids are positive, distinct, and none exceeds the largest ever
      assigned. */
  predicate Valid(t: Table)
  {
    && t.lastId >= 0
    && (forall i :: 0 <= i < |t.rows| ==> 0 < t.rows[i].id <= t.lastId)
    && (forall i, j :: 0 <= i < j < |t.rows| ==> t.rows[i].id != t.rows[j].id)
  }

  /** The row an INSERT of `r` at `now` creates: the next AUTOINCREMENT id. */
  function NewRow(t: Table, now: int, r: Reading): (row: Row)
    ensures row.time == now
    ensures row.id > t.lastId
    ensures row.temp == r.temp && row.humidity == r.humidity && row.pressure == r.pressure
    ensures forall i :: 0 <= i < |t.rows| && Valid(t) ==> t.rows[i].id < row.id
  {
    Row(t.lastId + 1, now, r.temp, r.humidity, r.pressure)
  }

  /** Deleting rows keeps a valid table valid. */
  lemma {:induction false} FilterKeepsValid(t: Table, keep: Row -> bool)
    requires Valid(t)
    ensures Valid(Table(Filter(t.rows, keep), t.lastId))
    decreases |t.rows|
  {
    if |t.rows| > 0 {
      var rest := Table(t.rows[1..], t.lastId);
      FilterKeepsValid(rest, keep);
      var tail := Filter(rest.rows, keep);
      if keep(t.rows[0]) {
        forall j | 0 <= j < |tail|
          ensures t.rows[0].id != tail[j].id
        {
          assert tail[j] in rest.rows;
          var k :| 0 <= k < |rest.rows| && rest.rows[k] == tail[j];
          assert t.rows[k + 1] == tail[j];
        }
      }
    }
  }
}
