/** The five-minute log step `logData`: delete every row older than the
    retention window, then, if the sensor read succeeded, insert one row
    stamped with the current time. The prune and the insert are two separate
    statements in the source; here they are one sequential step. */
module Retention {
  import opened Wrappers
  import opened Sequences
  import opened Store

  /** Three days. */
  const RetentionSeconds: int := 259200

  /** Rows with `time` strictly below this are deleted at `now`. */
  function RetentionCutoff(now: int): int
  {
    now - RetentionSeconds
  }

  predicate Retained(now: int, r: Row)
  {
    r.time >= RetentionCutoff(now)
  }

  /** `DELETE FROM data WHERE time < now - 259200`. */
  function Prune(rows: seq<Row>, now: int): (kept: seq<Row>)
    ensures |kept| <= |rows|
    ensures forall r :: r in kept ==> r in rows && r.time >= now - RetentionSeconds
    ensures forall r :: r in rows && r.time >= now - RetentionSeconds ==> r in kept
  {
    Filter(rows, r => Retained(now, r))
  }

  /** One run of `logData` at `now`; `read` is the sensor outcome, `None` for
      a failed read. */
  function LogStep(t: Table, now: int, read: Option<Reading>): (t': Table)
    ensures forall r :: r in t'.rows ==> r.time >= now - RetentionSeconds
    ensures forall r :: r in t.rows && r.time >= now - RetentionSeconds ==> r in t'.rows
    ensures read.None? ==> t'.rows == Prune(t.rows, now) && t'.lastId == t.lastId
    ensures read.Some? ==>
              && t'.rows == Prune(t.rows, now) + [NewRow(t, now, read.value)]
              && t'.lastId == t.lastId + 1
    ensures Valid(t) ==> Valid(t')
  {
    var pruned := Prune(t.rows, now);
    assert Valid(t) ==> Valid(Table(pruned, t.lastId)) by {
      if Valid(t) {
        PrunedStaysValid(t, now);
      }
    }
    match read
    case None => Table(pruned, t.lastId)
    case Some(r) =>
      var row := NewRow(t, now, r);
      Table(pruned + [row], row.id)
  }

  lemma PrunedStaysValid(t: Table, now: int)
    requires Valid(t)
    ensures Valid(Table(Prune(t.rows, now), t.lastId))
  {
    FilterKeepsValid(t, r => Retained(now, r));
  }

  /** Pruning twice at the same instant deletes nothing more. */
  lemma PruneIdempotent(rows: seq<Row>, now: int)
    ensures Prune(Prune(rows, now), now) == Prune(rows, now)
  {
    FilterIdempotent(rows, r => Retained(now, r));
  }

  /** Pruning keeps the relative order of the rows: it acts on each part of
      the table separately. */
  lemma PruneKeepsOrder(a: seq<Row>, b: seq<Row>, now: int)
    ensures Prune(a + b, now) == Prune(a, now) + Prune(b, now)
  {
    FilterAppend(a, b, r => Retained(now, r));
  }

  /** A table with nothing older than the window is left exactly as it was:
      rows, fields and order. */
  lemma PruneLeavesRetainedRows(rows: seq<Row>, now: int)
    requires forall i :: 0 <= i < |rows| ==> rows[i].time >= now - RetentionSeconds
    ensures Prune(rows, now) == rows
  {
    FilterAllKept(rows, r => Retained(now, r));
  }

  /** The sensor outcome of one scheduled run of `logData`. */
  datatype Tick = Tick(now: int, read: Option<Reading>)

  /** The table after a sequence of scheduled runs. The id counter never
      goes back, each run adds at most one row, and after the last run
      nothing older than three days before it is left. */
  function LogRun(t: Table, ticks: seq<Tick>): (t': Table)
    ensures t'.lastId >= t.lastId
    ensures |t'.rows| <= |t.rows| + |ticks|
    ensures |ticks| > 0 ==> forall r :: r in t'.rows ==> r.time >= ticks[|ticks| - 1].now - RetentionSeconds
    decreases |ticks|
  {
    if |ticks| == 0 then t
    else LogRun(LogStep(t, ticks[0].now, ticks[0].read), ticks[1..])
  }

  /** Number of runs whose sensor read succeeded. */
  function Successes(ticks: seq<Tick>): (n: nat)
    ensures n <= |ticks|
    decreases |ticks|
  {
    if |ticks| == 0 then 0
    else (if ticks[0].read.Some? then 1 else 0) + Successes(ticks[1..])
  }

  /** Runs whose read failed add no row: the table only loses rows and the
      id counter does not move. */
  lemma {:induction false} FailedReadsAddNothing(t: Table, ticks: seq<Tick>)
    requires forall i :: 0 <= i < |ticks| ==> ticks[i].read.None?
    ensures LogRun(t, ticks).lastId == t.lastId
    ensures forall r :: r in LogRun(t, ticks).rows ==> r in t.rows
    ensures |LogRun(t, ticks).rows| <= |t.rows|
    decreases |ticks|
  {
    if |ticks| > 0 {
      FailedReadsAddNothing(LogStep(t, ticks[0].now, ticks[0].read), ticks[1..]);
    }
  }

  /** Every successful read consumes exactly one fresh id, and the table
      stays valid whatever the outcomes. */
  lemma {:induction false} IdsCountSuccesses(t: Table, ticks: seq<Tick>)
    requires Valid(t)
    ensures LogRun(t, ticks).lastId == t.lastId + Successes(ticks)
    ensures Valid(LogRun(t, ticks))
    decreases |ticks|
  {
    if |ticks| > 0 {
      IdsCountSuccesses(LogStep(t, ticks[0].now, ticks[0].read), ticks[1..]);
    }
  }
}
