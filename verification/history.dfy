/** The long-term history query behind `GET /api/data/longterm`: select the
    rows logged in the last `range` hours, oldest first, and hand them out as
    four parallel arrays. The time label (`moment.unix(t).format('H:mm')`)
    depends on the host's time zone and is a parameter. */
module History {
  import opened Wrappers
  import opened Sequences
  import opened Store
  import opened Retention
  import RangeParam

  const SecondsPerHour: int := 3600

  /** `now - range * 3600`: only rows strictly later than this are returned. */
  function Cutoff(now: int, hours: int): int
  {
    now - hours * SecondsPerHour
  }

  predicate After(cutoff: int, r: Row)
  {
    r.time > cutoff
  }

  predicate SortedByTime(rows: seq<Row>)
  {
    forall i, j :: 0 <= i < j < |rows| ==> rows[i].time <= rows[j].time
  }

  /** A row no later than the first row of a sorted sequence can go in
      front of it. */
  lemma PrependSorted(x: Row, s: seq<Row>)
    requires SortedByTime(s)
    requires |s| > 0 ==> x.time <= s[0].time
    ensures SortedByTime([x] + s)
  {
  }

  /** `sorted` with `r` placed before the first row that is not earlier
      than it. */
  function InsertByTime(r: Row, sorted: seq<Row>): (s: seq<Row>)
    requires SortedByTime(sorted)
    ensures SortedByTime(s)
    ensures multiset(s) == multiset(sorted) + multiset{r}
    ensures |s| > 0 && (s[0] == r || (|sorted| > 0 && s[0] == sorted[0]))
    decreases |sorted|
  {
    if |sorted| == 0 || r.time <= sorted[0].time then
      PrependSorted(r, sorted);
      [r] + sorted
    else
      var tail := InsertByTime(r, sorted[1..]);
      PrependSorted(sorted[0], tail);
      assert sorted == [sorted[0]] + sorted[1..];
      [sorted[0]] + tail
  }

  /** A stable sort on `time`: rows with equal times keep storage order. */
  function SortByTime(rows: seq<Row>): (s: seq<Row>)
    ensures SortedByTime(s)
    ensures multiset(s) == multiset(rows)
    ensures forall x :: x in s <==> x in rows
    decreases |rows|
  {
    if |rows| == 0 then []
    else
      assert rows == [rows[0]] + rows[1..];
      var s := InsertByTime(rows[0], SortByTime(rows[1..]));
      assert forall x :: x in s <==> x in multiset(s);
      assert forall x :: x in rows <==> x in multiset(rows);
      s
  }

  /** `SELECT * FROM data WHERE time > cutoff ORDER BY time ASC`. SQL leaves
      the order of equal times open; the model keeps storage order. */
  function Select(rows: seq<Row>, cutoff: int): (sel: seq<Row>)
    ensures SortedByTime(sel)
    ensures forall r :: r in sel <==> r in rows && r.time > cutoff
    ensures forall r: Row :: r.time > cutoff ==> multiset(sel)[r] == multiset(rows)[r]
    ensures forall r: Row :: r.time <= cutoff ==> multiset(sel)[r] == 0
  {
    var matching := Filter(rows, r => After(cutoff, r));
    forall r: Row | r.time > cutoff
      ensures multiset(matching)[r] == multiset(rows)[r]
    {
      FilterCount(rows, r => After(cutoff, r), r);
    }
    SortByTime(matching)
  }

  /** The response body: four arrays, one entry per selected row. */
  datatype Series = Series(times: seq<string>, temp: seq<Measure>, humidity: seq<Measure>, pressure: seq<Measure>)

  const NoSeries := Series([], [], [], [])

  /** One `rows.forEach` iteration: push the row's fields onto the arrays. */
  function Push(s: Series, r: Row, timeLabel: int -> string): Series
  {
    Series(s.times + [timeLabel(r.time)], s.temp + [r.temp], s.humidity + [r.humidity], s.pressure + [r.pressure])
  }

  /** The arrays after pushing every row in turn. */
  function Project(rows: seq<Row>, timeLabel: int -> string): (s: Series)
    ensures |s.times| == |rows| && |s.temp| == |rows| && |s.humidity| == |rows| && |s.pressure| == |rows|
    ensures forall i :: 0 <= i < |rows| ==>
              && s.times[i] == timeLabel(rows[i].time)
              && s.temp[i] == rows[i].temp
              && s.humidity[i] == rows[i].humidity
              && s.pressure[i] == rows[i].pressure
    decreases |rows|
  {
    if |rows| == 0 then NoSeries
    else Push(Project(rows[..|rows| - 1], timeLabel), rows[|rows| - 1], timeLabel)
  }

  /** The `forEach` loop of `getLongtermData`, building the arrays in place. */
  method CollectSeries(rows: seq<Row>, timeLabel: int -> string) returns (s: Series)
    ensures s == Project(rows, timeLabel)
  {
    s := NoSeries;
    var i := 0;
    while i < |rows|
      invariant 0 <= i <= |rows|
      invariant s == Project(rows[..i], timeLabel)
    {
      assert rows[..i + 1][..i] == rows[..i];
      s := Push(s, rows[i], timeLabel);
      i := i + 1;
    }
    assert rows[..|rows|] == rows;
  }

  /** `getLongtermData(range)` at `now`. */
  function LongtermData(t: Table, now: int, hours: int, timeLabel: int -> string): (s: Series)
    ensures |s.times| == |s.temp| == |s.humidity| == |s.pressure|
    ensures |s.times| == |Filter(t.rows, r => After(Cutoff(now, hours), r))|
    ensures |t.rows| == 0 ==> s == NoSeries
  {
    var sel := Select(t.rows, Cutoff(now, hours));
    assert |sel| == |Filter(t.rows, r => After(Cutoff(now, hours), r))| by {
      assert multiset(sel) == multiset(Filter(t.rows, r => After(Cutoff(now, hours), r))) by {
        SelectIsPermutation(t.rows, Cutoff(now, hours));
      }
    }
    Project(sel, timeLabel)
  }

  /** `GET /api/data/longterm?range=q` at `now`. Wherever the handler's own
      normalisation yields whole hours this is the handler's query; where it
      yields NaN, the corrected normalisation runs the 24-hour query. */
  function LongtermRequest(q: RangeParam.Query, t: Table, now: int, timeLabel: int -> string): (s: Series)
    ensures q == RangeParam.Absent ==> s == LongtermData(t, now, 24, timeLabel)
    ensures RangeParam.NormaliseRange(q).Whole? ==> s == LongtermData(t, now, RangeParam.NormaliseRange(q).n, timeLabel)
    ensures RangeParam.NormaliseRange(q) == RangeParam.NotANumber ==> s == LongtermData(t, now, 24, timeLabel)
    ensures forall n :: q == RangeParam.Text(RangeParam.DecimalText(n)) ==> s == LongtermData(t, now, n, timeLabel)
  {
    forall n | q == RangeParam.Text(RangeParam.DecimalText(n)) {
      RangeParam.DecimalRoundTrip(n);
    }
    LongtermData(t, now, RangeParam.RangeHours(q), timeLabel)
  }

  // ---------------------------------------------------------------------
  // Lemmas
  // ---------------------------------------------------------------------

  /** The selection is a reordering of exactly the matching rows. */
  lemma SelectIsPermutation(rows: seq<Row>, cutoff: int)
    ensures multiset(Select(rows, cutoff)) == multiset(Filter(rows, r => After(cutoff, r)))
  {
    var sel := Select(rows, cutoff);
    var matching := Filter(rows, r => After(cutoff, r));
    forall r: Row
      ensures multiset(sel)[r] == multiset(matching)[r]
    {
      if r.time > cutoff {
        FilterCount(rows, r => After(cutoff, r), r);
      } else {
        assert r !in matching;
      }
    }
  }

  /** A row logged at `now` is returned exactly once by a query at `now`
      over at least one hour, with the values it was logged with. */
  lemma LoggedReadingIsQueried(t: Table, now: int, reading: Reading, hours: int)
    requires Valid(t)
    requires hours >= 1
    ensures var t' := LogStep(t, now, Some(reading));
      multiset(Select(t'.rows, Cutoff(now, hours)))[NewRow(t, now, reading)] == 1
  {
    var row := NewRow(t, now, reading);
    var pruned := Prune(t.rows, now);
    assert forall i :: 0 <= i < |t.rows| ==> t.rows[i] != row;
    assert row !in pruned;
    assert multiset(pruned + [row])[row] == 1 by {
      assert multiset(pruned + [row]) == multiset(pruned) + multiset{row};
    }
  }

  /** Right after a log step, a query over more than the three-day window
      returns every stored row, each exactly as often as it is stored. */
  lemma FullWindowQuery(t: Table, now: int, read: Option<Reading>, hours: int)
    requires hours > RetentionSeconds / SecondsPerHour
    ensures var t' := LogStep(t, now, read);
      multiset(Select(t'.rows, Cutoff(now, hours))) == multiset(t'.rows)
  {
    var t' := LogStep(t, now, read);
    var sel := Select(t'.rows, Cutoff(now, hours));
    forall r: Row
      ensures multiset(sel)[r] == multiset(t'.rows)[r]
    {
      if r.time <= Cutoff(now, hours) {
        assert r !in t'.rows;
      }
    }
  }
}
