/** The OpenWeatherMap cache behind `GET /api/data/outdoor`: one cell
    `{expires, data}`. A call before `expires` answers from the cell; any
    other call asks upstream, and only a response with `cod == 200` refills
    the cell for the next 300 seconds. A failed call answers `null` and
    leaves the cell alone, so a stale snapshot is never served. The upstream
    outcome and the clock are parameters; the whole call happens at one
    instant `now`. */
module OutdoorCache {
  import opened Wrappers
  import opened Store

  const TtlSeconds: int := 300
  const StatusOk: int := 200

  /** The fields of the upstream JSON body the handler reads. */
  datatype Weather = Weather(
    dt: int, temp: Measure, feelsLike: Measure, humidity: Measure,
    pressure: Measure, clouds: Measure, windSpeed: Measure)

  /** What the upstream request produced: a parsed body with its `cod`, or
      an exception (network failure, unparseable body, missing field). */
  datatype Upstream = Response(cod: int, body: Weather) | Thrown

  /** The object the handler builds from a good response and caches. */
  datatype Snapshot = Snapshot(
    time: string, temp: Measure, heatIndex: Measure, humidity: Measure,
    pressure: Measure, cloudiness: Measure, wind: Measure)

  /** The cache cell; `None` is the `null` it starts with. */
  datatype Cache = Cache(expires: int, data: Option<Snapshot>)

  const InitialCache := Cache(0, None)

  /** The snapshot handed to the client with the two fields added on the
      way out. */
  datatype Outdoor = Outdoor(snapshot: Snapshot, cached: bool, nextUpdate: int)

  /** The result of one call (`None` for `null`) and the cell afterwards. */
  datatype Answer = Answer(result: Option<Outdoor>, cache: Cache)

  predicate IsHit(c: Cache, now: int)
  {
    c.expires > now
  }

  predicate Succeeds(u: Upstream)
  {
    u.Response? && u.cod == StatusOk
  }

  /** The `out` object of the handler; `timeLabel` formats the upstream
      timestamp as `H:mm`. */
  function ToSnapshot(w: Weather, timeLabel: int -> string): Snapshot
  {
    Snapshot(timeLabel(w.dt), w.temp, w.feelsLike, w.humidity, w.pressure, w.clouds, w.windSpeed)
  }

  /** One `getOutdoorData()` call at `now`, where `upstream` is what the
      request would produce if it were made. A hit on an empty cell (only
      reachable with a clock before the epoch) makes the handler throw; it
      is answered with `None` here. */
  function GetOutdoor(c: Cache, now: int, upstream: Upstream, timeLabel: int -> string): (a: Answer)
    ensures a.result.Some? <==> (IsHit(c, now) && c.data.Some?) || (!IsHit(c, now) && Succeeds(upstream))
    ensures a.result.None? ==> a.cache == c
    ensures IsHit(c, now) ==> a.cache == c
    ensures a.result.Some? ==>
              && a.cache.data == Some(a.result.value.snapshot)
              && a.result.value.nextUpdate == a.cache.expires - now
              && (a.result.value.cached <==> IsHit(c, now))
    ensures !IsHit(c, now) && a.result.Some? ==>
              && a.cache.expires == now + TtlSeconds
              && a.result.value.snapshot == ToSnapshot(upstream.body, timeLabel)
  {
    if IsHit(c, now) then
      match c.data
      case Some(s) => Answer(Some(Outdoor(s, true, c.expires - now)), c)
      case None => Answer(None, c)
    else if !Succeeds(upstream) then
      Answer(None, c)
    else
      var s := ToSnapshot(upstream.body, timeLabel);
      Answer(Some(Outdoor(s, false, TtlSeconds)), Cache(now + TtlSeconds, Some(s)))
  }

  // ---------------------------------------------------------------------
  // The cell invariant and the bound on next_update
  // ---------------------------------------------------------------------

  /** At `now` the cell expires at most one TTL ahead, and an empty cell is
      already expired. */
  predicate Fresh(c: Cache, now: int)
  {
    c.expires <= now + TtlSeconds && (c.data.None? ==> c.expires <= now)
  }

  /** The initial cell is fresh at any time on or after the epoch, and
      freshness survives the clock moving forward and any call. */
  lemma FreshPreserved(c: Cache, now: int, now': int, upstream: Upstream, timeLabel: int -> string)
    requires Fresh(c, now) && now <= now'
    ensures Fresh(GetOutdoor(c, now', upstream, timeLabel).cache, now')
    ensures now >= 0 ==> Fresh(InitialCache, now)
  {
  }

  /** Under the invariant a live cell always answers, and every answer
      promises a refresh no later than one TTL ahead and strictly in the
      future. */
  lemma NextUpdateBounds(c: Cache, now: int, upstream: Upstream, timeLabel: int -> string)
    requires Fresh(c, now)
    ensures var a := GetOutdoor(c, now, upstream, timeLabel);
      && (IsHit(c, now) ==> a.result.Some?)
      && (a.result.Some? ==> 0 < a.result.value.nextUpdate <= TtlSeconds)
  {
  }

  /** A hit makes no upstream request: its answer and cell do not depend on
      what upstream would have produced. */
  lemma HitIgnoresUpstream(c: Cache, now: int, u1: Upstream, u2: Upstream, timeLabel: int -> string)
    requires IsHit(c, now)
    ensures GetOutdoor(c, now, u1, timeLabel) == GetOutdoor(c, now, u2, timeLabel)
  {
  }

  /** After a successful refresh at `t1`, a call at `t2` within the TTL is a
      hit: no second request, the same snapshot, and a countdown that has
      gone down by the time elapsed (strictly, once the clock has moved). */
  lemma OneFetchWithinTtl(c: Cache, t1: int, t2: int, u1: Upstream, u2: Upstream, timeLabel: int -> string)
    requires !IsHit(c, t1) && Succeeds(u1)
    requires t1 <= t2 < t1 + TtlSeconds
    ensures var a1 := GetOutdoor(c, t1, u1, timeLabel);
      var a2 := GetOutdoor(a1.cache, t2, u2, timeLabel);
      && IsHit(a1.cache, t2)
      && a2.result == Some(Outdoor(a1.result.value.snapshot, true, a1.result.value.nextUpdate - (t2 - t1)))
      && (t1 < t2 ==> a2.result.value.nextUpdate < a1.result.value.nextUpdate)
  {
  }

  /** A call that needs upstream and does not get a 200 answers `null`
      even when the cell still holds an older snapshot. */
  lemma FailureNeverServesStale(c: Cache, now: int, u: Upstream, timeLabel: int -> string)
    requires !IsHit(c, now) && !Succeeds(u)
    ensures GetOutdoor(c, now, u, timeLabel) == Answer(None, c)
  {
  }

  // ---------------------------------------------------------------------
  // A sequence of calls
  // ---------------------------------------------------------------------

  /** One request: the clock reading and what upstream would produce. */
  datatype Call = Call(now: int, upstream: Upstream)

  predicate ClockNonDecreasing(calls: seq<Call>, start: int)
  {
    && (forall i :: 0 <= i < |calls| ==> start <= calls[i].now)
    && (forall i, j :: 0 <= i < j < |calls| ==> calls[i].now <= calls[j].now)
  }

  /** The answers to `calls`, served in order from the cell `c`. The cache
      invents nothing: an empty cell that never gets a 200 answers `null`
      to every call. */
  function Serve(c: Cache, calls: seq<Call>, timeLabel: int -> string): (rs: seq<Option<Outdoor>>)
    ensures |rs| == |calls|
    ensures c.data.None? && (forall i :: 0 <= i < |calls| ==> !Succeeds(calls[i].upstream)) ==>
              forall i :: 0 <= i < |rs| ==> rs[i].None?
    decreases |calls|
  {
    if |calls| == 0 then []
    else
      var a := GetOutdoor(c, calls[0].now, calls[0].upstream, timeLabel);
      [a.result] + Serve(a.cache, calls[1..], timeLabel)
  }

  /** Every answer in `rs` that is not `null` promises a refresh strictly
      in the future and no more than one TTL ahead. */
  predicate CountdownsBounded(rs: seq<Option<Outdoor>>)
  {
    forall i :: 0 <= i < |rs| && rs[i].Some? ==> 0 < rs[i].value.nextUpdate <= TtlSeconds
  }

  /** Starting from a cell fresh at `start` and with a clock that never goes
      back, every answer carries `0 < next_update <= 300`. */
  lemma {:induction false} ServeBounds(c: Cache, start: int, calls: seq<Call>, timeLabel: int -> string)
    requires Fresh(c, start)
    requires ClockNonDecreasing(calls, start)
    ensures CountdownsBounded(Serve(c, calls, timeLabel))
    decreases |calls|
  {
    if |calls| > 0 {
      var now := calls[0].now;
      var a := GetOutdoor(c, now, calls[0].upstream, timeLabel);
      NextUpdateBounds(c, now, calls[0].upstream, timeLabel);
      FreshPreserved(c, now, now, calls[0].upstream, timeLabel);
      ServeBounds(a.cache, now, calls[1..], timeLabel);
      var tail := Serve(a.cache, calls[1..], timeLabel);
      assert Serve(c, calls, timeLabel) == [a.result] + tail;
    }
  }

  /** From the initial cell and any clock on or after the epoch, every
      answer carries `0 < next_update <= 300`. */
  lemma ServeFromStartBounds(calls: seq<Call>, timeLabel: int -> string)
    requires ClockNonDecreasing(calls, 0)
    ensures CountdownsBounded(Serve(InitialCache, calls, timeLabel))
  {
    ServeBounds(InitialCache, 0, calls, timeLabel);
  }

  // ---------------------------------------------------------------------
  // The hit branch as written, with two clock readings
  // ---------------------------------------------------------------------

  /** `next_update` on the hit branch as the source computes it: the expiry
      test reads the clock (`first`) and the subtraction reads it again
      (`later`). `None` when the test fails. */
  function HitNextUpdateAsWritten(c: Cache, first: int, later: int): (r: Option<int>)
    ensures r.Some? <==> IsHit(c, first)
    ensures r.Some? && later == first ==> r.value > 0
  {
    if c.expires > first then Some(c.expires - later) else None
  }

  /** With one reading the two computations agree. */
  lemma AsWrittenAgreesAtOneInstant(c: Cache, now: int, u: Upstream, timeLabel: int -> string)
    requires IsHit(c, now) && c.data.Some?
    ensures HitNextUpdateAsWritten(c, now, now) == Some(GetOutdoor(c, now, u, timeLabel).result.value.nextUpdate)
  {
  }

  /** When the second reading crosses into the expiry second, the answer is
      a hit with `next_update == 0`, although the cell is fresh. */
  lemma SecondClockReadGivesZero(t: int, s: Snapshot)
    ensures Fresh(Cache(t + 1, Some(s)), t)
    ensures HitNextUpdateAsWritten(Cache(t + 1, Some(s)), t, t + 1) == Some(0)
  {
  }
}
