/** The point-in-time query of the frame generators that read the raw GPX track:
    position and sensor values are interpolated between the bracketing samples,
    while speed and distance travelled are computed on the spot from the geodesic.
    Two variants exist: one freezes the rider across a pause of more than five
    seconds and stamps the frame with its instant, the other does neither. */
module OnDemandQuery {
  import opened Telemetry
  import Series

  /** One track-point dictionary as the frame generators' `parse_gpx` builds it. */
  datatype TrackPoint = TrackPoint(
    latitude: real,
    longitude: real,
    elevation: real,
    time: Micros,
    temperature: Option<real>,
    heartRate: Option<real>,
    cadence: Option<real>)

  /** The interpolated point; `timestamp` is `None` where the variant sets no such key. */
  datatype Frame = Frame(
    latitude: real,
    longitude: real,
    elevation: real,
    temperature: Option<real>,
    heartRate: Option<real>,
    cadence: Option<real>,
    timestamp: Option<Micros>,
    speed: real,
    totalDistance: real)

  /** A pause longer than this freezes the rider in the pausing variant. */
  const FrozenGap: Micros := 5 * MicrosPerSecond

  function Position(p: TrackPoint): LatLon { LatLon(p.latitude, p.longitude) }

  function Positions(s: seq<TrackPoint>): (r: seq<LatLon>)
    ensures |r| == |s| && forall i :: 0 <= i < |s| ==> r[i] == Position(s[i])
  {
    seq(|s|, i requires 0 <= i < |s| => Position(s[i]))
  }

  function Times(s: seq<TrackPoint>): (r: seq<Micros>)
    ensures |r| == |s| && forall i :: 0 <= i < |s| ==> r[i] == s[i].time
  {
    seq(|s|, i requires 0 <= i < |s| => s[i].time)
  }

  /** `points[index - 1]`: Python reads a negative index k as k + n, so the index is
      i - 1 reduced modulo the length, and index 0 names the last sample. */
  function Prev(n: nat, i: nat): (r: nat)
    requires i < n
    ensures r < n && r == (i - 1) % n
  {
    if i == 0 then n - 1 else i - 1
  }

  /** A distance over a non-zero duration, in metres per second. */
  function MetersPerSecond(meters: real, seconds: real): real
    requires seconds != 0.0
  {
    meters / seconds
  }

  /** `points.index(before)` followed by the summing loop: the geodesic length of the
      track up to the first sample equal to `points[i]`. */
  function DistanceBefore(points: seq<TrackPoint>, i: nat, dist: Geodesic): real
    requires i < |points|
  {
    Series.PathLength(Positions(points), Series.IndexOf(points, points[i]), dist)
  }

  /** The frame of the pausing variant across a pause: everything held at the
      earlier sample, speed 0, distance up to that sample. */
  function Frozen(points: seq<TrackPoint>, i: nat, ts: Micros, dist: Geodesic): Frame
    requires i < |points|
  {
    var b := points[i];
    Frame(b.latitude, b.longitude, b.elevation, b.temperature, b.heartRate, b.cadence,
          Some(ts), 0.0, DistanceBefore(points, i, dist))
  }

  /** The interpolating branch for bracket i: both divisions by a duration raise
      when it is zero; speed blends the previous segment's average speed with the
      current one's, in km/h; distance adds the covered share of the current segment. */
  function Moving(points: seq<TrackPoint>, i: nat, ts: Micros, dist: Geodesic, stamp: Option<Micros>): Query<Frame>
    requires i + 1 < |points|
  {
    var b, a, p := points[i], points[i + 1], points[Prev(|points|, i)];
    if a.time == b.time || b.time == p.time then Raised(ZeroDivisionError)
    else
      var ratio := Ratio(ts, b.time, a.time);
      var distanceNew := dist(Position(b), Position(a));
      var speedOld := MetersPerSecond(dist(Position(p), Position(b)), Seconds(b.time - p.time));
      var speedNew := MetersPerSecond(distanceNew, Seconds(a.time - b.time));
      Found(Frame(
        Lerp(b.latitude, a.latitude, ratio),
        Lerp(b.longitude, a.longitude, ratio),
        Lerp(b.elevation, a.elevation, ratio),
        LerpOpt(b.temperature, a.temperature, ratio),
        LerpOpt(b.heartRate, a.heartRate, ratio),
        LerpOpt(b.cadence, a.cadence, ratio),
        stamp,
        Lerp(speedOld, speedNew, ratio) * 3.6,
        DistanceBefore(points, i, dist) + distanceNew * ratio))
  }

  /** What the pausing variant of `interpolate_data` returns or raises. */
  function SamplePausing(points: seq<TrackPoint>, ts: Micros, dist: Geodesic): Query<Frame>
  {
    match Series.Bracket(Times(points), ts)
    case None => NotFound
    case Some(i) =>
      if points[i + 1].time - points[i].time > FrozenGap then Found(Frozen(points, i, ts, dist))
      else Moving(points, i, ts, dist, Some(ts))
  }

  /** What the non-pausing variant of `interpolate_data` returns or raises. */
  function SampleSteady(points: seq<TrackPoint>, ts: Micros, dist: Geodesic): Query<Frame>
  {
    match Series.Bracket(Times(points), ts)
    case None => NotFound
    case Some(i) => Moving(points, i, ts, dist, None)
  }

  /** The distance loop both branches share. */
  method DistanceUpTo(points: seq<TrackPoint>, i: nat, dist: Geodesic) returns (total: real)
    requires i < |points|
    ensures total == DistanceBefore(points, i, dist)
  {
    var k := Series.IndexOf(points, points[i]);
    total := Series.SumSegments(Positions(points), k, dist);
  }

  /** The interpolating branch, statement by statement. */
  method Interpolate(points: seq<TrackPoint>, i: nat, ts: Micros, dist: Geodesic, stamp: Option<Micros>)
    returns (r: Query<Frame>)
    requires i + 1 < |points|
    ensures r == Moving(points, i, ts, dist, stamp)
  {
    var before, after := points[i], points[i + 1];
    var totalTime := Seconds(after.time - before.time);
    if totalTime == 0.0 {
      assert before.time == after.time;
      return Raised(ZeroDivisionError);
    }
    var timeRatio := Seconds(ts - before.time) / totalTime;
    RatioOfSeconds(ts, before.time, after.time);
    var previous := points[if i == 0 then |points| - 1 else i - 1];
    var distanceNew := dist(Position(before), Position(after));
    var distanceCovered := distanceNew * timeRatio;
    var distanceOld := dist(Position(previous), Position(before));
    var speedNew := MetersPerSecond(distanceNew, totalTime);
    var oldTime := Seconds(before.time - previous.time);
    if oldTime == 0.0 {
      assert before.time == previous.time;
      assert Moving(points, i, ts, dist, stamp) == Raised(ZeroDivisionError);
      return Raised(ZeroDivisionError);
    }
    var speedOld := MetersPerSecond(distanceOld, oldTime);
    var totalDistance := DistanceUpTo(points, i, dist);
    totalDistance := totalDistance + distanceCovered;
    assert previous == points[Prev(|points|, i)];
    assert timeRatio == Ratio(ts, before.time, after.time);
    MovingFound(points, i, ts, dist, stamp);
    r := Found(Frame(
      Lerp(before.latitude, after.latitude, timeRatio),
      Lerp(before.longitude, after.longitude, timeRatio),
      Lerp(before.elevation, after.elevation, timeRatio),
      LerpOpt(before.temperature, after.temperature, timeRatio),
      LerpOpt(before.heartRate, after.heartRate, timeRatio),
      LerpOpt(before.cadence, after.cadence, timeRatio),
      stamp,
      Lerp(speedOld, speedNew, timeRatio) * 3.6,
      totalDistance));
    ghost var m := Moving(points, i, ts, dist, stamp).sample;
    assert r.sample.latitude == m.latitude;
    assert r.sample.temperature == m.temperature;
    assert r.sample.speed == m.speed;
    assert r.sample.totalDistance == m.totalDistance;
    assert r == Moving(points, i, ts, dist, stamp);
  }

  lemma MovingFound(points: seq<TrackPoint>, i: nat, ts: Micros, dist: Geodesic, stamp: Option<Micros>)
    requires i + 1 < |points|
    requires points[i].time != points[i + 1].time && points[i].time != points[Prev(|points|, i)].time
    ensures Moving(points, i, ts, dist, stamp).Found?
    ensures var f, b, a, p := Moving(points, i, ts, dist, stamp).sample, points[i], points[i + 1], points[Prev(|points|, i)];
      var ratio := Ratio(ts, b.time, a.time);
      && f == Frame(
        Lerp(b.latitude, a.latitude, ratio),
        Lerp(b.longitude, a.longitude, ratio),
        Lerp(b.elevation, a.elevation, ratio),
        LerpOpt(b.temperature, a.temperature, ratio),
        LerpOpt(b.heartRate, a.heartRate, ratio),
        LerpOpt(b.cadence, a.cadence, ratio),
        stamp,
        f.speed,
        f.totalDistance)
      && f.speed == Lerp(MetersPerSecond(dist(Position(p), Position(b)), Seconds(b.time - p.time)),
                         MetersPerSecond(dist(Position(b), Position(a)), Seconds(a.time - b.time)), ratio) * 3.6
      && f.totalDistance == DistanceBefore(points, i, dist) + dist(Position(b), Position(a)) * ratio
  {
  }

  lemma MovingDistance(points: seq<TrackPoint>, i: nat, ts: Micros, dist: Geodesic, stamp: Option<Micros>)
    requires i + 1 < |points| && Moving(points, i, ts, dist, stamp).Found?
    ensures points[i].time != points[i + 1].time
    ensures Moving(points, i, ts, dist, stamp).sample.totalDistance == DistanceBefore(points, i, dist)
      + dist(Position(points[i]), Position(points[i + 1])) * Ratio(ts, points[i].time, points[i + 1].time)
  {
  }

  /** `interpolate_data` of the frame generator that freezes across pauses. */
  method InterpolateDataPausing(points: seq<TrackPoint>, ts: Micros, dist: Geodesic) returns (r: Query<Frame>)
    ensures r == SamplePausing(points, ts, dist)
  {
    var found := Series.FindBracket(Times(points), ts);
    if found.None? {
      return NotFound;
    }
    var index := found.value;
    var before, after := points[index], points[index + 1];
    if after.time - before.time > FrozenGap {
      var totalDistance := DistanceUpTo(points, index, dist);
      return Found(Frame(before.latitude, before.longitude, before.elevation,
                         before.temperature, before.heartRate, before.cadence,
                         Some(ts), 0.0, totalDistance));
    }
    r := Interpolate(points, index, ts, dist, Some(ts));
  }

  /** `interpolate_data` of the frame generator without the pause rule. */
  method InterpolateDataSteady(points: seq<TrackPoint>, ts: Micros, dist: Geodesic) returns (r: Query<Frame>)
    ensures r == SampleSteady(points, ts, dist)
  {
    var found := Series.FindBracket(Times(points), ts);
    if found.None? {
      return NotFound;
    }
    r := Interpolate(points, found.value, ts, dist, None);
  }

  /** With samples in time order, both variants find nothing exactly when there
      are fewer than two samples or the instant lies outside [first, last]. */
  lemma NotFoundOutsideRange(points: seq<TrackPoint>, ts: Micros, dist: Geodesic)
    requires Sorted(Times(points))
    ensures SamplePausing(points, ts, dist).NotFound? <==>
      |points| < 2 || ts < points[0].time || ts > points[|points| - 1].time
    ensures SampleSteady(points, ts, dist).NotFound? <==>
      |points| < 2 || ts < points[0].time || ts > points[|points| - 1].time
  {
    Series.BracketCoverage(Times(points), ts);
  }

  /** Distinct samples are found by `points.index` at their own position. */
  lemma DistanceBeforeDistinct(points: seq<TrackPoint>, i: nat, dist: Geodesic)
    requires i < |points|
    requires forall a, b :: 0 <= a < b < |points| ==> points[a] != points[b]
    ensures DistanceBefore(points, i, dist) == Series.PathLength(Positions(points), i, dist)
  {
    Series.IndexOfDistinct(points, i);
  }

  /** Across a pause of more than five seconds the pausing variant holds every value
      of the earlier sample, reports speed 0 and the distance up to that sample. */
  lemma PauseFreezes(points: seq<TrackPoint>, ts: Micros, dist: Geodesic, i: nat)
    requires Series.Bracket(Times(points), ts) == Some(i)
    requires forall a, b :: 0 <= a < b < |points| ==> points[a] != points[b]
    ensures i + 1 < |points|
    ensures points[i + 1].time - points[i].time > FrozenGap ==> (SamplePausing(points, ts, dist).Found?
      && var f, b := SamplePausing(points, ts, dist).sample, points[i];
      && Position(b) == LatLon(f.latitude, f.longitude) && f.elevation == b.elevation
      && f.temperature == b.temperature && f.heartRate == b.heartRate && f.cadence == b.cadence
      && f.timestamp == Some(ts) && f.speed == 0.0
      && f.totalDistance == Series.PathLength(Positions(points), i, dist))
  {
    DistanceBeforeDistinct(points, i, dist);
  }

  /** Away from pauses the two variants agree on everything but the timestamp key. */
  lemma VariantsAgreeWithoutPause(points: seq<TrackPoint>, ts: Micros, dist: Geodesic, i: nat)
    requires Series.Bracket(Times(points), ts) == Some(i)
    ensures i + 1 < |points|
    ensures points[i + 1].time - points[i].time <= FrozenGap ==>
      match SampleSteady(points, ts, dist)
      case NotFound => false
      case Raised(e) => SamplePausing(points, ts, dist) == Raised(e)
      case Found(f) => SamplePausing(points, ts, dist) == Found(f.(timestamp := Some(ts)))
  {
    var steady := Moving(points, i, ts, dist, None);
    if steady.Found? {
      assert Moving(points, i, ts, dist, Some(ts)) == Found(steady.sample.(timestamp := Some(ts)));
    }
  }

  /** With non-negative geodesic lengths and distinct samples, the distance reported
      between two samples lies between the track length at the earlier one and the
      track length at the later one. */
  lemma DistanceBetweenSamples(points: seq<TrackPoint>, ts: Micros, dist: Geodesic, i: nat)
    requires NonNegative(dist)
    requires Series.Bracket(Times(points), ts) == Some(i)
    requires forall a, b :: 0 <= a < b < |points| ==> points[a] != points[b]
    ensures i + 1 < |points|
    ensures SampleSteady(points, ts, dist).Found? ==>
      Series.PathLength(Positions(points), i, dist)
        <= SampleSteady(points, ts, dist).sample.totalDistance
        <= Series.PathLength(Positions(points), i + 1, dist)
  {
    var b, a := points[i], points[i + 1];
    if SampleSteady(points, ts, dist).Found? {
      assert SampleSteady(points, ts, dist) == Moving(points, i, ts, dist, None);
      MovingOdometer(points, i, ts, dist, None);
      DistanceBeforeDistinct(points, i, dist);
      var pos := Positions(points);
      assert pos[i] == Position(b) && pos[i + 1] == Position(a);
      assert Series.PathLength(pos, i + 1, dist) == Series.PathLength(pos, i, dist) + dist(Position(b), Position(a));
    }
  }

  /** The distance of an interpolated frame adds at most the whole current segment. */
  lemma MovingOdometer(points: seq<TrackPoint>, i: nat, ts: Micros, dist: Geodesic, stamp: Option<Micros>)
    requires NonNegative(dist) && i + 1 < |points| && points[i].time <= ts <= points[i + 1].time
    requires Moving(points, i, ts, dist, stamp).Found?
    ensures var base := DistanceBefore(points, i, dist);
      base <= Moving(points, i, ts, dist, stamp).sample.totalDistance
        <= base + dist(Position(points[i]), Position(points[i + 1]))
  {
    var b, a := points[i], points[i + 1];
    MovingDistance(points, i, ts, dist, stamp);
    var d, ratio := dist(Position(b), Position(a)), Ratio(ts, b.time, a.time);
    var base, total := DistanceBefore(points, i, dist), Moving(points, i, ts, dist, stamp).sample.totalDistance;
    assert d >= 0.0 && total == base + d * ratio;
    PartialStep(base, d, ratio);
  }

  lemma PartialStep(base: real, d: real, ratio: real)
    requires d >= 0.0 && 0.0 <= ratio <= 1.0
    ensures base <= base + d * ratio <= base + d
  {
    ScaleBounds(d, ratio);
  }

  /** At the earlier sample's instant the speed is the previous segment's average
      speed, at the later one's the current segment's, both in km/h. */
  lemma SpeedAtSampleInstants(points: seq<TrackPoint>, ts: Micros, dist: Geodesic, i: nat)
    requires Series.Bracket(Times(points), ts) == Some(i)
    requires SampleSteady(points, ts, dist).Found?
    ensures i + 1 < |points|
    ensures var b, a, p, f := points[i], points[i + 1], points[Prev(|points|, i)], SampleSteady(points, ts, dist).sample;
      && b.time != a.time && b.time != p.time
      && (ts == b.time ==> f.speed == dist(Position(p), Position(b)) / Seconds(b.time - p.time) * 3.6)
      && (ts == a.time ==> f.speed == dist(Position(b), Position(a)) / Seconds(a.time - b.time) * 3.6)
  {
  }

  /** For the first pair the "previous" sample is the last one: with increasing
      times its instant lies after the first sample's, so the speed at the start
      of the track is a distance over a negative duration, never positive. With two
      samples the "previous" one is the pair's own later sample. */
  lemma FirstPairLooksBackToLast(points: seq<TrackPoint>, dist: Geodesic)
    requires NonNegative(dist) && StrictlySorted(Times(points)) && |points| >= 2
    ensures SampleSteady(points, points[0].time, dist).Found?
    ensures SampleSteady(points, points[0].time, dist).sample.speed
      == dist(Position(points[|points| - 1]), Position(points[0]))
           / Seconds(points[0].time - points[|points| - 1].time) * 3.6
    ensures SampleSteady(points, points[0].time, dist).sample.speed <= 0.0
  {
    var times := Times(points);
    Series.BracketAtSample(times, 0);
    var n := |points|;
    assert times[0] < times[1] && times[0] < times[n - 1];
    var d := dist(Position(points[n - 1]), Position(points[0]));
    var secs := Seconds(points[0].time - points[n - 1].time);
    assert d >= 0.0 && secs < 0.0;
    NonPositiveQuotient(d, secs);
  }

  lemma NonPositiveQuotient(d: real, secs: real)
    requires d >= 0.0 && secs < 0.0
    ensures d / secs * 3.6 <= 0.0
  {
    assert d / secs <= 0.0;
  }
}
