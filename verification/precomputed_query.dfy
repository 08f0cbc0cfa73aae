/** The point-in-time query of the frame generator that reads the processed CSV:
    every field, metrics included, is interpolated between the two samples that
    bracket the requested instant. */
module PrecomputedQuery {
  import opened Telemetry
  import Series

  /** One processed CSV row as `parse_csv` returns it. */
  datatype CsvPoint = CsvPoint(
    latitude: real,
    longitude: real,
    elevation: real,
    time: Micros,
    temperature: Option<real>,
    heartRate: Option<real>,
    cadence: Option<real>,
    speed: real,
    totalDistance: real,
    totalAscent: real,
    totalDescent: real)

  /** The interpolated point handed to the frame renderer. */
  datatype Frame = Frame(
    latitude: real,
    longitude: real,
    elevation: real,
    temperature: Option<real>,
    heartRate: Option<real>,
    cadence: Option<real>,
    timestamp: Micros,
    speed: real,
    totalDistance: real,
    totalAscent: real,
    totalDescent: real)

  function Times(points: seq<CsvPoint>): (r: seq<Micros>)
    ensures |r| == |points| && forall i :: 0 <= i < |points| ==> r[i] == points[i].time
  {
    seq(|points|, i requires 0 <= i < |points| => points[i].time)
  }

  /** The dict literal of `interpolate_data`: each field at `ratio` between `b` and `a`. */
  function Blend(b: CsvPoint, a: CsvPoint, ts: Micros, ratio: real): Frame
  {
    Frame(
      Lerp(b.latitude, a.latitude, ratio),
      Lerp(b.longitude, a.longitude, ratio),
      Lerp(b.elevation, a.elevation, ratio),
      LerpOpt(b.temperature, a.temperature, ratio),
      LerpOpt(b.heartRate, a.heartRate, ratio),
      LerpOpt(b.cadence, a.cadence, ratio),
      ts,
      Lerp(b.speed, a.speed, ratio),
      Lerp(b.totalDistance, a.totalDistance, ratio),
      Lerp(b.totalAscent, a.totalAscent, ratio),
      Lerp(b.totalDescent, a.totalDescent, ratio))
  }

  /** What `interpolate_data(points, timestamp)` returns or raises. */
  function SampleAt(points: seq<CsvPoint>, ts: Micros): Query<Frame>
  {
    match Series.Bracket(Times(points), ts)
    case None => NotFound
    case Some(i) =>
      if points[i].time == points[i + 1].time then Raised(ZeroDivisionError)
      else Found(Blend(points[i], points[i + 1], ts, Ratio(ts, points[i].time, points[i + 1].time)))
  }

  /** `interpolate_data` of the precomputed-metrics frame generator. */
  method InterpolateData(points: seq<CsvPoint>, ts: Micros) returns (r: Query<Frame>)
    ensures r == SampleAt(points, ts)
  {
    var found := Series.FindBracket(Times(points), ts);
    if found.None? {
      return NotFound;
    }
    var before, after := points[found.value], points[found.value + 1];
    var totalTime := Seconds(after.time - before.time);
    if totalTime == 0.0 {
      return Raised(ZeroDivisionError);
    }
    var ratio := Seconds(ts - before.time) / totalTime;
    RatioOfSeconds(ts, before.time, after.time);
    r := Found(Blend(before, after, ts, ratio));
  }

  /** With samples in time order, the query finds nothing exactly when there are
      fewer than two samples or the instant lies outside [first, last]. */
  lemma NotFoundOutsideRange(points: seq<CsvPoint>, ts: Micros)
    requires Sorted(Times(points))
    ensures SampleAt(points, ts).NotFound? <==>
      |points| < 2 || ts < points[0].time || ts > points[|points| - 1].time
  {
    Series.BracketCoverage(Times(points), ts);
  }

  /** The result stamps the query instant; every numeric field lies between its
      values at the bracketing samples, and an optional field is present exactly
      when both samples have it (and then lies between theirs too). A repeated instant in the bracket divides by zero. */
  lemma FoundWithinBracket(points: seq<CsvPoint>, ts: Micros, i: nat)
    requires Series.Bracket(Times(points), ts) == Some(i)
    ensures i + 1 < |points| && points[i].time <= ts <= points[i + 1].time
    ensures points[i].time == points[i + 1].time ==> SampleAt(points, ts) == Raised(ZeroDivisionError)
    ensures points[i].time != points[i + 1].time ==> (SampleAt(points, ts).Found?
      && var f, b, a := SampleAt(points, ts).sample, points[i], points[i + 1];
      && f.timestamp == ts
      && Min(b.latitude, a.latitude) <= f.latitude <= Max(b.latitude, a.latitude)
      && Min(b.longitude, a.longitude) <= f.longitude <= Max(b.longitude, a.longitude)
      && Min(b.elevation, a.elevation) <= f.elevation <= Max(b.elevation, a.elevation)
      && Min(b.speed, a.speed) <= f.speed <= Max(b.speed, a.speed)
      && Min(b.totalDistance, a.totalDistance) <= f.totalDistance <= Max(b.totalDistance, a.totalDistance)
      && Min(b.totalAscent, a.totalAscent) <= f.totalAscent <= Max(b.totalAscent, a.totalAscent)
      && Min(b.totalDescent, a.totalDescent) <= f.totalDescent <= Max(b.totalDescent, a.totalDescent)
      && (f.temperature.Some? <==> b.temperature.Some? && a.temperature.Some?)
      && (f.heartRate.Some? <==> b.heartRate.Some? && a.heartRate.Some?)
      && (f.cadence.Some? <==> b.cadence.Some? && a.cadence.Some?)
      && (f.temperature.Some? ==>
            Min(b.temperature.value, a.temperature.value) <= f.temperature.value <= Max(b.temperature.value, a.temperature.value))
      && (f.heartRate.Some? ==>
            Min(b.heartRate.value, a.heartRate.value) <= f.heartRate.value <= Max(b.heartRate.value, a.heartRate.value))
      && (f.cadence.Some? ==>
            Min(b.cadence.value, a.cadence.value) <= f.cadence.value <= Max(b.cadence.value, a.cadence.value)))
  {
  }

  /** At a sample's own instant (strictly increasing times) the query returns that
      sample's mandatory values: an interior sample through the pair ending at it,
      ratio 1; the first sample through pair 0, ratio 0. An optional field is kept
      only when both samples of that pair have it. */
  lemma AtSampleTime(points: seq<CsvPoint>, j: nat)
    requires StrictlySorted(Times(points)) && 2 <= |points| && j < |points|
    ensures SampleAt(points, points[j].time).Found?
    ensures var f, p := SampleAt(points, points[j].time).sample, points[j];
      && f.latitude == p.latitude && f.longitude == p.longitude && f.elevation == p.elevation
      && f.speed == p.speed && f.totalDistance == p.totalDistance
      && f.totalAscent == p.totalAscent && f.totalDescent == p.totalDescent
      && (f.temperature.Some? ==> f.temperature == p.temperature)
      && (f.heartRate.Some? ==> f.heartRate == p.heartRate)
      && (f.cadence.Some? ==> f.cadence == p.cadence)
    ensures var f, i := SampleAt(points, points[j].time).sample, if j == 0 then 0 else j - 1;
      && (f.temperature.Some? <==> points[i].temperature.Some? && points[i + 1].temperature.Some?)
      && (f.heartRate.Some? <==> points[i].heartRate.Some? && points[i + 1].heartRate.Some?)
      && (f.cadence.Some? <==> points[i].cadence.Some? && points[i + 1].cadence.Some?)
  {
    var times := Times(points);
    Series.BracketAtSample(times, j);
    var i := if j == 0 then 0 else j - 1;
    assert times[i] < times[i + 1];
  }

  /** Halfway between two samples every numeric field is the average of theirs,
      the optional ones wherever they are present. */
  lemma MidpointAverages(points: seq<CsvPoint>, ts: Micros, i: nat)
    requires Series.Bracket(Times(points), ts) == Some(i)
    requires points[i].time != points[i + 1].time && 2 * ts == points[i].time + points[i + 1].time
    ensures SampleAt(points, ts).Found?
    ensures var f, b, a := SampleAt(points, ts).sample, points[i], points[i + 1];
      && f.latitude == (b.latitude + a.latitude) / 2.0
      && f.longitude == (b.longitude + a.longitude) / 2.0
      && f.elevation == (b.elevation + a.elevation) / 2.0
      && f.speed == (b.speed + a.speed) / 2.0
      && f.totalDistance == (b.totalDistance + a.totalDistance) / 2.0
      && f.totalAscent == (b.totalAscent + a.totalAscent) / 2.0
      && f.totalDescent == (b.totalDescent + a.totalDescent) / 2.0
      && (f.temperature.Some? ==> f.temperature.value == (b.temperature.value + a.temperature.value) / 2.0)
      && (f.heartRate.Some? ==> f.heartRate.value == (b.heartRate.value + a.heartRate.value) / 2.0)
      && (f.cadence.Some? ==> f.cadence.value == (b.cadence.value + a.cadence.value) / 2.0)
  {
  }
}
