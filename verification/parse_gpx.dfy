/** The GPX track processor: track points, gap filling with interpolated
    temperature and heart rate, and the two-value interpolation it uses. */
module ParseGpx {
  import opened Telemetry
  import GapFill

  /** One track-point dictionary. The optional sensor fields are `None` when the
      GPX extension lacked them; the derived fields are `None` until the key is set. */
  datatype GpxPoint = GpxPoint(
    latitude: real,
    longitude: real,
    elevation: real,
    time: Micros,
    temperature: Option<real>,
    heartRate: Option<real>,
    cadence: Option<real>,
    speed: Option<real>,
    totalDistance: Option<real>,
    totalAscent: Option<real>,
    totalDescent: Option<real>)

  function TimeOf(p: GpxPoint): Micros { p.time }

  /** `interpolate(value1, value2, current_time, time1, time2)`: `None` when either
      value is `None`, otherwise the value on the line through the two samples.
      Python divides by the time difference only when both values are present. */
  function Interpolate(v1: Option<real>, v2: Option<real>, t: Micros, t1: Micros, t2: Micros): (r: Option<real>)
    requires v1.Some? && v2.Some? ==> t1 != t2
    ensures r.None? <==> v1.None? || v2.None?
    ensures r.Some? && t == t1 ==> r.value == v1.value
    ensures r.Some? && t == t2 ==> r.value == v2.value
    ensures r.Some? && t1 <= t <= t2 ==> Min(v1.value, v2.value) <= r.value <= Max(v1.value, v2.value)
  {
    if v1.None? || v2.None? then None
    else Some(Lerp(v1.value, v2.value, Ratio(t, t1, t2)))
  }

  /** `int(interpolate(...))` when the value is present. */
  function TruncOpt(v: Option<real>): Option<real>
  {
    if v.Some? then Some(Trunc(v.value) as real) else None
  }

  /** The synthetic point `fill_gaps` appends at instant `t` between `p` and `q`:
      position and elevation frozen at `p`, temperature and heart rate interpolated
      and truncated, cadence and speed 0. Only built for pairs more than 1 s apart. */
  function SynthPoint(p: GpxPoint, q: GpxPoint, t: Micros): GpxPoint
  {
    GpxPoint(
      p.latitude, p.longitude, p.elevation, t,
      if p.time == q.time then None else TruncOpt(Interpolate(p.temperature, q.temperature, t, p.time, q.time)),
      if p.time == q.time then None else TruncOpt(Interpolate(p.heartRate, q.heartRate, t, p.time, q.time)),
      Some(0.0), Some(0.0), None, None, None)
  }

  /** Pair i needs synthetic points but `int(None)` would be applied to one of its values. */
  predicate MissingAt(pts: seq<GpxPoint>, i: nat)
    requires i + 1 < |pts|
  {
    && GapFill.FillCount(pts[i + 1].time - pts[i].time) > 0
    && (|| pts[i].temperature.None? || pts[i + 1].temperature.None?
        || pts[i].heartRate.None? || pts[i + 1].heartRate.None?)
  }

  /** What `fill_gaps` returns or raises. */
  function FillGapsSpec(pts: seq<GpxPoint>): Result<seq<GpxPoint>>
  {
    if exists i :: 0 <= i && i + 1 < |pts| && MissingAt(pts, i) then Err(TypeError)
    else if |pts| == 0 then Err(IndexError)
    else Ok(GapFill.Filled(pts, TimeOf, SynthPoint))
  }

  /** The inner `while` of `fill_gaps` for one pair: the synthetic points at one-second
      steps after `p` while more than a second remains before `q`; `int(None)` raises
      on the first of them when a temperature or heart rate is missing. */
  method GapPoints(p: GpxPoint, q: GpxPoint) returns (r: Result<seq<GpxPoint>>)
    ensures r.Err? <==> (GapFill.FillCount(q.time - p.time) > 0
      && (p.temperature.None? || q.temperature.None? || p.heartRate.None? || q.heartRate.None?))
    ensures r.Err? ==> r.error == TypeError
    ensures r.Ok? ==> r.value == GapFill.Gap(p, q, TimeOf, SynthPoint)
  {
    ghost var gap := GapFill.Gap(p, q, TimeOf, SynthPoint);
    var added: seq<GpxPoint> := [];
    var current := p.time;
    var k := 0;
    while q.time - current > MicrosPerSecond
      invariant 0 <= k <= |gap| && current == p.time + k * 1000000
      invariant added == gap[..k]
      invariant k > 0 ==> p.temperature.Some? && q.temperature.Some? && p.heartRate.Some? && q.heartRate.Some?
      decreases q.time - current
    {
      current := current + MicrosPerSecond;
      if p.temperature.None? || q.temperature.None? || p.heartRate.None? || q.heartRate.None? {
        return Err(TypeError);
      }
      added := added + [SynthPoint(p, q, current)];
      assert gap[..k + 1] == gap[..k] + [gap[k]];
      k := k + 1;
    }
    assert gap[..k] == gap;
    r := Ok(added);
  }

  /** `fill_gaps` of the GPX processor. */
  method FillGaps(points: seq<GpxPoint>) returns (r: Result<seq<GpxPoint>>)
    ensures r == FillGapsSpec(points)
  {
    var filled: seq<GpxPoint> := [];
    var i := 0;
    while i + 1 < |points|
      invariant 0 <= i && (|points| > 0 ==> i < |points|)
      invariant |points| > 0 ==> filled == GapFill.Prefix(points, i, TimeOf, SynthPoint)
      invariant forall j :: 0 <= j < i && j + 1 < |points| ==> !MissingAt(points, j)
    {
      var p, q := points[i], points[i + 1];
      filled := filled + [p];
      if q.time - p.time > MicrosPerSecond {
        var gap := GapPoints(p, q);
        if gap.Err? {
          assert MissingAt(points, i);
          return Err(TypeError);
        }
        filled := filled + gap.value;
      }
      i := i + 1;
    }
    if |points| == 0 {
      return Err(IndexError);
    }
    filled := filled + [points[|points| - 1]];
    r := Ok(filled);
  }

  /** Each synthetic point keeps the left point's position and elevation, carries
      the truncated interpolated temperature and heart rate, cadence 0 and speed 0,
      at one-second steps after the left point. */
  lemma FilledSyntheticFields(pts: seq<GpxPoint>, i: nat, m: nat)
    requires FillGapsSpec(pts).Ok? && i + 1 < |pts|
    requires GapFill.Pos(pts, i, TimeOf, SynthPoint) < m <=
             GapFill.Pos(pts, i, TimeOf, SynthPoint) + GapFill.FillCount(pts[i + 1].time - pts[i].time)
    ensures m < |FillGapsSpec(pts).value|
    ensures var s := FillGapsSpec(pts).value[m];
      && s.latitude == pts[i].latitude && s.longitude == pts[i].longitude && s.elevation == pts[i].elevation
      && s.time == pts[i].time + (m - GapFill.Pos(pts, i, TimeOf, SynthPoint)) * 1000000
      && pts[i].time < s.time < pts[i + 1].time
      && s.cadence == Some(0.0) && s.speed == Some(0.0)
      && pts[i].temperature.Some? && pts[i + 1].temperature.Some?
      && pts[i].heartRate.Some? && pts[i + 1].heartRate.Some?
      && s.temperature == Some(Trunc(Lerp(pts[i].temperature.value, pts[i + 1].temperature.value,
                                         Ratio(s.time, pts[i].time, pts[i + 1].time))) as real)
      && s.heartRate == Some(Trunc(Lerp(pts[i].heartRate.value, pts[i + 1].heartRate.value,
                                       Ratio(s.time, pts[i].time, pts[i + 1].time))) as real)
  {
    GapFill.FilledGapContents(pts, i, TimeOf, SynthPoint);
    assert !MissingAt(pts, i);
  }

  /** Every original point survives in order, and the last one ends the result unchanged;
      a one-point list comes back as itself. */
  lemma FilledKeepsOriginals(pts: seq<GpxPoint>)
    requires FillGapsSpec(pts).Ok?
    ensures var f := FillGapsSpec(pts).value;
      && |f| >= |pts| && f[|f| - 1] == pts[|pts| - 1]
      && (forall i :: 0 <= i < |pts| ==>
            GapFill.Pos(pts, i, TimeOf, SynthPoint) < |f| && f[GapFill.Pos(pts, i, TimeOf, SynthPoint)] == pts[i])
      && (forall i :: 0 <= i < |pts| - 1 ==>
            GapFill.Pos(pts, i, TimeOf, SynthPoint) < GapFill.Pos(pts, i + 1, TimeOf, SynthPoint))
    ensures |pts| == 1 ==> FillGapsSpec(pts).value == pts
  {
    GapFill.FilledKeepsOriginals(pts, TimeOf, SynthPoint);
    var n := |pts|;
    assert GapFill.Pos(pts, n - 1, TimeOf, SynthPoint) >= n - 1 by {
      PosAtLeast(pts, n - 1);
    }
  }

  lemma {:induction false} PosAtLeast(pts: seq<GpxPoint>, i: nat)
    requires i < |pts|
    ensures GapFill.Pos(pts, i, TimeOf, SynthPoint) >= i
  {
    if i > 0 {
      PosAtLeast(pts, i - 1);
    }
  }

  /** For strictly increasing instants, the result is strictly increasing with no
      consecutive gap over one second, so every instant in it is distinct, and
      filling it again changes nothing. */
  lemma FilledDenseAndIdempotent(pts: seq<GpxPoint>)
    requires FillGapsSpec(pts).Ok? && GapFill.Increasing(pts, TimeOf)
    ensures GapFill.Dense(FillGapsSpec(pts).value, TimeOf)
    ensures var f := FillGapsSpec(pts).value; forall j, k :: 0 <= j < k < |f| ==> f[j].time < f[k].time
    ensures FillGapsSpec(FillGapsSpec(pts).value) == FillGapsSpec(pts)
  {
    var f := FillGapsSpec(pts).value;
    GapFill.FilledDense(pts, TimeOf, SynthPoint);
    assert GapFill.Increasing(f, TimeOf);
    forall j, k | 0 <= j < k < |f|
      ensures f[j].time < f[k].time
    {
      GapFill.IncreasingIsSorted(f, TimeOf, j, k);
    }
    assert GapFill.NoGaps(f, TimeOf);
    GapFill.FilledNoGapsIsIdentity(f, TimeOf, SynthPoint);
    assert forall j :: 0 <= j && j + 1 < |f| ==> !MissingAt(f, j);
  }

  /** A pair with a gap over one second and an absent temperature or heart rate
      makes `fill_gaps` raise rather than propagate `None`. */
  lemma MissingValueRaises(pts: seq<GpxPoint>, i: nat)
    requires i + 1 < |pts| && pts[i + 1].time - pts[i].time > 1000000
    requires || pts[i].temperature.None? || pts[i + 1].temperature.None?
             || pts[i].heartRate.None? || pts[i + 1].heartRate.None?
    ensures FillGapsSpec(pts) == Err(TypeError)
  {
    assert MissingAt(pts, i);
  }
}
