/** `calculate_speed_and_distance` of the GPX processor: one left-to-right pass
    that writes speed, cumulative distance, ascent and descent into every point,
    in place. */
module GpxMetrics {
  import opened Telemetry
  import opened ParseGpx
  import Series

  function Position(p: GpxPoint): LatLon
  {
    LatLon(p.latitude, p.longitude)
  }

  function Positions(s: seq<GpxPoint>): (r: seq<LatLon>)
    ensures |r| == |s| && forall i :: 0 <= i < |s| ==> r[i] == Position(s[i])
  {
    seq(|s|, i requires 0 <= i < |s| => Position(s[i]))
  }

  /** Step i (from point i-1 to point i) is a recording gap: 3 s or more. */
  predicate IsGap(s: seq<GpxPoint>, i: nat)
    requires 1 <= i < |s|
  {
    Seconds(s[i].time - s[i - 1].time) >= 3.0
  }

  /** Step i divides by a zero `time_diff`. */
  predicate Stalls(s: seq<GpxPoint>, i: nat)
    requires 1 <= i < |s|
  {
    s[i].time == s[i - 1].time
  }

  function StepDistance(s: seq<GpxPoint>, i: nat, dist: Geodesic): real
    requires 1 <= i < |s|
  {
    dist(Position(s[i - 1]), Position(s[i]))
  }

  /** The accumulators `total_distance` (meters), `total_ascent`, `total_descent`. */
  datatype Totals = Totals(distance: real, ascent: real, descent: real)

  /** The accumulators after step i. */
  function TotalsAt(s: seq<GpxPoint>, i: nat, dist: Geodesic): Totals
    requires i < |s|
  {
    if i == 0 then Totals(0.0, 0.0, 0.0)
    else
      var prev := TotalsAt(s, i - 1, dist);
      var rise := s[i].elevation - s[i - 1].elevation;
      Totals(
        if IsGap(s, i) then prev.distance else prev.distance + StepDistance(s, i, dist),
        if rise > 0.0 then prev.ascent + rise else prev.ascent,
        if rise > 0.0 then prev.descent else prev.descent - rise)
  }

  /** `dist / time_diff * 3.6`: meters per second as km/h. */
  function KmPerHour(meters: real, seconds: real): real
    requires seconds != 0.0
  {
    meters / seconds * 3.6
  }

  /** The speed written at step i, in km/h rounded to one decimal. */
  function SpeedAt(s: seq<GpxPoint>, i: nat, dist: Geodesic, round: Rounding): real
    requires 1 <= i < |s| && !Stalls(s, i)
  {
    if IsGap(s, i) then 0.0
    else round(KmPerHour(StepDistance(s, i, dist), Seconds(s[i].time - s[i - 1].time)), 1)
  }

  /** Point i once step i has written it. */
  function Annotate(s: seq<GpxPoint>, i: nat, dist: Geodesic, round: Rounding): GpxPoint
    requires 1 <= i < |s| && !Stalls(s, i)
  {
    var t := TotalsAt(s, i, dist);
    s[i].(speed := Some(SpeedAt(s, i, dist, round)),
          totalDistance := Some(round(t.distance / 1000.0, 2)),
          totalAscent := Some(round(t.ascent, 2)),
          totalDescent := Some(round(t.descent, 2)))
  }

  /** Point 0 after the pass: speed and every total 0. */
  function Origin(p: GpxPoint): GpxPoint
  {
    p.(speed := Some(0.0), totalDistance := Some(0.0), totalAscent := Some(0.0), totalDescent := Some(0.0))
  }

  /** The list once steps 1 .. k-1 have been written (the pass only gets that far
      when none of them stalls). */
  function Partial(s: seq<GpxPoint>, k: nat, dist: Geodesic, round: Rounding): (r: seq<GpxPoint>)
    ensures |r| == |s|
  {
    seq(|s|, j requires 0 <= j < |s| => if 1 <= j < k && !Stalls(s, j) then Annotate(s, j, dist, round) else s[j])
  }

  /** The first stalled step at or after `from`. */
  function FirstStall(s: seq<GpxPoint>, from: nat): (r: Option<nat>)
    requires 1 <= from
    ensures r.Some? ==> from <= r.value < |s| && Stalls(s, r.value)
    ensures r.Some? ==> forall j :: from <= j < r.value ==> !Stalls(s, j)
    ensures r.None? ==> forall j :: from <= j < |s| ==> !Stalls(s, j)
    decreases |s| - from
  {
    if from >= |s| then None
    else if Stalls(s, from) then Some(from)
    else FirstStall(s, from + 1)
  }

  /** What the pass raises, if anything, and the list it leaves behind: on a zero
      `time_diff` at step i the points before i are already written; an empty list
      fails on `points[0]`. */
  function Metrics(s: seq<GpxPoint>, dist: Geodesic, round: Rounding): (Option<Error>, seq<GpxPoint>)
  {
    match FirstStall(s, 1)
    case Some(i) => (Some(ZeroDivisionError), Partial(s, i, dist, round))
    case None =>
      if |s| == 0 then (Some(IndexError), s)
      else (None, Partial(s, |s|, dist, round)[0 := Origin(s[0])])
  }

  /** `calculate_speed_and_distance(points)`, updating the points in place. */
  method CalculateSpeedAndDistance(points: array<GpxPoint>, dist: Geodesic, round: Rounding)
    returns (raised: Option<Error>)
    modifies points
    ensures (raised, points[..]) == Metrics(old(points[..]), dist, round)
  {
    ghost var s := points[..];
    var totalDistance, totalAscent, totalDescent := 0.0, 0.0, 0.0;
    var i := 1;
    while i < points.Length
      invariant 1 <= i && (points.Length > 0 ==> i <= points.Length)
      invariant FirstStall(s, 1) == FirstStall(s, i)
      invariant forall j :: 0 <= j < points.Length ==>
        points[j] == if 1 <= j < i then Annotate(s, j, dist, round) else s[j]
      invariant |s| > 0 ==> Totals(totalDistance, totalAscent, totalDescent) == TotalsAt(s, i - 1, dist)
    {
      var p, q := points[i - 1], points[i];
      assert q == s[i] && p.time == s[i - 1].time && p.elevation == s[i - 1].elevation;
      assert Position(p) == Position(s[i - 1]);
      var timeDiff := Seconds(q.time - p.time);
      var elevationDiff := q.elevation - p.elevation;
      var speed := 0.0;
      if timeDiff < 3.0 {
        var d := dist(LatLon(p.latitude, p.longitude), LatLon(q.latitude, q.longitude));
        totalDistance := totalDistance + d;
        if timeDiff == 0.0 {
          assert FirstStall(s, i) == Some(i);
          assert points[..] == Partial(s, i, dist, round);
          return Some(ZeroDivisionError);
        }
        assert d == StepDistance(s, i, dist);
        speed := round(KmPerHour(d, timeDiff), 1);
      }
      assert speed == SpeedAt(s, i, dist, round);
      if elevationDiff > 0.0 {
        totalAscent := totalAscent + elevationDiff;
      } else {
        totalDescent := totalDescent - elevationDiff;
      }
      assert Totals(totalDistance, totalAscent, totalDescent) == TotalsAt(s, i, dist);
      points[i] := q.(speed := Some(speed),
                      totalDistance := Some(round(totalDistance / 1000.0, 2)),
                      totalAscent := Some(round(totalAscent, 2)),
                      totalDescent := Some(round(totalDescent, 2)));
      assert points[i] == Annotate(s, i, dist, round);
      i := i + 1;
    }
    if points.Length == 0 {
      assert points[..] == s;
      return Some(IndexError);
    }
    assert points[..] == Partial(s, |s|, dist, round);
    points[0] := Origin(points[0]);
    raised := None;
  }

  /** The three accumulators never decrease (distance only when geodesic
      distances are non-negative) and never go below zero. */
  lemma {:induction false} TotalsMonotone(s: seq<GpxPoint>, i: nat, j: nat, dist: Geodesic)
    requires NonNegative(dist) && i <= j < |s|
    ensures 0.0 <= TotalsAt(s, i, dist).distance <= TotalsAt(s, j, dist).distance
    ensures 0.0 <= TotalsAt(s, i, dist).ascent <= TotalsAt(s, j, dist).ascent
    ensures 0.0 <= TotalsAt(s, i, dist).descent <= TotalsAt(s, j, dist).descent
    decreases j
  {
    if i < j {
      TotalsMonotone(s, i, j - 1, dist);
      assert StepDistance(s, j, dist) >= 0.0;
    } else if i > 0 {
      TotalsMonotone(s, i - 1, i - 1, dist);
      assert StepDistance(s, i, dist) >= 0.0;
    }
  }

  /** Ascent minus descent is the net change of elevation since point 0: every
      step feeds its elevation delta to one of the two, gap or not. */
  lemma {:induction false} ElevationBalance(s: seq<GpxPoint>, i: nat, dist: Geodesic)
    requires i < |s|
    ensures TotalsAt(s, i, dist).ascent - TotalsAt(s, i, dist).descent == s[i].elevation - s[0].elevation
  {
    if i > 0 {
      ElevationBalance(s, i - 1, dist);
    }
  }

  /** A step of 3 s or more writes speed 0 and adds no distance, yet its elevation
      change still reaches ascent or descent. */
  lemma GapStepFreezesDistanceOnly(s: seq<GpxPoint>, i: nat, dist: Geodesic, round: Rounding)
    requires 1 <= i < |s| && Seconds(s[i].time - s[i - 1].time) >= 3.0
    ensures !Stalls(s, i) && SpeedAt(s, i, dist, round) == 0.0
    ensures TotalsAt(s, i, dist).distance == TotalsAt(s, i - 1, dist).distance
    ensures TotalsAt(s, i, dist).ascent - TotalsAt(s, i - 1, dist).ascent
          - (TotalsAt(s, i, dist).descent - TotalsAt(s, i - 1, dist).descent)
         == s[i].elevation - s[i - 1].elevation
  {
  }

  /** The running distance is at most the path length over the same prefix, and
      equals it when no step up to i was a gap. */
  lemma {:induction false} DistanceWithinPathLength(s: seq<GpxPoint>, i: nat, dist: Geodesic)
    requires NonNegative(dist) && i < |s|
    ensures TotalsAt(s, i, dist).distance <= Series.PathLength(Positions(s), i, dist)
    ensures (forall j :: 1 <= j <= i ==> !IsGap(s, j)) ==>
      TotalsAt(s, i, dist).distance == Series.PathLength(Positions(s), i, dist)
  {
    if i > 0 {
      DistanceWithinPathLength(s, i - 1, dist);
      assert StepDistance(s, i, dist) == dist(Positions(s)[i - 1], Positions(s)[i]);
      assert StepDistance(s, i, dist) >= 0.0;
    }
  }

  /** After a pass that raised nothing the list has its old length, point 0 holds
      speed 0 and zero totals, and every later point holds its step's speed and the
      rounded running totals, distance in km; nothing else of a point changes. */
  lemma MetricsWritesEveryPoint(s: seq<GpxPoint>, dist: Geodesic, round: Rounding)
    requires Metrics(s, dist, round).0.None?
    ensures var r := Metrics(s, dist, round).1;
      && |r| == |s| > 0
      && r[0] == s[0].(speed := Some(0.0), totalDistance := Some(0.0), totalAscent := Some(0.0), totalDescent := Some(0.0))
      && forall i :: 1 <= i < |s| ==>
           !Stalls(s, i)
           && r[i].speed == Some(SpeedAt(s, i, dist, round))
           && r[i].totalDistance == Some(round(TotalsAt(s, i, dist).distance / 1000.0, 2))
           && r[i].totalAscent == Some(round(TotalsAt(s, i, dist).ascent, 2))
           && r[i].totalDescent == Some(round(TotalsAt(s, i, dist).descent, 2))
           && r[i].(speed := s[i].speed, totalDistance := s[i].totalDistance,
                    totalAscent := s[i].totalAscent, totalDescent := s[i].totalDescent) == s[i]
  {
  }

  /** A zero time step raises after the earlier points were written, leaving the
      stalled point and everything after it (and point 0) untouched. */
  lemma StallLeavesPartialWrite(s: seq<GpxPoint>, i: nat, dist: Geodesic, round: Rounding)
    requires 1 <= i < |s| && s[i].time == s[i - 1].time
    ensures Metrics(s, dist, round).0 == Some(ZeroDivisionError)
    ensures var r := Metrics(s, dist, round).1;
      |r| == |s| && forall j :: 0 <= j < |s| && (j == 0 || j >= i) ==> r[j] == s[j]
  {
    assert Stalls(s, i);
    var k := FirstStall(s, 1).value;
    assert k <= i;
    assert Metrics(s, dist, round).1 == Partial(s, k, dist, round);
  }
}
