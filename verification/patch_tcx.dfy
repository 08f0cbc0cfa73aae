/** The TCX patcher: TCX track points with their own gap filling, the lookup
    map keyed by millisecond timestamp strings, and the in-place replacement of
    speed and distance in the GPX rows whose `time` matches a key. */
module PatchTcx {
  import opened Telemetry
  import GapFill
  import opened TimeFormat

  /** One TCX track point: `time`, `distance_meters` and `speed` (km/h). */
  datatype TcxPoint = TcxPoint(time: Micros, distanceMeters: real, speed: real)

  function TimeOf(p: TcxPoint): Micros { p.time }

  function DistanceOf(p: TcxPoint): real { p.distanceMeters }

  /** The synthetic TCX point at instant `t` between `p` and `q`: distance frozen at
      `p`, speed 0. */
  function SynthTcx(p: TcxPoint, q: TcxPoint, t: Micros): TcxPoint
  {
    TcxPoint(t, p.distanceMeters, 0.0)
  }

  /** What `fill_gaps` of the TCX patcher returns or raises. */
  function FillGapsSpec(pts: seq<TcxPoint>): Result<seq<TcxPoint>>
  {
    if |pts| == 0 then Err(IndexError) else Ok(GapFill.Filled(pts, TimeOf, SynthTcx))
  }

  /** `fill_gaps` of the TCX patcher. */
  method FillGaps(points: seq<TcxPoint>) returns (r: Result<seq<TcxPoint>>)
    ensures r == FillGapsSpec(points)
  {
    var filled: seq<TcxPoint> := [];
    var i := 0;
    while i + 1 < |points|
      invariant 0 <= i && (|points| > 0 ==> i < |points|)
      invariant |points| > 0 ==> filled == GapFill.Prefix(points, i, TimeOf, SynthTcx)
    {
      var p, q := points[i], points[i + 1];
      filled := filled + [p];
      ghost var gap := GapFill.Gap(p, q, TimeOf, SynthTcx);
      ghost var base := filled;
      if q.time - p.time > MicrosPerSecond {
        var current := p.time;
        var k := 0;
        while q.time - current > MicrosPerSecond
          invariant 0 <= k <= |gap| && current == p.time + k * 1000000
          invariant filled == base + gap[..k]
          decreases q.time - current
        {
          current := current + MicrosPerSecond;
          filled := filled + [TcxPoint(current, p.distanceMeters, 0.0)];
          assert gap[..k + 1] == gap[..k] + [gap[k]];
          k := k + 1;
        }
        assert gap[..k] == gap;
      }
      i := i + 1;
    }
    if |points| == 0 {
      return Err(IndexError);
    }
    r := Ok(filled + [points[|points| - 1]]);
  }

  /** The originals survive in order and the last one ends the list. */
  lemma FilledKeepsOriginals(pts: seq<TcxPoint>, i: nat)
    requires i < |pts|
    ensures var f := FillGapsSpec(pts).value; var at := GapFill.Pos(pts, i, TimeOf, SynthTcx);
      && at < |f| && f[at] == pts[i] && f[|f| - 1] == pts[|pts| - 1]
      && (i + 1 < |pts| ==> at < GapFill.Pos(pts, i + 1, TimeOf, SynthTcx))
  {
    GapFill.FilledKeepsOriginals(pts, TimeOf, SynthTcx);
  }

  /** The points between originals i and i+1 sit on the one-second grid after point
      i, strictly before point i+1, with point i's distance and speed 0. */
  lemma FilledSynthetic(pts: seq<TcxPoint>, i: nat)
    requires i + 1 < |pts|
    ensures var f := FillGapsSpec(pts).value; var at := GapFill.Pos(pts, i, TimeOf, SynthTcx);
      && at + GapFill.FillCount(pts[i + 1].time - pts[i].time) < |f|
      && forall m :: at < m <= at + GapFill.FillCount(pts[i + 1].time - pts[i].time) ==>
           && f[m].time == pts[i].time + (m - at) * 1000000 < pts[i + 1].time
           && f[m].distanceMeters == pts[i].distanceMeters && f[m].speed == 0.0
  {
    GapFill.FilledGapContents(pts, i, TimeOf, SynthTcx);
  }

  /** Filling keeps a non-decreasing `distance_meters` non-decreasing, and turns
      strictly increasing instants into a list with no step over one second. */
  lemma FilledKeepsDistanceOrder(pts: seq<TcxPoint>)
    requires |pts| > 0
    requires forall k :: 0 <= k < |pts| - 1 ==> pts[k].distanceMeters <= pts[k + 1].distanceMeters
    ensures var f := FillGapsSpec(pts).value;
      forall k :: 0 <= k < |f| - 1 ==> f[k].distanceMeters <= f[k + 1].distanceMeters
    ensures GapFill.Increasing(pts, TimeOf) ==> GapFill.Dense(FillGapsSpec(pts).value, TimeOf)
  {
    GapFill.FilledKeepsMonotoneKey(pts, TimeOf, SynthTcx, DistanceOf);
    if GapFill.Increasing(pts, TimeOf) {
      GapFill.FilledDense(pts, TimeOf, SynthTcx);
    }
  }

  /** Instants a `datetime` can hold. */
  predicate InRange(pts: seq<TcxPoint>)
  {
    forall i :: 0 <= i < |pts| ==> 0 <= pts[i].time < MaxMicros
  }

  /** `point['time'].isoformat(timespec='milliseconds') + 'Z'`. */
  function Key(p: TcxPoint): string
    requires 0 <= p.time < MaxMicros
  {
    IsoMillisZ(FromMicros(p.time))
  }

  /** `{key(v): v for v in values}`: each value under its key, a later value
      replacing an earlier one with the same key. */
  function LaterWins<V>(keys: seq<string>, values: seq<V>): map<string, V>
    requires |keys| == |values|
  {
    if |keys| == 0 then map[]
    else LaterWins(keys[..|keys| - 1], values[..|keys| - 1])[keys[|keys| - 1] := values[|keys| - 1]]
  }

  /** The map's keys are exactly the given keys, and each maps to the value at its
      last occurrence. */
  lemma {:induction false} LaterWinsLookup<V>(keys: seq<string>, values: seq<V>, j: nat)
    requires |keys| == |values|
    ensures forall k :: k in LaterWins(keys, values) <==> k in keys
    ensures j < |keys| && (forall l :: j < l < |keys| ==> keys[l] != keys[j]) ==>
      LaterWins(keys, values)[keys[j]] == values[j]
  {
    var n := |keys|;
    if n > 0 {
      var ks, vs := keys[..n - 1], values[..n - 1];
      LaterWinsLookup(ks, vs, j);
      assert keys == ks + [keys[n - 1]];
      if j + 1 < n {
        assert ks[j] == keys[j];
        assert forall l :: j < l < |ks| ==> ks[l] == keys[l];
      }
    }
  }

  /** The key of every point, in order. */
  function Keys(pts: seq<TcxPoint>): (r: seq<string>)
    requires InRange(pts)
    ensures |r| == |pts| && forall i :: 0 <= i < |pts| ==> r[i] == Key(pts[i])
  {
    seq(|pts|, i requires 0 <= i < |pts| => Key(pts[i]))
  }

  /** `tcx_dict`. */
  function TcxIndex(pts: seq<TcxPoint>): map<string, TcxPoint>
    requires InRange(pts)
  {
    LaterWins(Keys(pts), pts)
  }

  /** A CSV cell as `csv.DictReader` yields it (text, or `None` for a short row),
      or a number the patch wrote. */
  datatype Cell = Text(text: string) | Number(number: real) | Blank

  /** One CSV row: column name to cell. */
  type Row = map<string, Cell>

  /** The TCX point whose key equals the row's `time`, if any. */
  function Match(row: Row, index: map<string, TcxPoint>): (r: Option<TcxPoint>)
    requires "time" in row
    ensures r.Some? <==> row["time"].Text? && row["time"].text in index
    ensures r.Some? ==> r.value == index[row["time"].text]
  {
    match row["time"]
    case Text(s) => if s in index then Some(index[s]) else None
    case _ => None
  }

  /** A row after the patch. */
  function PatchRow(row: Row, index: map<string, TcxPoint>, round: Rounding): Row
    requires "time" in row
  {
    match Match(row, index)
    case None => row
    case Some(p) => row["speed" := Number(p.speed)]["total_distance" := Number(round(p.distanceMeters / 1000.0, 3))]
  }

  /** On a match, `speed` becomes the point's speed and `total_distance` its distance
      in km rounded to three places; every other column, and every unmatched row,
      stays as it was. */
  lemma PatchRowEffect(row: Row, index: map<string, TcxPoint>, round: Rounding)
    requires "time" in row
    ensures var r := PatchRow(row, index, round);
      && (Match(row, index).None? ==> r == row)
      && (Match(row, index).Some? ==>
            && r.Keys == row.Keys + {"speed", "total_distance"}
            && r["speed"] == Number(Match(row, index).value.speed)
            && r["total_distance"] == Number(round(Match(row, index).value.distanceMeters / 1000.0, 3)))
      && forall c :: c in row && c != "speed" && c != "total_distance" ==> c in r && r[c] == row[c]
  {
  }

  /** The first row at or after `from` without a `time` column. */
  function FirstUntimed(rows: seq<Row>, from: nat): (r: Option<nat>)
    ensures r.Some? ==> from <= r.value < |rows| && "time" !in rows[r.value]
    ensures r.Some? ==> forall j :: from <= j < r.value ==> "time" in rows[j]
    ensures r.None? ==> forall j :: from <= j < |rows| ==> "time" in rows[j]
    decreases |rows| - from
  {
    if from >= |rows| then None
    else if "time" !in rows[from] then Some(from)
    else FirstUntimed(rows, from + 1)
  }

  /** The rows once rows 0 .. k-1 have been handled. */
  function PatchedUpTo(rows: seq<Row>, k: nat, index: map<string, TcxPoint>, round: Rounding): (r: seq<Row>)
    ensures |r| == |rows|
  {
    seq(|rows|, j requires 0 <= j < |rows| =>
      if j < k && "time" in rows[j] then PatchRow(rows[j], index, round) else rows[j])
  }

  /** What the replacement loop raises, if anything, and the rows it leaves: a row
      without `time` raises `KeyError` after the rows before it were patched. */
  function Patch(rows: seq<Row>, index: map<string, TcxPoint>, round: Rounding): (Option<Error>, seq<Row>)
  {
    match FirstUntimed(rows, 0)
    case Some(i) => (Some(KeyError), PatchedUpTo(rows, i, index, round))
    case None => (None, PatchedUpTo(rows, |rows|, index, round))
  }

  /** `replace_gpx_with_tcx` between reading and writing the CSV: build `tcx_dict`,
      then patch the rows. */
  method ReplaceSpeedAndDistance(rows: array<Row>, tcx: seq<TcxPoint>, round: Rounding)
    returns (raised: Option<Error>)
    requires InRange(tcx)
    modifies rows
    ensures (raised, rows[..]) == Patch(old(rows[..]), TcxIndex(tcx), round)
  {
    var index := TcxIndex(tcx);
    raised := PatchRows(rows, index, round);
  }

  /** `for gpx_point in gpx_points: ...`, each matched row updated in place. */
  method PatchRows(rows: array<Row>, index: map<string, TcxPoint>, round: Rounding)
    returns (raised: Option<Error>)
    modifies rows
    ensures (raised, rows[..]) == Patch(old(rows[..]), index, round)
  {
    ghost var s := rows[..];
    for i := 0 to rows.Length
      invariant FirstUntimed(s, 0) == FirstUntimed(s, i)
      invariant forall j :: 0 <= j < rows.Length ==>
        rows[j] == if j < i then PatchRow(s[j], index, round) else s[j]
    {
      var row := rows[i];
      if "time" !in row {
        assert rows[..] == PatchedUpTo(s, i, index, round);
        return Some(KeyError);
      }
      var timestamp := row["time"];
      if timestamp.Text? && timestamp.text in index {
        var p := index[timestamp.text];
        row := row["speed" := Number(p.speed)];
        row := row["total_distance" := Number(round(p.distanceMeters / 1000.0, 3))];
        rows[i] := row;
      }
      assert rows[i] == PatchRow(s[i], index, round);
    }
    assert rows[..] == PatchedUpTo(s, rows.Length, index, round);
    raised := None;
  }

  /** A row written by the GPX processor for instant `t` is patched exactly when some
      TCX point falls in the same millisecond. */
  lemma RowMatchesSameMillisecond(t: Micros, tcx: seq<TcxPoint>, row: Row)
    requires InRange(tcx) && 0 <= t < MaxMicros
    requires "time" in row && row["time"] == Text(FormatTimestamp(FromMicros(t)))
    ensures Match(row, TcxIndex(tcx)).Some? <==> exists i :: 0 <= i < |tcx| && tcx[i].time / 1000 == t / 1000
  {
    var key := FormatTimestamp(FromMicros(t));
    var keys := Keys(tcx);
    LaterWinsLookup(keys, tcx, 0);
    if key in keys {
      var i :| 0 <= i < |keys| && keys[i] == key;
      SameMillisecondIsSameKey(tcx[i].time, t);
    }
    if exists i :: 0 <= i < |tcx| && tcx[i].time / 1000 == t / 1000 {
      var i :| 0 <= i < |tcx| && tcx[i].time / 1000 == t / 1000;
      SameMillisecondIsSameKey(tcx[i].time, t);
      assert keys[i] == key;
    }
  }

  /** ... and the values come from the last TCX point in that millisecond. */
  lemma RowTakesLastInMillisecond(t: Micros, tcx: seq<TcxPoint>, row: Row, j: nat)
    requires InRange(tcx) && 0 <= t < MaxMicros
    requires "time" in row && row["time"] == Text(FormatTimestamp(FromMicros(t)))
    requires j < |tcx| && tcx[j].time / 1000 == t / 1000
    requires forall l :: j < l < |tcx| ==> tcx[l].time / 1000 != t / 1000
    ensures Match(row, TcxIndex(tcx)) == Some(tcx[j])
  {
    var keys := Keys(tcx);
    var key := FormatTimestamp(FromMicros(t));
    SameMillisecondIsSameKey(tcx[j].time, t);
    assert keys[j] == key;
    forall l | j < l < |keys|
      ensures keys[l] != key
    {
      SameMillisecondIsSameKey(tcx[l].time, t);
    }
    LaterWinsLookup(keys, tcx, j);
  }

  /** A TCX key equals the CSV `time` written for instant `t` exactly when the two
      instants share a millisecond. */
  lemma SameMillisecondIsSameKey(s: Micros, t: Micros)
    requires 0 <= s < MaxMicros && 0 <= t < MaxMicros
    ensures IsoMillisZ(FromMicros(s)) == FormatTimestamp(FromMicros(t)) <==> s / 1000 == t / 1000
  {
    FormatIsIsoKey(FromMicros(s));
    SameKeyIffSameMillisecond(s, t);
  }
}
