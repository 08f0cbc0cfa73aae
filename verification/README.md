# bike_overlay telemetry engine, modelled in Dafny

bike_overlay turns a cycling GPS track (GPX, optionally corrected by a TCX
export) into one overlay image per video frame. This project models the
time-series core of those scripts:

- **Gap filling** (`fill_gaps` in `1_parse_gpx.py` and `2_patch_tcx.py`). A
  point is inserted every second across any gap of more than one second. In
  the GPX copy, temperature and heart rate are interpolated and truncated.
  The TCX copy carries the distance forward with speed 0. The generic
  construction is `GapFill`; `ParseGpx` and `PatchTcx` instantiate it.
- **Per-point metrics** (`calculate_speed_and_distance`). One pass over the
  point list computes speed, distance and ascent/descent totals in place
  (`GpxMetrics`, over an `array`).
- **Timestamp keys**. `format_timestamp` produces
  `%Y-%m-%dT%H:%M:%S.%f` cut to milliseconds plus `Z`. The TCX lookup table is
  keyed by `isoformat(timespec='milliseconds') + 'Z'`. `TimeFormat` models
  both on a proleptic-Gregorian `DateTime`, built from microseconds since
  0001-01-01.
- **TCX patching** (`replace_gpx_with_tcx`). The timestamp dictionary is
  built, where later points win. Each CSV row's speed and total distance are
  then overwritten in place (`PatchTcx`).
- **Point-in-time queries** (`interpolate_data` in three generators). The
  first pair of samples that brackets the instant is found (`Series`) and
  interpolated. `PrecomputedQuery` blends the metrics stored in the CSV.
  `OnDemandQuery` computes speed and distance from the geodesic, in the
  variant that freezes across pauses over 5 s and in the variant that does
  not.
- **Frame clock and route marker** (`FrameClock`, `Series.FindNearestPoint`).

Conventions:

- Instants and durations are integers of microseconds, which is what Python's
  `datetime` and `timedelta` hold.
- `total_seconds()` is the exact quotient.
- geopy's geodesic `distance(...).meters` and Python's `round` are function
  parameters.
- Python exceptions are values: `Error`, inside a `Result` or `Query`, or
  alongside the partially updated state.

## Model

| member | source | states |
|---|---|---|
| Telemetry.Lerp | 1_parse_gpx.py:113 | the blend is `a` at ratio 0, `b` at ratio 1, the average at 0.5, and between `a` and `b` for ratios in [0, 1] |
| Telemetry.LerpOpt | 3_generate_frames.py:49-51 | the optional blend is present exactly when both samples have the value; when present, it gives the endpoint values at ratios 0 and 1, the average at 0.5, and a value between the two for ratios in [0, 1] |
| Telemetry.Ratio | 1_parse_gpx.py:112 | the time ratio is 0 at the first instant, 1 at the second, in [0, 1] between them and 0.5 at the midpoint |
| Telemetry.RatioOfSeconds | 3_generate_frames.py:42-43 | the quotient of the two `total_seconds()` values equals the ratio of the microsecond durations |
| Telemetry.Trunc | 1_parse_gpx.py:86-89 | `int(x)` truncates toward zero: the result is the integer of x's sign nearest zero that is within 1 of x |
| GapFill.FillCount | 1_parse_gpx.py:78-80 | a gap of at most 1 s gets no inserted point; a gap g gets n points with n s < g <= (n+1) s |
| GapFill.PrefixGrows | 1_parse_gpx.py:74-80 | originals keep their order in the output; each is followed by exactly its gap's inserted points, and earlier output is never rewritten |
| GapFill.FilledKeepsOriginals | 1_parse_gpx.py:74-94 | every original point appears at its position in the filled list; the first is at 0 and the last closes the list |
| GapFill.FilledGapContents | 1_parse_gpx.py:78-92 | the points after original i are the synthetic points at i's time plus 1 s, 2 s, …, all before point i+1 |
| GapFill.FilledDense | 1_parse_gpx.py:74-94 | for strictly increasing input, the filled times strictly increase with no consecutive gap over 1 s |
| GapFill.FilledNoGapsIsIdentity | 1_parse_gpx.py:74-94 | input with no gap over 1 s comes back unchanged, so filling is idempotent |
| GapFill.FilledKeepsMonotoneKey | 2_patch_tcx.py:67-80 | a field that never decreases along the input and that synthetic points copy from the left point never decreases along the output |
| ParseGpx.Interpolate | 1_parse_gpx.py:96-113 | `None` exactly when either value is `None`; otherwise the endpoint values at the endpoint instants and a value between the two in between |
| ParseGpx.GapPoints | 1_parse_gpx.py:77-92 | the inner loop yields exactly the synthetic points at one-second steps for the pair; it raises TypeError exactly when points are needed and a temperature or heart rate at either end is missing |
| ParseGpx.FillGaps | 1_parse_gpx.py:63-94 | returns the filled list; raises TypeError when a gap needs points but a temperature or heart rate is missing, and IndexError on an empty list |
| ParseGpx.FilledSyntheticFields | 1_parse_gpx.py:78-92 | each inserted point keeps the left point's position and elevation, sits 1 s, 2 s, … after it and before the right point, has cadence 0 and speed 0, and has truncated interpolated temperature and heart rate |
| ParseGpx.FilledKeepsOriginals | 1_parse_gpx.py:74-94 | originals survive in order; the last point closes the list; a single point is returned as is |
| ParseGpx.FilledDenseAndIdempotent | 1_parse_gpx.py:74-94 | for increasing times, the result has no gap over 1 s and strictly increasing instants throughout, and filling it again returns the same result |
| ParseGpx.MissingValueRaises | 1_parse_gpx.py:86-89 | a gap over 1 s with an absent temperature or heart rate at either end makes the call raise TypeError |
| GpxMetrics.CalculateSpeedAndDistance | 1_parse_gpx.py:116-154 | the array ends equal to `Metrics` of its old contents: steps of 3 s or more get speed 0 and add no distance, other steps get rounded km/h; the rounded running totals are in km and m, and point 0 is zeroed; a zero time step raises ZeroDivisionError with the earlier points already written; an empty list raises IndexError |
| GpxMetrics.FirstStall | 1_parse_gpx.py:130-139 | finds the first step with equal times, with no such step before it |
| GpxMetrics.TotalsMonotone | 1_parse_gpx.py:129-148 | with non-negative distances, the three running totals are non-negative and never decrease along the list |
| GpxMetrics.ElevationBalance | 1_parse_gpx.py:131-144 | ascent minus descent equals the elevation change since point 0 |
| GpxMetrics.GapStepFreezesDistanceOnly | 1_parse_gpx.py:133-144 | a step of 3 s or more writes speed 0 and adds no distance, but its elevation change still reaches ascent or descent |
| GpxMetrics.DistanceWithinPathLength | 1_parse_gpx.py:133-138 | the running distance is at most the path length of the same prefix, and equal to it when no step was a gap |
| GpxMetrics.MetricsWritesEveryPoint | 1_parse_gpx.py:129-154 | without an error, every point keeps its length, position and sensors and receives its step's speed and rounded totals; point 0 gets zeros |
| GpxMetrics.StallLeavesPartialWrite | 1_parse_gpx.py:130-139 | equal times at step i raise ZeroDivisionError and leave point 0 and every point from i on untouched |
| TimeFormat.DaysInMonth | 1_parse_gpx.py:166 | months have 28 to 31 days |
| TimeFormat.MonthsFillYear | 1_parse_gpx.py:166 | the twelve months add up to the year's 365 or 366 days |
| TimeFormat.YearStep | 1_parse_gpx.py:166 | the closed-form day count before a year advances by that year's length |
| TimeFormat.CivilCorrect | 1_parse_gpx.py:166 | the day-number-to-date conversion yields a valid date whose ordinal is the day number |
| TimeFormat.CivilWithinRange | 1_parse_gpx.py:166 | day numbers below 3652059 fall in years up to 9999 |
| TimeFormat.FromMicros | 1_parse_gpx.py:166 | every instant in datetime's range has a well-formed date and time that converts back to the same microsecond count |
| TimeFormat.Fixed | 1_parse_gpx.py:166 | zero-padded fields have the requested width and only digits |
| TimeFormat.ValueFixed | 1_parse_gpx.py:166 | a zero-padded field reads back as the number that was padded |
| TimeFormat.DropThreeDigits | 1_parse_gpx.py:166 | cutting the last three characters of `%f` leaves the zero-padded milliseconds |
| TimeFormat.FormatTimestamp | 1_parse_gpx.py:156-166 | the key has the fixed 24-character shape `YYYY-MM-DDTHH:MM:SS.mmmZ`: the date-time head, then three millisecond digits |
| TimeFormat.FormatIsIsoKey | 2_patch_tcx.py:100 | the GPX key format and the TCX dictionary's key format produce the same string |
| TimeFormat.KeyFieldsRoundTrip | 1_parse_gpx.py:166 | reading a key back gives the date-time truncated to the millisecond |
| TimeFormat.TruncatedMicros | 1_parse_gpx.py:166 | the truncated date-time is the instant rounded down to a whole millisecond |
| TimeFormat.SameKeyIffSameMillisecond | 1_parse_gpx.py:166 | two instants format to the same key if and only if they fall in the same millisecond |
| TimeFormat.SameMillisecondSameFields | 1_parse_gpx.py:166 | instants in the same millisecond truncate to the same date-time |
| PatchTcx.FillGaps | 2_patch_tcx.py:56-80 | returns the filled TCX list, raising IndexError on an empty list |
| PatchTcx.FilledKeepsOriginals | 2_patch_tcx.py:67-80 | every TCX point appears at its position in the filled list |
| PatchTcx.FilledSynthetic | 2_patch_tcx.py:72-78 | each inserted TCX point sits 1 s, 2 s, … after the left point, keeps its distance and has speed 0 |
| PatchTcx.FilledKeepsDistanceOrder | 2_patch_tcx.py:67-80 | a non-decreasing distance stays non-decreasing after filling; increasing times leave no gap over 1 s |
| PatchTcx.LaterWinsLookup | 2_patch_tcx.py:100 | the dictionary comprehension's keys are exactly the generated keys, and a key maps to the last point that produced it |
| PatchTcx.PatchRowEffect | 2_patch_tcx.py:103-107 | a matched row gets the TCX speed and the distance in km rounded to 3 places, and nothing else changes; an unmatched row is unchanged |
| PatchTcx.FirstUntimed | 2_patch_tcx.py:103-104 | finds the first row without a time column, with none before it |
| PatchTcx.PatchRows | 2_patch_tcx.py:103-107 | every row is patched in order; a row without a time column raises KeyError and leaves it and the later rows unpatched |
| PatchTcx.ReplaceSpeedAndDistance | 2_patch_tcx.py:100-107 | the rows end patched against the dictionary built from the TCX points |
| PatchTcx.RowMatchesSameMillisecond | 2_patch_tcx.py:100-105 | a row whose time was written by the GPX processor matches if and only if some TCX point falls in the same millisecond |
| PatchTcx.RowTakesLastInMillisecond | 2_patch_tcx.py:100-106 | such a row takes the last TCX point in its millisecond |
| PatchTcx.SameMillisecondIsSameKey | 2_patch_tcx.py:100 | a TCX key equals a GPX key if and only if the two instants share a millisecond |
| Series.FindBracket | 3_generate_frames.py:34-39 | returns the first i whose pair (i, i+1) contains the instant, or none |
| Series.BracketCoverage | 3_generate_frames.py:34-40 | with sorted times, a bracket exists if and only if there are two samples and the instant is within [first, last] |
| Series.BracketAtSample | 3_generate_frames.py:34-39 | with strictly increasing times, sample j's instant is bracketed by pair j-1, or by pair 0 for the first sample |
| Series.IndexOf | generate_frames.py:111 | `list.index` returns the first position holding an equal element |
| Series.IndexOfDistinct | generate_frames.py:111 | in a list of distinct elements, `list.index` of element i is i |
| Series.SumSegments | generate_frames.py:110-114 | the summing loop returns the geodesic length of the track up to the given index |
| Series.PathLengthMonotone | generate_frames.py:110-114 | with non-negative distances, the track length up to an index is non-negative and never decreases with the index |
| Series.FindNearestPoint | generate_frames.py:122-131 | returns -1 exactly for an empty route; otherwise the first index of least distance to the current point |
| FrameClock.StepAt59_9401FpsIsNearest | 3_generate_frames.py:195-196 | the 16683 µs frame step is `1 / 59.9401` seconds rounded to the nearest microsecond, as `timedelta` rounds |
| FrameClock.StepAt60FpsIsNearest | generate_frames.py:291-292 | the 16667 µs frame step is `1 / 60` seconds rounded to the nearest microsecond; main.py:247-248 builds the same step |
| FrameClock.FrameTimestamps | 3_generate_frames.py:199-202 | the frame instants start at the start, step by the frame interval, stay within [start, end], strictly increase, and end at the last step not after the end |
| PrecomputedQuery.InterpolateData | 3_generate_frames.py:32-59 | returns nothing without a bracketing pair, raises ZeroDivisionError for a pair with equal times, and otherwise returns every field blended at the time ratio |
| PrecomputedQuery.NotFoundOutsideRange | 3_generate_frames.py:34-40 | with sorted times, the query returns nothing if and only if there are fewer than two samples or the instant is outside [first, last] |
| PrecomputedQuery.FoundWithinBracket | 3_generate_frames.py:42-57 | the frame carries the query instant; an optional field is present exactly when both samples have it; every numeric field, including the optional ones where present, lies between the bracketing samples' values; a repeated instant raises |
| PrecomputedQuery.AtSampleTime | 3_generate_frames.py:34-57 | with increasing times, querying a sample's own instant gives that sample's mandatory fields; an optional field, where the frame has it, equals the sample's, and it is absent when the neighbouring sample of the pair lacks it, so the sample does not always come back unmodified |
| PrecomputedQuery.MidpointAverages | 3_generate_frames.py:45-56 | halfway between two samples every numeric field is their average, including temperature, heart rate and cadence where present |
| OnDemandQuery.Prev | generate_frames.py:101 | `points[index - 1]` is index - 1 reduced modulo the length, as Python resolves a negative index; index 0 therefore names the last sample |
| OnDemandQuery.DistanceUpTo | generate_frames.py:110-114 | `points.index(before)` followed by the summing loop gives the track length up to the first equal sample |
| OnDemandQuery.Interpolate | generate_frames.py:75-118 | the interpolating branch raises ZeroDivisionError for a zero current or previous duration; otherwise it blends position and sensors, blends the previous and current segment speeds in km/h, and adds the covered share of the segment to the distance |
| OnDemandQuery.InterpolateDataPausing | generate_frames.py:44-118 | returns nothing without a bracket; across a pause over 5 s, returns the held earlier sample; otherwise the interpolating branch with the instant stamped |
| OnDemandQuery.InterpolateDataSteady | main.py:42-96 | returns nothing without a bracket, otherwise the interpolating branch with no timestamp key |
| OnDemandQuery.NotFoundOutsideRange | generate_frames.py:47-54 | with sorted times, both variants return nothing if and only if there are fewer than two samples or the instant is outside [first, last] |
| OnDemandQuery.DistanceBeforeDistinct | generate_frames.py:111 | for distinct samples the distance before the bracket is the track length up to the bracket's first sample |
| OnDemandQuery.PauseFreezes | generate_frames.py:55-72 | across a pause over 5 s the frame holds every value of the earlier sample, with speed 0 and the distance up to that sample |
| OnDemandQuery.VariantsAgreeWithoutPause | main.py:42-96 | for pairs at most 5 s apart the two variants raise the same error or return the same frame except for the timestamp key |
| OnDemandQuery.MovingOdometer | generate_frames.py:98-116 | with non-negative distances, an interpolated frame's distance lies between the distance before the pair and that plus the whole segment |
| OnDemandQuery.DistanceBetweenSamples | generate_frames.py:98-116 | for distinct samples, the reported distance lies between the track length at the earlier and at the later bracketing sample |
| OnDemandQuery.SpeedAtSampleInstants | generate_frames.py:101-107 | at the earlier sample's instant the speed is the previous segment's average in km/h; at the later one's, the current segment's |
| OnDemandQuery.FirstPairLooksBackToLast | generate_frames.py:101-107 | for the first pair, the speed at the start uses the last sample as "previous" (for two samples, the pair's own later sample); with increasing times and non-negative distances, it is never positive |

## Left out

- Reading GPX, TCX and CSV files, and writing CSV (`parse_gpx`, `parse_tcx`, `parse_csv`, `save_to_csv`, the CSV writer in `replace_gpx_with_tcx`). The models start from the parsed lists and rows.
- Rendering: maps, elevation profiles, text drawing, overlay images and video assembly (`create_map`, `create_elevation_profile`, `create_overlay_image`, the video scripts). They are drawing and I/O.
- The thread and process pools of the frame loops, and `generate_frame`. Frames are independent, so only the list of frame instants is modelled.
- geopy's geodesic distance and Python's `round` are parameters. Their floating-point behaviour is not modelled; all arithmetic is on exact reals.
- `total_seconds()` is taken as the exact quotient of microseconds; float rounding of the quotient is not modelled.
- Frame instants are kept as microseconds; the `isoformat()` strings and `fromisoformat` re-parsing of the frame loop are not modelled.
- TimeFormat.FormatTimestamp: `%Y` is modelled as four zero-padded digits. The C library may print years below 1000 without padding. Instants are limited to datetime's range 0001–9999 by a precondition.
- PatchTcx.ReplaceSpeedAndDistance: rows are values in an array, so aliasing between a row dictionary and other references to it is not modelled. CSV header and field-name handling is not modelled either.
- OnDemandQuery.InterpolateDataPausing and OnDemandQuery.InterpolateDataSteady: `points.index(before)` compares whole points by value. Duplicate identical samples are modelled as Python treats them (first occurrence). The distance lemmas assume distinct samples.
- ParseGpx.FillGaps: integer heart rates and `int()` of a float are modelled on reals with truncation toward zero. Cadence 0 and speed 0 are exact.
- FrameClock.FrameTimestamps: instants are unbounded integers, so the `OverflowError` that `current_timestamp += frame_interval` raises when `end` lies within one step of `datetime.max` (9999-12-31T23:59:59.999999) is not modelled; the model returns the list instead.
- The rounding that `parse_gpx` in `1_parse_gpx.py` applies while reading (latitude and longitude to 6 places, elevation to whole metres) is part of file reading and is not modelled.
