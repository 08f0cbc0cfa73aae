/** The frame clock of the frame-generation scripts: instants from `start`
    to `end` inclusive at a fixed step, `timedelta(seconds=1 / fps)`. */
module FrameClock {
  import opened Telemetry

  /** `timedelta(seconds=1 / 59.9401)`: timedelta rounds to the nearest microsecond. */
  const StepAt59_9401Fps: Micros := 16683

  /** `timedelta(seconds=1 / 60)`. */
  const StepAt60Fps: Micros := 16667

  /** The 59.9401 fps step is `1 / fps` seconds rounded to the nearest
      microsecond: it differs from 10^6 / 59.9401 by at most half a microsecond. */
  lemma StepAt59_9401FpsIsNearest()
    ensures -0.5 <= StepAt59_9401Fps as real - 1000000.0 / 59.9401 <= 0.5
  {
    assert StepAt59_9401Fps as real * 59.9401 == 999980.6883;
  }

  /** The 60 fps step is `1 / 60` seconds rounded to the nearest microsecond. */
  lemma StepAt60FpsIsNearest()
    ensures -0.5 <= StepAt60Fps as real - 1000000.0 / 60.0 <= 0.5
  {
  }

  /** `while current <= end: timestamps.append(current); current += frame_interval`. */
  method FrameTimestamps(start: Micros, end: Micros, step: Micros) returns (stamps: seq<Micros>)
    requires step > 0
    ensures |stamps| > 0 <==> start <= end
    ensures |stamps| > 0 ==> stamps[0] == start && stamps[|stamps| - 1] + step > end
    ensures forall k :: 0 <= k < |stamps| - 1 ==> stamps[k + 1] == stamps[k] + step
    ensures forall k :: 0 <= k < |stamps| ==> start <= stamps[k] <= end
    ensures forall j, k :: 0 <= j < k < |stamps| ==> stamps[j] < stamps[k]
  {
    stamps := [];
    var current := start;
    while current <= end
      invariant |stamps| > 0 ==> stamps[0] == start && current == stamps[|stamps| - 1] + step
      invariant |stamps| == 0 ==> current == start
      invariant forall k :: 0 <= k < |stamps| - 1 ==> stamps[k + 1] == stamps[k] + step
      invariant forall k :: 0 <= k < |stamps| ==> start <= stamps[k] <= end
      invariant forall j, k :: 0 <= j < k < |stamps| ==> stamps[j] < stamps[k]
      invariant forall k :: 0 <= k < |stamps| ==> stamps[k] < current
      decreases end - current
    {
      stamps := stamps + [current];
      current := current + step;
    }
  }
}
