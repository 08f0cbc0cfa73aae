/** Shared vocabulary of the telemetry scripts: optional values, the exceptions
    the scripts raise, microsecond time, positions, and linear interpolation. */
module Telemetry {

  datatype Option<T> = None | Some(value: T)

  /** The Python exceptions the modelled code can raise. */
  datatype Error = IndexError | KeyError | TypeError | ZeroDivisionError

  datatype Result<T> = Ok(value: T) | Err(error: Error)

  /** The outcome of a point-in-time query: `None` in the scripts, an exception, or a sample. */
  datatype Query<T> = NotFound | Raised(error: Error) | Found(sample: T)

  /** Instants and durations: Python's datetime and timedelta hold whole microseconds. */
  type Micros = int

  const MicrosPerSecond: int := 1000000

  /** `timedelta.total_seconds()`, without the float rounding. */
  function Seconds(d: Micros): (s: real)
    ensures (s > 0.0 <==> d > 0) && (s == 0.0 <==> d == 0)
  {
    d as real / 1000000.0
  }

  /** A (latitude, longitude) pair in degrees, as handed to geopy's `distance`. */
  datatype LatLon = LatLon(lat: real, lon: real)

  /** geopy's geodesic `distance(a, b).meters`, taken as a parameter. */
  type Geodesic = (LatLon, LatLon) -> real

  /** Python's `round(x, n)`, taken as a parameter. */
  type Rounding = (real, int) -> real

  ghost predicate NonNegative(dist: Geodesic)
  {
    forall a, b :: dist(a, b) >= 0.0
  }

  function Min(a: real, b: real): real { if a <= b then a else b }
  function Max(a: real, b: real): real { if a <= b then b else a }

  /** `before + (after - before) * ratio`, the interpolation every script writes out. */
  function Lerp(a: real, b: real, ratio: real): (r: real)
    ensures ratio == 0.0 ==> r == a
    ensures ratio == 1.0 ==> r == b
    ensures ratio == 0.5 ==> r == (a + b) / 2.0
    ensures 0.0 <= ratio <= 1.0 ==> Min(a, b) <= r <= Max(a, b)
  {
    LerpBounds(a, b, ratio);
    a + (b - a) * ratio
  }

  lemma LerpBounds(a: real, b: real, ratio: real)
    ensures 0.0 <= ratio <= 1.0 ==> Min(a, b) <= a + (b - a) * ratio <= Max(a, b)
  {
    if 0.0 <= ratio <= 1.0 {
      var d := b - a;
      ScaleBounds(d, ratio);
      var m := d * ratio;
      assert a + (b - a) * ratio == a + m;
    }
  }

  /** `d * ratio` lies between 0 and `d` when `ratio` is in [0, 1]. */
  lemma ScaleBounds(d: real, ratio: real)
    requires 0.0 <= ratio <= 1.0
    ensures d >= 0.0 ==> 0.0 <= d * ratio <= d
    ensures d < 0.0 ==> d <= d * ratio <= 0.0
  {
    if d >= 0.0 {
      NonNegativeProduct(d, 1.0 - ratio);
      NonNegativeProduct(d, ratio);
    } else {
      NonNegativeProduct(-d, 1.0 - ratio);
      NonNegativeProduct(-d, ratio);
    }
  }

  lemma NonNegativeProduct(x: real, y: real)
    requires 0.0 <= x && 0.0 <= y
    ensures 0.0 <= x * y
  {
  }

  /** Interpolation of an optional field: absent when either endpoint is absent. */
  function LerpOpt(a: Option<real>, b: Option<real>, ratio: real): (r: Option<real>)
    ensures r.Some? <==> a.Some? && b.Some?
    ensures r.Some? && ratio == 0.0 ==> r.value == a.value
    ensures r.Some? && ratio == 1.0 ==> r.value == b.value
    ensures r.Some? && ratio == 0.5 ==> r.value == (a.value + b.value) / 2.0
    ensures r.Some? && 0.0 <= ratio <= 1.0 ==> Min(a.value, b.value) <= r.value <= Max(a.value, b.value)
  {
    if a.Some? && b.Some? then Some(Lerp(a.value, b.value, ratio)) else None
  }

  /** `(t - t1).total_seconds() / (t2 - t1).total_seconds()`; the factors 10^6 cancel. */
  function Ratio(t: Micros, t1: Micros, t2: Micros): (r: real)
    requires t1 != t2
    ensures t == t1 ==> r == 0.0
    ensures t == t2 ==> r == 1.0
    ensures t1 <= t <= t2 ==> 0.0 <= r <= 1.0
    ensures 2 * t == t1 + t2 ==> r == 0.5
  {
    QuotientFacts((t - t1) as real, (t2 - t1) as real);
    (t - t1) as real / (t2 - t1) as real
  }

  /** The ratio of two durations in seconds is the ratio of their microseconds. */
  lemma RatioOfSeconds(t: Micros, t1: Micros, t2: Micros)
    requires t1 != t2
    ensures Seconds(t - t1) / Seconds(t2 - t1) == Ratio(t, t1, t2)
  {
    var x, y := (t - t1) as real, (t2 - t1) as real;
    assert Seconds(t - t1) == x / 1000000.0 && Seconds(t2 - t1) == y / 1000000.0;
    assert (x / 1000000.0) / (y / 1000000.0) == x / y;
  }

  lemma QuotientFacts(x: real, y: real)
    requires y != 0.0
    ensures x == 0.0 ==> x / y == 0.0
    ensures x == y ==> x / y == 1.0
    ensures 0.0 <= x <= y ==> 0.0 <= x / y <= 1.0
    ensures 2.0 * x == y ==> x / y == 0.5
  {
    if 0.0 <= x <= y {
      QuotientBounds(x, y);
    }
    if 2.0 * x == y {
      HalfQuotient(x, y);
    }
  }

  lemma HalfQuotient(x: real, y: real)
    requires y != 0.0 && 2.0 * x == y
    ensures x / y == 0.5
  {
  }

  lemma QuotientBounds(x: real, y: real)
    requires 0.0 <= x <= y && y != 0.0
    ensures 0.0 <= x / y <= 1.0
  {
  }

  /** Python's `int(x)` on a float: truncation toward zero. */
  function Trunc(x: real): (n: int)
    ensures 0.0 <= x ==> 0 <= n && n as real <= x < n as real + 1.0
    ensures x < 0.0 ==> n <= 0 && n as real - 1.0 < x <= n as real
  {
    if x >= 0.0 then x.Floor else -((-x).Floor)
  }

  ghost predicate Sorted(times: seq<Micros>)
  {
    forall i, j :: 0 <= i < j < |times| ==> times[i] <= times[j]
  }

  ghost predicate StrictlySorted(times: seq<Micros>)
  {
    forall i, j :: 0 <= i < j < |times| ==> times[i] < times[j]
  }
}
