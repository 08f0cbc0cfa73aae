/** Read-only queries over a recorded series shared by the frame scripts: the
    bracket search at the head of every `interpolate_data`, Python's `list.index`,
    the prefix sum of segment distances, and `find_nearest_point`. */
module Series {
  import opened Telemetry

  /** Pair (i, i+1) brackets `ts`. */
  predicate Brackets(times: seq<Micros>, ts: Micros, i: nat)
    requires i + 1 < |times|
  {
    times[i] <= ts <= times[i + 1]
  }

  /** The first pair at or after `from` that brackets `ts`, as the search loop finds it. */
  function BracketFrom(times: seq<Micros>, ts: Micros, from: nat): (r: Option<nat>)
    ensures r.Some? ==> from <= r.value && r.value + 1 < |times| && Brackets(times, ts, r.value)
    ensures r.Some? ==> forall j :: from <= j < r.value ==> !Brackets(times, ts, j)
    ensures r.None? ==> forall j :: from <= j && j + 1 < |times| ==> !Brackets(times, ts, j)
    decreases |times| - from
  {
    if from + 1 >= |times| then None
    else if times[from] <= ts <= times[from + 1] then Some(from)
    else BracketFrom(times, ts, from + 1)
  }

  /** The pair `interpolate_data` settles on: the first i with t_i <= ts <= t_{i+1}. */
  function Bracket(times: seq<Micros>, ts: Micros): Option<nat>
  {
    BracketFrom(times, ts, 0)
  }

  /** The search loop `for i in range(len(points) - 1): if ...: break`. */
  method FindBracket(times: seq<Micros>, ts: Micros) returns (r: Option<nat>)
    ensures r == Bracket(times, ts)
    ensures r.Some? ==> r.value + 1 < |times| && times[r.value] <= ts <= times[r.value + 1]
  {
    r := None;
    var i := 0;
    while i + 1 < |times|
      invariant 0 <= i
      invariant Bracket(times, ts) == BracketFrom(times, ts, i)
    {
      if times[i] <= ts <= times[i + 1] {
        r := Some(i);
        break;
      }
      i := i + 1;
    }
  }

  /** With at least two samples in time order, a bracket exists exactly when `ts`
      lies within [first, last]; with fewer than two there is none. */
  lemma BracketCoverage(times: seq<Micros>, ts: Micros)
    requires Sorted(times)
    ensures |times| < 2 ==> Bracket(times, ts).None?
    ensures |times| >= 2 ==> (Bracket(times, ts).Some? <==> times[0] <= ts <= times[|times| - 1])
  {
    if |times| >= 2 {
      if times[0] <= ts <= times[|times| - 1] {
        BracketExists(times, ts, 0);
      }
    }
  }

  /** Between a sample at or before `ts` and the last sample at or after it, some pair brackets `ts`
      (no ordering needed). */
  lemma {:induction false} BracketExists(times: seq<Micros>, ts: Micros, from: nat)
    requires from + 1 < |times| && times[from] <= ts <= times[|times| - 1]
    ensures BracketFrom(times, ts, from).Some?
    decreases |times| - from
  {
    if ts > times[from + 1] {
      BracketExists(times, ts, from + 1);
    }
  }

  /** At a sample's own instant (strictly increasing times), the search picks the
      pair ending at that sample, or pair 0 for the first sample. */
  lemma BracketAtSample(times: seq<Micros>, j: nat)
    requires StrictlySorted(times) && j < |times| && |times| >= 2
    ensures Bracket(times, times[j]) == Some(if j == 0 then 0 else j - 1)
  {
    var r := Bracket(times, times[j]);
    BracketCoverage(times, times[j]);
    var i := r.value;
    if j == 0 {
      assert Brackets(times, times[j], 0);
    } else {
      assert Brackets(times, times[j], j - 1);
      assert i <= j - 1;
    }
  }

  /** Python's `list.index(x)`: the first position holding a value equal to `x`. */
  function IndexOf<T(==)>(s: seq<T>, x: T): (r: nat)
    requires x in s
    ensures r < |s| && s[r] == x
    ensures forall j :: 0 <= j < r ==> s[j] != x
  {
    if s[0] == x then 0 else 1 + IndexOf(s[1..], x)
  }

  /** When the elements are pairwise distinct, `index` returns the position a value was read from. */
  lemma {:induction false} IndexOfDistinct<T>(s: seq<T>, i: nat)
    requires i < |s|
    requires forall a, b :: 0 <= a < b < |s| ==> s[a] != s[b]
    ensures IndexOf(s, s[i]) == i
  {
    if i > 0 {
      assert s[0] != s[i];
      assert s[1..][i - 1] == s[i];
      IndexOfDistinct(s[1..], i - 1);
    }
  }

  /** The sum of the geodesic lengths of segments (0,1), ..., (k-1,k). */
  function PathLength(pos: seq<LatLon>, k: nat, dist: Geodesic): real
    requires k < |pos|
  {
    if k == 0 then 0.0 else PathLength(pos, k - 1, dist) + dist(pos[k - 1], pos[k])
  }

  /** `for i in range(k + 1): if i > 0: total_distance += distance(points[i - 1], points[i])`. */
  method SumSegments(pos: seq<LatLon>, k: nat, dist: Geodesic) returns (total: real)
    requires k < |pos|
    ensures total == PathLength(pos, k, dist)
  {
    total := 0.0;
    for i := 0 to k + 1
      invariant total == PathLength(pos, if i == 0 then 0 else i - 1, dist)
    {
      if i > 0 {
        total := total + dist(pos[i - 1], pos[i]);
      }
    }
  }

  /** With non-negative segment lengths the running length never decreases. */
  lemma {:induction false} PathLengthMonotone(pos: seq<LatLon>, i: nat, j: nat, dist: Geodesic)
    requires NonNegative(dist) && i <= j < |pos|
    ensures 0.0 <= PathLength(pos, i, dist) <= PathLength(pos, j, dist)
    decreases j
  {
    if i < j {
      PathLengthMonotone(pos, i, j - 1, dist);
      assert dist(pos[j - 1], pos[j]) >= 0.0;
    } else if i > 0 {
      PathLengthMonotone(pos, i - 1, i - 1, dist);
      assert dist(pos[i - 1], pos[i]) >= 0.0;
    }
  }

  /** `find_nearest_point`: the first index whose distance to `current` is least,
      or -1 for an empty route. `min_distance` starts at infinity, here `None`. */
  method FindNearestPoint(route: seq<LatLon>, current: LatLon, dist: Geodesic) returns (index: int)
    ensures index == -1 <==> |route| == 0
    ensures |route| > 0 ==> 0 <= index < |route|
    ensures |route| > 0 ==> forall j :: 0 <= j < |route| ==> dist(route[index], current) <= dist(route[j], current)
    ensures |route| > 0 ==> forall j :: 0 <= j < index ==> dist(route[index], current) < dist(route[j], current)
  {
    var minDistance: Option<real> := None;
    index := -1;
    for i := 0 to |route|
      invariant (i == 0) == (index == -1) && (i == 0) == minDistance.None?
      invariant i > 0 ==> 0 <= index < i && minDistance.value == dist(route[index], current)
      invariant i > 0 ==> forall j :: 0 <= j < i ==> dist(route[index], current) <= dist(route[j], current)
      invariant i > 0 ==> forall j :: 0 <= j < index ==> dist(route[index], current) < dist(route[j], current)
    {
      var d := dist(route[i], current);
      if minDistance.None? || d < minDistance.value {
        minDistance := Some(d);
        index := i;
      }
    }
  }
}
