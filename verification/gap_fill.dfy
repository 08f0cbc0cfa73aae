/** The pair walk shared by both `fill_gaps` functions: every original point is
    copied, and after each point that is followed by a gap of more than one second
    come synthetic points on a one-second grid strictly before the next point.
    The scripts differ only in how a synthetic point is built, so the walk is
    stated once over any point type `P`, given how to read a point's time and how
    to build a synthetic point from the pair and its instant. */
module GapFill {
  import opened Telemetry

  /** How many points are inserted between instants `gap` microseconds apart:
      one for each whole second k >= 1 with k s < gap, and none unless gap > 1 s. */
  function FillCount(gap: Micros): (n: nat)
    ensures gap <= 1000000 ==> n == 0
    ensures gap > 1000000 ==> n * 1000000 < gap <= (n + 1) * 1000000
  {
    if gap > 1000000 then (gap - 1) / 1000000 else 0
  }

  /** The synthetic points between `p` and `q`: the k-th (from 0) at p's time + (k+1) s. */
  function Gap<P>(p: P, q: P, time: P -> Micros, synth: (P, P, Micros) -> P): seq<P>
  {
    seq(FillCount(time(q) - time(p)), k => synth(p, q, time(p) + (k + 1) * 1000000))
  }

  /** The output list after the loop has handled pairs 0 .. i-1. */
  function Prefix<P>(pts: seq<P>, i: nat, time: P -> Micros, synth: (P, P, Micros) -> P): seq<P>
    requires i < |pts|
  {
    if i == 0 then []
    else Prefix(pts, i - 1, time, synth) + [pts[i - 1]] + Gap(pts[i - 1], pts[i], time, synth)
  }

  /** The whole result: every pair handled, then `points[-1]` appended. */
  function Filled<P>(pts: seq<P>, time: P -> Micros, synth: (P, P, Micros) -> P): seq<P>
    requires |pts| > 0
  {
    Prefix(pts, |pts| - 1, time, synth) + [pts[|pts| - 1]]
  }

  /** The index at which original point i appears in the result. */
  function Pos<P>(pts: seq<P>, i: nat, time: P -> Micros, synth: (P, P, Micros) -> P): nat
    requires i < |pts|
  {
    |Prefix(pts, i, time, synth)|
  }

  /** Synthetic points carry the instant they were built for. */
  ghost predicate StampsTime<P(!new)>(time: P -> Micros, synth: (P, P, Micros) -> P)
  {
    forall p, q, t :: time(synth(p, q, t)) == t
  }

  /** Consecutive instants strictly increase. */
  ghost predicate Increasing<P>(s: seq<P>, time: P -> Micros)
  {
    forall k :: 0 <= k < |s| - 1 ==> time(s[k]) < time(s[k + 1])
  }

  /** Consecutive instants strictly increase by at most one second. */
  ghost predicate Dense<P>(s: seq<P>, time: P -> Micros)
  {
    forall k :: 0 <= k < |s| - 1 ==> time(s[k]) < time(s[k + 1]) <= time(s[k]) + 1000000
  }

  /** No consecutive pair is more than one second apart, so nothing is inserted. */
  ghost predicate NoGaps<P>(s: seq<P>, time: P -> Micros)
  {
    forall k :: 0 <= k < |s| - 1 ==> time(s[k + 1]) - time(s[k]) <= 1000000
  }

  /** Handling pair i appends point i, then its gap, and nothing else;
      what was there before stays. */
  lemma {:induction false} PrefixGrows<P>(pts: seq<P>, i: nat, j: nat, time: P -> Micros, synth: (P, P, Micros) -> P)
    requires i < j < |pts|
    ensures Pos(pts, i, time, synth) < Pos(pts, j, time, synth)
    ensures Prefix(pts, j, time, synth)[..Pos(pts, i, time, synth)] == Prefix(pts, i, time, synth)
    ensures Prefix(pts, j, time, synth)[Pos(pts, i, time, synth)] == pts[i]
    ensures Pos(pts, i, time, synth) + 1 + |Gap(pts[i], pts[i + 1], time, synth)| <= Pos(pts, j, time, synth)
    ensures forall m :: Pos(pts, i, time, synth) < m <= Pos(pts, i, time, synth) + |Gap(pts[i], pts[i + 1], time, synth)| ==>
      Prefix(pts, j, time, synth)[m] == Gap(pts[i], pts[i + 1], time, synth)[m - Pos(pts, i, time, synth) - 1]
    decreases j
  {
    var a := Prefix(pts, i, time, synth);
    var g := Gap(pts[i], pts[i + 1], time, synth);
    if j == i + 1 {
      assert Prefix(pts, j, time, synth) == a + [pts[i]] + g;
    } else {
      PrefixGrows(pts, i, j - 1, time, synth);
      var b := Prefix(pts, j - 1, time, synth);
      assert Prefix(pts, j, time, synth) == b + ([pts[j - 1]] + Gap(pts[j - 1], pts[j], time, synth));
      assert |a| + 1 + |g| <= |b| by {
        if i + 1 < j - 1 {
          PrefixGrows(pts, i + 1, j - 1, time, synth);
        }
        assert Pos(pts, i + 1, time, synth) == |a| + 1 + |g|;
      }
    }
  }

  /** Every original point appears in the result, in its original order, the
      positions advancing by one plus the number of synthetic points of the pair;
      the last original point ends the result. */
  lemma {:induction false} FilledKeepsOriginals<P>(pts: seq<P>, time: P -> Micros, synth: (P, P, Micros) -> P)
    requires |pts| > 0
    ensures Pos(pts, 0, time, synth) == 0
    ensures Pos(pts, |pts| - 1, time, synth) == |Filled(pts, time, synth)| - 1
    ensures Filled(pts, time, synth)[|Filled(pts, time, synth)| - 1] == pts[|pts| - 1]
    ensures forall i :: 0 <= i < |pts| ==>
      Pos(pts, i, time, synth) < |Filled(pts, time, synth)| && Filled(pts, time, synth)[Pos(pts, i, time, synth)] == pts[i]
    ensures forall i :: 0 <= i < |pts| - 1 ==>
      Pos(pts, i + 1, time, synth) == Pos(pts, i, time, synth) + 1 + FillCount(time(pts[i + 1]) - time(pts[i]))
  {
    var n := |pts|;
    var f := Filled(pts, time, synth);
    forall i | 0 <= i < n
      ensures Pos(pts, i, time, synth) < |f| && f[Pos(pts, i, time, synth)] == pts[i]
    {
      if i < n - 1 {
        PrefixGrows(pts, i, n - 1, time, synth);
      }
    }
  }

  /** The points between original i and original i+1 are exactly that pair's
      synthetic points, at one-second steps after point i. */
  lemma FilledGapContents<P>(pts: seq<P>, i: nat, time: P -> Micros, synth: (P, P, Micros) -> P)
    requires i + 1 < |pts|
    ensures Pos(pts, i, time, synth) + FillCount(time(pts[i + 1]) - time(pts[i])) < |Filled(pts, time, synth)|
    ensures forall m :: Pos(pts, i, time, synth) < m <= Pos(pts, i, time, synth) + FillCount(time(pts[i + 1]) - time(pts[i])) ==>
      Filled(pts, time, synth)[m] == synth(pts[i], pts[i + 1], time(pts[i]) + (m - Pos(pts, i, time, synth)) * 1000000)
  {
    PrefixGrows(pts, i, |pts| - 1, time, synth);
  }

  /** Appending a gap and the right point to a dense run that ends at the left point keeps it dense. */
  lemma DenseAppendGap<P(!new)>(a: seq<P>, p: P, q: P, time: P -> Micros, synth: (P, P, Micros) -> P)
    requires StampsTime(time, synth)
    requires |a| > 0 && a[|a| - 1] == p && Dense(a, time)
    requires time(p) < time(q)
    ensures Dense(a + Gap(p, q, time, synth) + [q], time)
  {
    var g := Gap(p, q, time, synth);
    var n := |g|;
    var c := a + g + [q];
    forall k | 0 <= k < |c| - 1
      ensures time(c[k]) < time(c[k + 1]) <= time(c[k]) + 1000000
    {
      if k < |a| - 1 {
        assert c[k] == a[k] && c[k + 1] == a[k + 1];
      } else if k == |a| - 1 {
        if n > 0 {
          assert c[k + 1] == g[0];
        } else {
          assert c[k + 1] == q;
        }
      } else if k < |a| + n - 1 {
        assert c[k] == g[k - |a|] && c[k + 1] == g[k - |a| + 1];
      } else {
        assert c[k] == g[n - 1] && c[k + 1] == q;
      }
    }
  }

  /** For points whose instants strictly increase, the result's instants strictly
      increase and no two consecutive ones are more than one second apart. */
  lemma {:induction false} FilledDense<P(!new)>(pts: seq<P>, time: P -> Micros, synth: (P, P, Micros) -> P)
    requires StampsTime(time, synth)
    requires |pts| > 0 && Increasing(pts, time)
    ensures Dense(Filled(pts, time, synth), time)
  {
    PrefixDense(pts, |pts| - 1, time, synth);
  }

  lemma {:induction false} PrefixDense<P(!new)>(pts: seq<P>, i: nat, time: P -> Micros, synth: (P, P, Micros) -> P)
    requires StampsTime(time, synth)
    requires i < |pts| && Increasing(pts, time)
    ensures Dense(Prefix(pts, i, time, synth) + [pts[i]], time)
  {
    if i > 0 {
      PrefixDense(pts, i - 1, time, synth);
      var a := Prefix(pts, i - 1, time, synth) + [pts[i - 1]];
      DenseAppendGap(a, pts[i - 1], pts[i], time, synth);
      assert Prefix(pts, i, time, synth) + [pts[i]] == a + Gap(pts[i - 1], pts[i], time, synth) + [pts[i]];
    }
  }

  /** A dense run is strictly sorted by time, not only pairwise. */
  lemma {:induction false} IncreasingIsSorted<P>(s: seq<P>, time: P -> Micros, i: nat, j: nat)
    requires Increasing(s, time) && i < j < |s|
    ensures time(s[i]) < time(s[j])
    decreases j - i
  {
    if i + 1 < j {
      IncreasingIsSorted(s, time, i + 1, j);
    }
  }

  /** Re-filling a series with no gap over one second returns it unchanged. */
  lemma {:induction false} FilledNoGapsIsIdentity<P>(pts: seq<P>, time: P -> Micros, synth: (P, P, Micros) -> P)
    requires |pts| > 0 && NoGaps(pts, time)
    ensures Filled(pts, time, synth) == pts
  {
    PrefixNoGaps(pts, |pts| - 1, time, synth);
  }

  lemma {:induction false} PrefixNoGaps<P>(pts: seq<P>, i: nat, time: P -> Micros, synth: (P, P, Micros) -> P)
    requires i < |pts| && NoGaps(pts, time)
    ensures Prefix(pts, i, time, synth) == pts[..i]
  {
    if i > 0 {
      PrefixNoGaps(pts, i - 1, time, synth);
      assert Gap(pts[i - 1], pts[i], time, synth) == [];
      assert pts[..i] == pts[..i - 1] + [pts[i - 1]];
    }
  }

  /** Filling with synthetic points that copy the left point's value of `key`
      keeps a non-decreasing `key` non-decreasing. */
  lemma {:induction false} FilledKeepsMonotoneKey<P>(pts: seq<P>, time: P -> Micros, synth: (P, P, Micros) -> P, key: P -> real)
    requires |pts| > 0
    requires forall p, q, t :: key(synth(p, q, t)) == key(p)
    requires forall k :: 0 <= k < |pts| - 1 ==> key(pts[k]) <= key(pts[k + 1])
    ensures forall k :: 0 <= k < |Filled(pts, time, synth)| - 1 ==>
      key(Filled(pts, time, synth)[k]) <= key(Filled(pts, time, synth)[k + 1])
  {
    PrefixMonotoneKey(pts, |pts| - 1, time, synth, key);
  }

  lemma {:induction false} PrefixMonotoneKey<P>(pts: seq<P>, i: nat, time: P -> Micros, synth: (P, P, Micros) -> P, key: P -> real)
    requires i < |pts|
    requires forall p, q, t :: key(synth(p, q, t)) == key(p)
    requires forall k :: 0 <= k < |pts| - 1 ==> key(pts[k]) <= key(pts[k + 1])
    ensures forall k :: 0 <= k < |Prefix(pts, i, time, synth)| ==>
      key(Prefix(pts, i, time, synth)[k]) <= key((Prefix(pts, i, time, synth) + [pts[i]])[k + 1])
  {
    if i > 0 {
      PrefixMonotoneKey(pts, i - 1, time, synth, key);
      var a := Prefix(pts, i - 1, time, synth);
      var g := Gap(pts[i - 1], pts[i], time, synth);
      var c := Prefix(pts, i, time, synth) + [pts[i]];
      assert c == a + [pts[i - 1]] + g + [pts[i]];
      forall k | 0 <= k < |c| - 1
        ensures key(c[k]) <= key(c[k + 1])
      {
        if k < |a| {
          assert c[k] == a[k] && c[k + 1] == (a + [pts[i - 1]])[k + 1];
        } else {
          assert key(c[k]) == key(pts[i - 1]);
        }
      }
    }
  }
}
