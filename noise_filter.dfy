/** Noise filter of shady_walks/shade_map_visualizer.py: the edge trim applied in
    `parse_gpx_file` and `filter_erroneous_points`, which drops points whose
    implied speed from the last kept point is implausible. */
module NoiseFilter {
  import opened Track

  /** The trim applies only to tracks longer than this. */
  const TRIM_THRESHOLD: nat := 10
  /** Points dropped from each end (the comment above the code says 3). */
  const TRIM_COUNT: nat := 5
  /** Default of `max_speed_kmh`. */
  const MAX_SPEED_KMH: real := 30.0

  /** `trackpoints[5:-5]` when there are more than 10 points. */
  function TrimEdges(points: seq<Point>): (r: seq<Point>)
    ensures |points| > TRIM_THRESHOLD ==>
              |r| == |points| - 2 * TRIM_COUNT &&
              points == points[..TRIM_COUNT] + r + points[|points| - TRIM_COUNT..]
    ensures |points| <= TRIM_THRESHOLD ==> r == points
  {
    if |points| > TRIM_THRESHOLD then points[TRIM_COUNT..|points| - TRIM_COUNT] else points
  }

  /** Speed in km/h implied by moving from `prev` to `cand`: the distance in km
      over the elapsed seconds, times 3600. */
  function SpeedKmh(prev: Point, cand: Point, dist: Geodesic): real
    requires cand.time != prev.time
  {
    (dist(prev.pos, cand.pos) / 1000.0)
    / ((cand.time - prev.time) as real / MICROS_PER_SECOND as real) * 3600.0
  }

  /** The test a candidate must pass against the last kept point: a different
      timestamp and a speed of at most `maxSpeedKmh`. */
  predicate Accepts(prev: Point, cand: Point, dist: Geodesic, maxSpeedKmh: real)
  {
    cand.time != prev.time && SpeedKmh(prev, cand, dist) <= maxSpeedKmh
  }

  /** The points of `rest` the filter keeps when `last` is the last kept point. */
  function KeptAfter(last: Point, rest: seq<Point>, dist: Geodesic, maxSpeedKmh: real): seq<Point>
    decreases |rest|
  {
    if rest == [] then []
    else if Accepts(last, rest[0], dist, maxSpeedKmh) then
      [rest[0]] + KeptAfter(rest[0], rest[1..], dist, maxSpeedKmh)
    else KeptAfter(last, rest[1..], dist, maxSpeedKmh)
  }

  /** The output of `filter_erroneous_points`: the first point is always kept. */
  function Filtered(points: seq<Point>, dist: Geodesic, maxSpeedKmh: real): (r: seq<Point>)
    ensures points == [] <==> r == []
    ensures points != [] ==> r[0] == points[0]
  {
    if points == [] then [] else [points[0]] + KeptAfter(points[0], points[1..], dist, maxSpeedKmh)
  }

  /** The last kept point after scanning `rest` from baseline `last`. */
  function LastKept(last: Point, rest: seq<Point>, dist: Geodesic, maxSpeedKmh: real): Point
  {
    var kept := KeptAfter(last, rest, dist, maxSpeedKmh);
    if kept == [] then last else kept[|kept| - 1]
  }

  method FilterErroneousPoints(points: seq<Point>, dist: Geodesic, maxSpeedKmh: real)
    returns (kept: seq<Point>)
    ensures kept == Filtered(points, dist, maxSpeedKmh)
  {
    kept := [];
    for i := 0 to |points|
      invariant i == 0 ==> kept == []
      invariant i > 0 ==> kept != []
      invariant i > 0 ==>
        kept + KeptAfter(kept[|kept| - 1], points[i..], dist, maxSpeedKmh) == Filtered(points, dist, maxSpeedKmh)
    {
      if i == 0 {
        kept := kept + [points[i]];
        continue;
      }
      var prev := kept[|kept| - 1];
      var timeDiff := points[i].time - prev.time;
      if timeDiff == 0 {
        continue;
      }
      var speedKmh := SpeedKmh(prev, points[i], dist);
      assert points[i..][0] == points[i] && points[i..][1..] == points[i + 1..];
      if speedKmh <= maxSpeedKmh {
        kept := kept + [points[i]];
      }
    }
  }

  /** Scanning a concatenation is scanning the first part, then the second part
      from whatever point the first part left as baseline. */
  lemma {:induction false} KeptAfterAppend(last: Point, xs: seq<Point>, ys: seq<Point>, dist: Geodesic, maxSpeedKmh: real)
    ensures KeptAfter(last, xs + ys, dist, maxSpeedKmh)
         == KeptAfter(last, xs, dist, maxSpeedKmh) + KeptAfter(LastKept(last, xs, dist, maxSpeedKmh), ys, dist, maxSpeedKmh)
    decreases |xs|
  {
    if xs == [] {
      assert xs + ys == ys;
    } else {
      assert (xs + ys)[0] == xs[0] && (xs + ys)[1..] == xs[1..] + ys;
      if Accepts(last, xs[0], dist, maxSpeedKmh) {
        KeptAfterAppend(xs[0], xs[1..], ys, dist, maxSpeedKmh);
        var tail := KeptAfter(xs[0], xs[1..], dist, maxSpeedKmh);
        assert KeptAfter(last, xs, dist, maxSpeedKmh) == [xs[0]] + tail;
        assert LastKept(last, xs, dist, maxSpeedKmh) == LastKept(xs[0], xs[1..], dist, maxSpeedKmh);
      } else {
        KeptAfterAppend(last, xs[1..], ys, dist, maxSpeedKmh);
      }
    }
  }

  /** Filtering a track that extends `prefix` keeps what `prefix` alone keeps and
      continues from the last of those points. */
  lemma FilteredAppend(prefix: seq<Point>, s: seq<Point>, dist: Geodesic, maxSpeedKmh: real)
    requires prefix != []
    ensures var f := Filtered(prefix, dist, maxSpeedKmh);
            Filtered(prefix + s, dist, maxSpeedKmh) == f + KeptAfter(f[|f| - 1], s, dist, maxSpeedKmh)
  {
    assert (prefix + s)[0] == prefix[0] && (prefix + s)[1..] == prefix[1..] + s;
    KeptAfterAppend(prefix[0], prefix[1..], s, dist, maxSpeedKmh);
  }

  /** The keep/drop decision for a new point is taken against the last KEPT
      point: it is appended exactly when it passes the speed test from there. */
  lemma CandidateKeptIff(prefix: seq<Point>, cand: Point, dist: Geodesic, maxSpeedKmh: real)
    requires prefix != []
    ensures var f := Filtered(prefix, dist, maxSpeedKmh);
            Filtered(prefix + [cand], dist, maxSpeedKmh)
              == if Accepts(f[|f| - 1], cand, dist, maxSpeedKmh) then f + [cand] else f
  {
    FilteredAppend(prefix, [cand], dist, maxSpeedKmh);
    assert [cand][1..] == [];
  }

  /** A point carrying the timestamp of the last kept point is never appended. */
  lemma DuplicateTimestampDropped(prefix: seq<Point>, cand: Point, dist: Geodesic, maxSpeedKmh: real)
    requires prefix != []
    requires cand.time == Filtered(prefix, dist, maxSpeedKmh)[|Filtered(prefix, dist, maxSpeedKmh)| - 1].time
    ensures Filtered(prefix + [cand], dist, maxSpeedKmh) == Filtered(prefix, dist, maxSpeedKmh)
  {
    CandidateKeptIff(prefix, cand, dist, maxSpeedKmh);
  }

  lemma {:induction false} KeptAfterSkipsRejected(last: Point, junk: seq<Point>, rest: seq<Point>, dist: Geodesic, maxSpeedKmh: real)
    requires forall j :: 0 <= j < |junk| ==> !Accepts(last, junk[j], dist, maxSpeedKmh)
    ensures KeptAfter(last, junk + rest, dist, maxSpeedKmh) == KeptAfter(last, rest, dist, maxSpeedKmh)
    decreases |junk|
  {
    if junk == [] {
      assert junk + rest == rest;
    } else {
      assert (junk + rest)[0] == junk[0] && (junk + rest)[1..] == junk[1..] + rest;
      KeptAfterSkipsRejected(last, junk[1..], rest, dist, maxSpeedKmh);
    }
  }

  /** Glitches do not cascade: a run of points that each fail the test against
      the last kept point leaves the rest of the output exactly as if the run
      were absent. */
  lemma GlitchesDoNotCascade(prefix: seq<Point>, junk: seq<Point>, rest: seq<Point>, dist: Geodesic, maxSpeedKmh: real)
    requires prefix != []
    requires var f := Filtered(prefix, dist, maxSpeedKmh);
             forall j :: 0 <= j < |junk| ==> !Accepts(f[|f| - 1], junk[j], dist, maxSpeedKmh)
    ensures Filtered(prefix + junk + rest, dist, maxSpeedKmh) == Filtered(prefix + rest, dist, maxSpeedKmh)
  {
    var f := Filtered(prefix, dist, maxSpeedKmh);
    assert prefix + junk + rest == prefix + (junk + rest);
    FilteredAppend(prefix, junk + rest, dist, maxSpeedKmh);
    FilteredAppend(prefix, rest, dist, maxSpeedKmh);
    KeptAfterSkipsRejected(f[|f| - 1], junk, rest, dist, maxSpeedKmh);
  }

  lemma {:induction false} KeptAfterIsSubsequence(last: Point, rest: seq<Point>, dist: Geodesic, maxSpeedKmh: real)
    ensures Subsequence(KeptAfter(last, rest, dist, maxSpeedKmh), rest)
    decreases |rest|
  {
    if rest != [] {
      KeptAfterIsSubsequence(if Accepts(last, rest[0], dist, maxSpeedKmh) then rest[0] else last,
                             rest[1..], dist, maxSpeedKmh);
      var kept := KeptAfter(last, rest, dist, maxSpeedKmh);
      if Accepts(last, rest[0], dist, maxSpeedKmh) {
        assert kept[0] == rest[0] && kept[1..] == KeptAfter(rest[0], rest[1..], dist, maxSpeedKmh);
      }
    }
  }

  /** The output is an order-preserving subsequence of the input. */
  lemma FilteredIsSubsequence(points: seq<Point>, dist: Geodesic, maxSpeedKmh: real)
    ensures Subsequence(Filtered(points, dist, maxSpeedKmh), points)
  {
    if points != [] {
      var f := Filtered(points, dist, maxSpeedKmh);
      KeptAfterIsSubsequence(points[0], points[1..], dist, maxSpeedKmh);
      assert f[0] == points[0] && f[1..] == KeptAfter(points[0], points[1..], dist, maxSpeedKmh);
    }
  }

  /** Every point of `s` after the first passes the test against its predecessor. */
  predicate ChainAccepted(s: seq<Point>, dist: Geodesic, maxSpeedKmh: real)
  {
    forall k :: 0 < k < |s| ==> Accepts(s[k - 1], s[k], dist, maxSpeedKmh)
  }

  lemma {:induction false} KeptAfterChainAccepted(last: Point, rest: seq<Point>, dist: Geodesic, maxSpeedKmh: real)
    ensures ChainAccepted([last] + KeptAfter(last, rest, dist, maxSpeedKmh), dist, maxSpeedKmh)
    decreases |rest|
  {
    if rest != [] {
      if Accepts(last, rest[0], dist, maxSpeedKmh) {
        KeptAfterChainAccepted(rest[0], rest[1..], dist, maxSpeedKmh);
        var t := [rest[0]] + KeptAfter(rest[0], rest[1..], dist, maxSpeedKmh);
        var s := [last] + KeptAfter(last, rest, dist, maxSpeedKmh);
        assert s == [last] + t;
        forall k | 0 < k < |s| ensures Accepts(s[k - 1], s[k], dist, maxSpeedKmh) {
          if k == 1 {
            assert s[0] == last && s[1] == rest[0];
          } else {
            assert s[k - 1] == t[k - 2] && s[k] == t[k - 1];
          }
        }
      } else {
        KeptAfterChainAccepted(last, rest[1..], dist, maxSpeedKmh);
        assert KeptAfter(last, rest, dist, maxSpeedKmh) == KeptAfter(last, rest[1..], dist, maxSpeedKmh);
      }
    }
  }

  /** Every kept point passes the speed test against the kept point before it;
      in particular neighbouring kept points never share a timestamp. */
  lemma FilteredChainAccepted(points: seq<Point>, dist: Geodesic, maxSpeedKmh: real)
    ensures ChainAccepted(Filtered(points, dist, maxSpeedKmh), dist, maxSpeedKmh)
    ensures var f := Filtered(points, dist, maxSpeedKmh);
            forall k :: 0 < k < |f| ==> f[k - 1].time != f[k].time
  {
    if points != [] {
      KeptAfterChainAccepted(points[0], points[1..], dist, maxSpeedKmh);
    }
  }

  /** A point strictly earlier than the head of a strictly increasing list
      can be put in front of it. */
  lemma PrependEarlier(p: Point, t: seq<Point>)
    requires t != [] && StrictlyIncreasing(t) && p.time < t[0].time
    ensures StrictlyIncreasing([p] + t)
  {
    var u := [p] + t;
    forall i, j | 0 <= i < j < |u| ensures u[i].time < u[j].time {
      assert u[j] == t[j - 1];
      if i > 0 {
        assert u[i] == t[i - 1];
      }
    }
  }

  /** Dropping the second element keeps a list sorted. */
  lemma DropSecondSorted(last: Point, rest: seq<Point>)
    requires rest != [] && SortedByTime([last] + rest)
    ensures SortedByTime([last] + rest[1..]) && SortedByTime(rest)
  {
    var s := [last] + rest;
    var u := [last] + rest[1..];
    forall i, j | 0 <= i < j < |u| ensures u[i].time <= u[j].time {
      assert u[j] == s[j + 1];
      assert i == 0 ==> u[i] == s[0];
      assert i > 0 ==> u[i] == s[i + 1];
    }
    forall i, j | 0 <= i < j < |rest| ensures rest[i].time <= rest[j].time {
      assert rest[i] == s[i + 1] && rest[j] == s[j + 1];
    }
  }

  lemma {:induction false} KeptAfterStrictlyIncreasing(last: Point, rest: seq<Point>, dist: Geodesic, maxSpeedKmh: real)
    requires SortedByTime([last] + rest)
    ensures StrictlyIncreasing([last] + KeptAfter(last, rest, dist, maxSpeedKmh))
    decreases |rest|
  {
    if rest != [] {
      DropSecondSorted(last, rest);
      if Accepts(last, rest[0], dist, maxSpeedKmh) {
        assert [rest[0]] + rest[1..] == rest;
        KeptAfterStrictlyIncreasing(rest[0], rest[1..], dist, maxSpeedKmh);
        assert ([last] + rest)[0] == last && ([last] + rest)[1] == rest[0];
        PrependEarlier(last, [rest[0]] + KeptAfter(rest[0], rest[1..], dist, maxSpeedKmh));
      } else {
        KeptAfterStrictlyIncreasing(last, rest[1..], dist, maxSpeedKmh);
      }
    }
  }

  /** On a track sorted by time (as `parse_gpx_file` sorts it) the output has
      strictly increasing timestamps. */
  lemma FilteredStrictlyIncreasing(points: seq<Point>, dist: Geodesic, maxSpeedKmh: real)
    requires SortedByTime(points)
    ensures StrictlyIncreasing(Filtered(points, dist, maxSpeedKmh))
  {
    if points != [] {
      assert [points[0]] + points[1..] == points;
      KeptAfterStrictlyIncreasing(points[0], points[1..], dist, maxSpeedKmh);
    }
  }

  /** Trimming keeps a sorted track sorted. */
  lemma TrimEdgesSorted(points: seq<Point>)
    requires SortedByTime(points)
    ensures SortedByTime(TrimEdges(points))
  {
    var r := TrimEdges(points);
    if |points| > TRIM_THRESHOLD {
      forall i, j | 0 <= i < j < |r| ensures r[i].time <= r[j].time {
        assert r[i] == points[i + TRIM_COUNT] && r[j] == points[j + TRIM_COUNT];
      }
    }
  }
}
