/** The older visualiser, shade_map_visualizer.py at the repository root. Its
    walks are the waypoint lists themselves, sorted by time (line 29); only
    waypoints named "sun" or "shade" open segments, and its statistics sum the
    per-segment durations. */
module LegacyShadeMap {
  import opened Track
  import ShadeStats

  predicate IsSunOrShade(kind: string)
  {
    kind == SUN || kind == SHADE
  }

  /** Boundary indices increase and lie inside `walk`. */
  ghost predicate Increasing(walk: seq<Point>, cuts: seq<nat>)
  {
    (forall k :: 0 <= k < |cuts| ==> cuts[k] < |walk|) &&
    (forall k :: 0 < k < |cuts| ==> cuts[k - 1] < cuts[k])
  }

  /** Segment `k` runs from `walk[cuts[k]]` to `walk[cuts[k + 1]]` with the label
      of its start, and every sun/shade point from its start up to its end has
      that label. */
  ghost predicate RunsBetween(walk: seq<Point>, segments: seq<Segment>, cuts: seq<nat>)
  {
    Increasing(walk, cuts) && |cuts| == |segments| + 1 &&
    (forall k :: 0 <= k < |segments| ==>
       segments[k] == Segment(walk[cuts[k]], walk[cuts[k + 1]], walk[cuts[k]].kind)) &&
    (forall k :: 0 <= k < |segments| ==> SunShadeLabel(walk, cuts[k], cuts[k + 1], segments[k].kind))
  }

  /** The points that opened segments: sun/shade points, the first being the
      first sun/shade point of the walk, each with a label different from the
      one opened before it. */
  ghost predicate Openers(walk: seq<Point>, starts: seq<nat>)
    requires Increasing(walk, starts)
  {
    (forall k :: 0 <= k < |starts| ==> IsSunOrShade(walk[starts[k]].kind)) &&
    (forall k :: 0 < k < |starts| ==> walk[starts[k]].kind != walk[starts[k - 1]].kind) &&
    (starts != [] ==> forall j :: 0 <= j < starts[0] ==> !IsSunOrShade(walk[j].kind))
  }

  /** Every sun/shade point of `walk[from..to]` carries `kind`. */
  ghost predicate SunShadeLabel(walk: seq<Point>, from: nat, to: nat, kind: string)
    requires to <= |walk|
  {
    forall j :: from <= j < to && IsSunOrShade(walk[j].kind) ==> walk[j].kind == kind
  }

  /** What the older segmenter promises about `segments`, with `cuts` the
      indices in `walk` of the segment boundaries. */
  ghost predicate Describes(walk: seq<Point>, segments: seq<Segment>, cuts: seq<nat>)
  {
    // segments run between boundaries; nothing before the first one is sun/shade
    (segments != [] ==>
       RunsBetween(walk, segments, cuts) &&
       forall j :: 0 <= j < cuts[0] ==> !IsSunOrShade(walk[j].kind)) &&
    // after the last boundary no sun/shade point has another label
    (segments != [] ==>
       SunShadeLabel(walk, cuts[|cuts| - 1], |walk|, segments[|segments| - 1].end.kind)) &&
    Shape(walk, segments)
  }

  /** `w` is the walk's first sun/shade waypoint. */
  ghost predicate FirstSunShade(walk: seq<Point>, w: nat)
  {
    w < |walk| && IsSunOrShade(walk[w].kind) && forall j :: 0 <= j < w ==> !IsSunOrShade(walk[j].kind)
  }

  /** The part of the older segmenter's promise that speaks of `segments`
      alone. */
  ghost predicate Shape(walk: seq<Point>, segments: seq<Segment>)
  {
    // the last segment ends at the walk's last point
    (segments != [] ==> walk != [] && segments[|segments| - 1].end == walk[|walk| - 1]) &&
    // only sun/shade points open segments, which take their label
    (forall k :: 0 <= k < |segments| ==>
       IsSunOrShade(segments[k].start.kind) && segments[k].kind == segments[k].start.kind) &&
    Chained(segments) && Alternating(segments) &&
    // no segment starts and ends at the same point
    (forall k :: 0 <= k < |segments| ==> segments[k].start != segments[k].end) &&
    // no segment exactly when the first sun/shade waypoint, if there is one,
    // is the only opener and equals the walk's last point
    (segments == [] <==>
       forall w: nat :: FirstSunShade(walk, w) ==>
         SunShadeLabel(walk, 0, |walk|, walk[w].kind) && walk[w] == walk[|walk| - 1]) &&
    // when there is no segment
    ((forall i :: 0 <= i < |walk| ==> !IsSunOrShade(walk[i].kind)) ==> segments == []) &&
    (segments == [] ==>
       forall i, j :: 0 <= i < |walk| && 0 <= j < |walk| && IsSunOrShade(walk[i].kind) && IsSunOrShade(walk[j].kind) ==>
         walk[i].kind == walk[j].kind) &&
    (|walk| <= 1 ==> segments == [])
  }

  /** The segmentation loop of the older `create_shade_map`. */
  method SegmentSunShade(walk: seq<Point>) returns (segments: seq<Segment>, ghost cuts: seq<nat>)
    ensures Shape(walk, segments)
    ensures Describes(walk, segments, cuts)
  {
    segments := [];
    var currentType: Option<string> := None;
    var segmentStart: Option<Point> := None;
    ghost var starts: seq<nat> := [];
    for i := 0 to |walk|
      invariant Scanned(walk, segments, starts, i)
      invariant starts == [] <==> segmentStart == None
      invariant starts == [] <==> currentType == None
      invariant starts != [] ==>
                  segmentStart == Some(walk[starts[|starts| - 1]]) &&
                  currentType == Some(walk[starts[|starts| - 1]].kind)
    {
      var wp := walk[i];
      // a sun/shade waypoint whose label differs from the open one
      if (wp.kind == SUN || wp.kind == SHADE) && currentType != Some(wp.kind) {
        if segmentStart.Some? {
          OpenNext(walk, segments, starts, i);
          segments := segments + [Segment(segmentStart.value, wp, currentType.value)];
        } else {
          OpenFirst(walk, i);
        }
        segmentStart := Some(wp);
        currentType := Some(wp.kind);
        starts := starts + [i];
      } else {
        Keep(walk, segments, starts, i);
      }
    }
    if segmentStart.Some? && walk[|walk| - 1] != segmentStart.value {
      FinishTrailing(walk, segments, starts);
      segments := segments + [Segment(segmentStart.value, walk[|walk| - 1], currentType.value)];
      cuts := starts + [|walk| - 1];
    } else if starts != [] {
      FinishClosed(walk, segments, starts);
      cuts := starts;
    } else {
      NothingOpened(walk);
      cuts := [];
    }
  }

  /** The loop's state after `walk[..i]`: before the first opener nothing is
      sun/shade and there is no segment; afterwards the closed segments run
      between the openers and the open one has claimed every later sun/shade
      point. */
  ghost predicate Scanned(walk: seq<Point>, segments: seq<Segment>, starts: seq<nat>, i: nat)
  {
    i <= |walk| &&
    if starts == [] then
      segments == [] && forall j :: 0 <= j < i ==> !IsSunOrShade(walk[j].kind)
    else
      starts[|starts| - 1] < i &&
      RunsBetween(walk, segments, starts) && Openers(walk, starts) &&
      SunShadeLabel(walk, starts[|starts| - 1], i, walk[starts[|starts| - 1]].kind)
  }

  /** Loop step: a point that opens nothing leaves the state as it was. */
  lemma Keep(walk: seq<Point>, segments: seq<Segment>, starts: seq<nat>, i: nat)
    requires i < |walk| && Scanned(walk, segments, starts, i)
    requires IsSunOrShade(walk[i].kind) ==> starts != [] && walk[i].kind == walk[starts[|starts| - 1]].kind
    ensures Scanned(walk, segments, starts, i + 1)
  {
  }

  /** Loop step: the first sun/shade point becomes the first opener. */
  lemma OpenFirst(walk: seq<Point>, i: nat)
    requires i < |walk| && Scanned(walk, [], [], i) && IsSunOrShade(walk[i].kind)
    ensures Scanned(walk, [], [i], i + 1)
  {
    assert RunsBetween(walk, [], [i]);
  }

  /** Adding boundary `i` after the last one, with the open segment's label on
      every sun/shade point in between, extends the segment description. */
  lemma AppendCut(walk: seq<Point>, segments: seq<Segment>, starts: seq<nat>, i: nat)
    requires i < |walk| && starts != [] && starts[|starts| - 1] < i
    requires RunsBetween(walk, segments, starts)
    requires SunShadeLabel(walk, starts[|starts| - 1], i, walk[starts[|starts| - 1]].kind)
    ensures var last := starts[|starts| - 1];
            RunsBetween(walk, segments + [Segment(walk[last], walk[i], walk[last].kind)], starts + [i])
  {
    var last := starts[|starts| - 1];
    var segments' := segments + [Segment(walk[last], walk[i], walk[last].kind)];
    var starts' := starts + [i];
    forall k | 0 <= k < |starts'| ensures starts'[k] < |walk| {
      if k < |starts| { assert starts'[k] == starts[k]; }
    }
    forall k | 0 < k < |starts'| ensures starts'[k - 1] < starts'[k] {
      if k < |starts| { assert starts'[k - 1] == starts[k - 1] && starts'[k] == starts[k]; }
    }
    assert Increasing(walk, starts');
    forall k | 0 <= k < |segments'|
      ensures segments'[k] == Segment(walk[starts'[k]], walk[starts'[k + 1]], walk[starts'[k]].kind)
    {
      if k < |segments| {
        assert segments'[k] == segments[k] && starts'[k] == starts[k] && starts'[k + 1] == starts[k + 1];
      }
    }
    forall k, j | 0 <= k < |segments'| && starts'[k] <= j < starts'[k + 1] && IsSunOrShade(walk[j].kind)
      ensures walk[j].kind == segments'[k].kind
    {
      if k < |segments| {
        assert segments'[k] == segments[k] && starts'[k] == starts[k] && starts'[k + 1] == starts[k + 1];
      }
    }
  }

  /** Loop step: a sun/shade point with a new label closes the open segment
      and becomes the next opener. */
  lemma OpenNext(walk: seq<Point>, segments: seq<Segment>, starts: seq<nat>, i: nat)
    requires i < |walk| && starts != [] && Scanned(walk, segments, starts, i)
    requires IsSunOrShade(walk[i].kind) && walk[i].kind != walk[starts[|starts| - 1]].kind
    ensures var last := starts[|starts| - 1];
            Scanned(walk, segments + [Segment(walk[last], walk[i], walk[last].kind)], starts + [i], i + 1)
  {
    AppendCut(walk, segments, starts, i);
    var starts' := starts + [i];
    forall k | 0 <= k < |starts'| ensures IsSunOrShade(walk[starts'[k]].kind) {
      if k < |starts| { assert starts'[k] == starts[k]; }
    }
    forall k | 0 < k < |starts'| ensures walk[starts'[k]].kind != walk[starts'[k - 1]].kind {
      if k < |starts| { assert starts'[k] == starts[k] && starts'[k - 1] == starts[k - 1]; }
    }
    assert starts'[0] == starts[0];
    assert Openers(walk, starts');
  }

  /** Segments whose starts are opener points have sun/shade labels taken
      from their starts, chain end to start and alternate. */
  lemma RunShape(walk: seq<Point>, segments: seq<Segment>, cuts: seq<nat>, starts: seq<nat>)
    requires Increasing(walk, starts) && Openers(walk, starts)
    requires RunsBetween(walk, segments, cuts)
    requires |segments| <= |starts| && forall k :: 0 <= k < |segments| ==> cuts[k] == starts[k]
    ensures forall k :: 0 <= k < |segments| ==>
              IsSunOrShade(segments[k].start.kind) && segments[k].kind == segments[k].start.kind
    ensures Chained(segments) && Alternating(segments)
  {
    forall k | 0 <= k < |segments|
      ensures IsSunOrShade(segments[k].start.kind) && segments[k].kind == segments[k].start.kind
    {
      assert segments[k] == Segment(walk[cuts[k]], walk[cuts[k + 1]], walk[cuts[k]].kind);
    }
    forall k | 0 < k < |segments|
      ensures segments[k - 1].end == segments[k].start && segments[k - 1].kind != segments[k].kind
    {
      assert segments[k - 1] == Segment(walk[cuts[k - 1]], walk[cuts[k]], walk[cuts[k - 1]].kind);
      assert segments[k] == Segment(walk[cuts[k]], walk[cuts[k + 1]], walk[cuts[k]].kind);
    }
  }

  /** After the loop, when the walk's last point differs from the last opener:
      the final segment runs from that opener to the last point. */
  lemma FinishTrailing(walk: seq<Point>, inLoop: seq<Segment>, starts: seq<nat>)
    requires starts != [] && Scanned(walk, inLoop, starts, |walk|)
    requires walk[|walk| - 1] != walk[starts[|starts| - 1]]
    ensures var last := starts[|starts| - 1];
            Describes(walk, inLoop + [Segment(walk[last], walk[|walk| - 1], walk[last].kind)], starts + [|walk| - 1])
  {
    var last := starts[|starts| - 1];
    var segments := inLoop + [Segment(walk[last], walk[|walk| - 1], walk[last].kind)];
    var cuts := starts + [|walk| - 1];
    assert last < |walk| - 1;
    assert RunsBetween(walk, segments, cuts) by {
      AppendCut(walk, inLoop, starts, |walk| - 1);
    }
    assert Shape(walk, segments) by {
      TrailingShape(walk, inLoop, starts);
    }
    assert cuts[0] == starts[0] && cuts[|cuts| - 1] == |walk| - 1;
    DescribesIntro(walk, segments, cuts);
  }

  /** Segments between boundaries, the last one at the walk's last point and
      nothing sun/shade before the first, with the promised shape, are what
      the older segmenter describes. */
  lemma DescribesIntro(walk: seq<Point>, segments: seq<Segment>, cuts: seq<nat>)
    requires segments != [] && RunsBetween(walk, segments, cuts) && Shape(walk, segments)
    requires forall j :: 0 <= j < cuts[0] ==> !IsSunOrShade(walk[j].kind)
    requires cuts[|cuts| - 1] == |walk| - 1
    ensures Describes(walk, segments, cuts)
  {
    assert segments[|segments| - 1].end == walk[|walk| - 1];
  }

  /** The segments closed at every opener plus a final one to the walk's
      last point have the shape the older segmenter promises. */
  lemma TrailingShape(walk: seq<Point>, inLoop: seq<Segment>, starts: seq<nat>)
    requires starts != [] && Scanned(walk, inLoop, starts, |walk|)
    requires walk[|walk| - 1] != walk[starts[|starts| - 1]]
    ensures var last := starts[|starts| - 1];
            Shape(walk, inLoop + [Segment(walk[last], walk[|walk| - 1], walk[last].kind)])
  {
    var last := starts[|starts| - 1];
    var segments := inLoop + [Segment(walk[last], walk[|walk| - 1], walk[last].kind)];
    var cuts := starts + [|walk| - 1];
    assert last < |walk| - 1 && IsSunOrShade(walk[starts[0]].kind);
    assert RunsBetween(walk, segments, cuts) by {
      AppendCut(walk, inLoop, starts, |walk| - 1);
    }
    assert forall k :: 0 <= k < |segments| ==> cuts[k] == starts[k];
    RunShape(walk, segments, cuts, starts);
    assert segments[|segments| - 1] == Segment(walk[last], walk[|walk| - 1], walk[last].kind);
    if |starts| > 1 {
      // a second opener has another label than the first
      assert IsSunOrShade(walk[starts[1]].kind) && walk[starts[1]].kind != walk[starts[0]].kind;
    }
    ShapeIntro(walk, segments, starts[0]);
  }

  /** Segments with sun/shade labels from their starts, chained, alternating
      and ending at the last point of a walk of several points that has a
      sun/shade point `w` have the promised shape. */
  lemma ShapeIntro(walk: seq<Point>, segments: seq<Segment>, w: nat)
    requires 1 < |walk| && FirstSunShade(walk, w)
    requires !(SunShadeLabel(walk, 0, |walk|, walk[w].kind) && walk[w] == walk[|walk| - 1])
    requires segments != [] && segments[|segments| - 1].end == walk[|walk| - 1]
    requires segments[|segments| - 1].start != segments[|segments| - 1].end
    requires forall k :: 0 <= k < |segments| ==>
               IsSunOrShade(segments[k].start.kind) && segments[k].kind == segments[k].start.kind
    requires Chained(segments) && Alternating(segments)
    ensures Shape(walk, segments)
  {
    DistinctEnds(segments);
  }

  /** After the loop, when the last opener is the walk's last point (or equal
      to it): the segments closed in the loop are the result. */
  lemma FinishClosed(walk: seq<Point>, segments: seq<Segment>, starts: seq<nat>)
    requires starts != [] && Scanned(walk, segments, starts, |walk|)
    requires walk[|walk| - 1] == walk[starts[|starts| - 1]]
    ensures Describes(walk, segments, starts)
  {
    RunShape(walk, segments, starts, starts);
    assert FirstSunShade(walk, starts[0]);
    if segments != [] {
      var n := |segments| - 1;
      assert segments[n] == Segment(walk[starts[n]], walk[starts[n + 1]], walk[starts[n]].kind);
      // the last segment ends at an opener of another label
      assert walk[starts[n + 1]].kind != walk[starts[n]].kind;
      DistinctEnds(segments);
      assert IsSunOrShade(walk[starts[1]].kind) && walk[starts[1]].kind != walk[starts[0]].kind;
    } else {
      SingleLabel(walk, starts);
      forall w: nat | FirstSunShade(walk, w)
        ensures SunShadeLabel(walk, 0, |walk|, walk[w].kind) && walk[w] == walk[|walk| - 1]
      {
        assert w == starts[0];
      }
    }
  }

  /** After the loop, when nothing opened a segment: the walk has no sun/shade
      point at all. */
  lemma NothingOpened(walk: seq<Point>)
    requires Scanned(walk, [], [], |walk|)
    ensures Describes(walk, [], [])
  {
    assert forall w: nat :: !FirstSunShade(walk, w);
  }

  /** With a single opener and nothing after it of another label, the walk's
      sun/shade points all share one label. */
  lemma SingleLabel(walk: seq<Point>, starts: seq<nat>)
    requires Increasing(walk, starts) && Openers(walk, starts) && |starts| == 1
    requires SunShadeLabel(walk, starts[0], |walk|, walk[starts[0]].kind)
    ensures forall i, j :: 0 <= i < |walk| && 0 <= j < |walk| && IsSunOrShade(walk[i].kind) && IsSunOrShade(walk[j].kind) ==>
              walk[i].kind == walk[j].kind
  {
  }

  /** What the older `calculate_shade_stats` returns. */
  datatype LegacyStats = LegacyStats(shadePercentage: real, shadeTime: int, sunTime: int)

  /** `calculate_shade_stats` as written: its first `timedelta` accumulator is
      built with `datetime.timedelta()`, but the file binds `datetime` to the
      class from `from datetime import datetime`, which has no attribute
      `timedelta`, so every call raises before the loop is reached. */
  function CalculateShadeStatsAsWritten(segments: seq<Segment>): Result<LegacyStats>
  {
    Err(AttributeError)
  }

  /** The statistics the older `calculate_shade_stats` evidently means to
      return: the distance percentage, the summed durations of the "shade"
      segments, and the summed durations of all other segments. */
  function IntendedStats(segments: seq<Segment>, dist: Geodesic): LegacyStats
  {
    var shadeTime := ShadeStats.ShadeDuration(segments);
    LegacyStats(Percentage(ShadeStats.ShadeDistance(segments, dist), ShadeStats.TotalDistance(segments, dist)),
                shadeTime, ShadeStats.TotalDuration(segments) - shadeTime)
  }

  /** The code as written never yields the intended statistics: it raises on
      every list, and on the empty list, where zeros are intended, it raises
      too. */
  lemma AsWrittenNeverGivesIntended(segments: seq<Segment>, dist: Geodesic)
    ensures CalculateShadeStatsAsWritten(segments) == Err(AttributeError)
    ensures CalculateShadeStatsAsWritten(segments) != Ok(IntendedStats(segments, dist))
    ensures segments == [] ==> IntendedStats(segments, dist) == LegacyStats(0.0, 0, 0)
  {
  }

  /** `calculate_shade_stats` with its time accumulators starting at zero, as
      evidently intended: the total time is the sum of the segment durations,
      and the sun time is that total minus the shade time. */
  method CalculateShadeStats(segments: seq<Segment>, dist: Geodesic) returns (r: LegacyStats)
    ensures r == IntendedStats(segments, dist)
    ensures NonNegative(dist) ==> 0.0 <= r.shadePercentage <= 100.0
    ensures segments == [] ==> r == LegacyStats(0.0, 0, 0)
  {
    var totalDistance := 0.0;
    var shadeDistance := 0.0;
    var totalTime := 0;
    var shadeTime := 0;
    for i := 0 to |segments|
      invariant totalDistance == ShadeStats.TotalDistance(segments[..i], dist)
      invariant shadeDistance == ShadeStats.ShadeDistance(segments[..i], dist)
      invariant totalTime == ShadeStats.TotalDuration(segments[..i])
      invariant shadeTime == ShadeStats.ShadeDuration(segments[..i])
    {
      assert segments[..i + 1][..i] == segments[..i];
      var s := segments[i];
      var distance := dist(s.start.pos, s.end.pos);
      var time := s.end.time - s.start.time;
      totalDistance := totalDistance + distance;
      totalTime := totalTime + time;
      if s.kind == SHADE {
        shadeDistance := shadeDistance + distance;
        shadeTime := shadeTime + time;
      }
    }
    assert segments[..|segments|] == segments;
    var sunTime := totalTime - shadeTime;
    var shadePercentage := if totalDistance > 0.0 then shadeDistance / totalDistance * 100.0 else 0.0;
    if NonNegative(dist) {
      ShadeStats.ShadePercentageInRange(segments, dist);
    }
    r := LegacyStats(shadePercentage, shadeTime, sunTime);
  }

  /** One walk of the older `create_shade_map`: its segments, as
      `SegmentSunShade` describes them, and their (corrected) statistics. On a
      walk sorted by time, as line 29 leaves it, the shade and sun times are
      non-negative and add up to the time from the first segment start to the
      walk's last point. */
  method SummarizeWalk(walk: seq<Point>, dist: Geodesic)
    returns (segments: seq<Segment>, stats: LegacyStats, ghost cuts: seq<nat>)
    ensures Describes(walk, segments, cuts)
    ensures stats == IntendedStats(segments, dist)
    ensures NonNegative(dist) ==> 0.0 <= stats.shadePercentage <= 100.0
    ensures SortedByTime(walk) ==> 0 <= stats.shadeTime && 0 <= stats.sunTime
    ensures segments != [] ==>
              |walk| > 0 && stats.shadeTime + stats.sunTime == walk[|walk| - 1].time - segments[0].start.time
    ensures segments == [] ==> stats == LegacyStats(0.0, 0, 0)
  {
    segments, cuts := SegmentSunShade(walk);
    stats := CalculateShadeStats(segments, dist);
    if segments != [] {
      ShadeStats.ChainedDurationsTelescope(segments);
    }
    if SortedByTime(walk) {
      forall k | 0 <= k < |segments| ensures ShadeStats.Duration(segments[k]) >= 0 {
        assert segments[k] == Segment(walk[cuts[k]], walk[cuts[k + 1]], walk[cuts[k]].kind);
        assert cuts[k] < cuts[k + 1];
      }
      ShadeStats.ShadeDurationBounded(segments);
    }
  }
}
