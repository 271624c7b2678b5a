/** The per-walk pipeline of shady_walks/shade_map_visualizer.py: the part of
    `parse_gpx_file` after the GPX points are read (sort, trim, filter, label)
    and the part of `create_shade_map` that turns one walk into segments and
    statistics. */
module WalkPipeline {
  import opened Track
  import opened NoiseFilter
  import opened LabelPropagator
  import opened Segmenter
  import opened ShadeStats

  /** `parse_gpx_file` once both point lists are read: both are sorted in place
      by time, the trackpoints are trimmed and filtered with the default speed
      ceiling, and the survivors are labelled from the waypoints. The ghost
      `cleaned` is the trackpoint list before labelling. */
  method PrepareTrack(trackpoints: array<Point>, waypoints: array<Point>, dist: Geodesic)
    returns (labelled: array<Point>, ghost cleaned: seq<Point>)
    requires trackpoints != waypoints
    modifies trackpoints, waypoints
    ensures SortedByTime(waypoints[..]) && multiset(waypoints[..]) == old(multiset(waypoints[..]))
    ensures SortedByTime(trackpoints[..]) && multiset(trackpoints[..]) == old(multiset(trackpoints[..]))
    // both sorts are stable: points with equal times keep their order, which
    // fixes which of them the trim keeps and which waypoint labels a point
    ensures SameTies(waypoints[..], old(waypoints[..])) && SameTies(trackpoints[..], old(trackpoints[..]))
    ensures cleaned == Filtered(TrimEdges(trackpoints[..]), dist, MAX_SPEED_KMH)
    ensures fresh(labelled) && labelled.Length == |cleaned|
    ensures forall k :: 0 <= k < |cleaned| ==> labelled[k] == Labelled(cleaned[k], waypoints[..])
    ensures StrictlyIncreasing(labelled[..])
  {
    SortByTime(waypoints);
    SortByTime(trackpoints);
    var trimmed := TrimEdges(trackpoints[..]);
    TrimEdgesSorted(trackpoints[..]);
    var kept := FilterErroneousPoints(trimmed, dist, MAX_SPEED_KMH);
    FilteredStrictlyIncreasing(trimmed, dist, MAX_SPEED_KMH);
    labelled := new Point[|kept|](i requires 0 <= i < |kept| => kept[i]);
    assert labelled[..] == kept;
    ghost var cursor := AssignTypes(labelled, waypoints[..]);
    cleaned := kept;
    forall i, j | 0 <= i < j < labelled.Length ensures labelled[..][i].time < labelled[..][j].time {
      assert labelled[i].time == kept[i].time && labelled[j].time == kept[j].time;
    }
  }

  /** What `create_shade_map` computes for one walk before drawing it. */
  datatype WalkSummary = WalkSummary(segments: seq<Segment>, stats: Stats, timeShadePercentage: real)

  /** Segments a walk, computes its statistics and the time-based percentage.
      The segments are those `SegmentWalk` describes (the ghost `cuts` are its
      boundaries), and the statistics are those of `CalculateShadeStats` on
      them. `calculate_shade_stats` raises on a walk that yields no segment,
      which includes every one-point walk. */
  method SummarizeWalk(walk: seq<Point>, dist: Geodesic) returns (r: Result<WalkSummary>, ghost cuts: seq<nat>)
    ensures r.Err? <==> walk == [] || (walk[|walk| - 1] == walk[0] && SameLabel(walk, 0, |walk|))
    ensures r.Err? ==> r.error == IndexError
    ensures |walk| == 1 ==> r.Err?
    // the segments of `SegmentWalk`
    ensures r.Ok? ==> Describes(walk, r.value.segments, cuts)
    ensures r.Ok? ==> Chained(r.value.segments) && Alternating(r.value.segments)
    // the statistics of `calculate_shade_stats` on them
    ensures r.Ok? ==>
              var segs := r.value.segments;
              var total := TotalDistance(segs, dist);
              var shade := ShadeDistance(segs, dist);
              var totalTime := walk[|walk| - 1].time - walk[0].time;
              r.value.stats == Stats(Percentage(shade, total), shade, total - shade,
                                     ShadeDuration(segs), totalTime - ShadeDuration(segs), totalTime)
    ensures r.Ok? ==> r.value.timeShadePercentage == TimeShadePercentage(r.value.stats.shadeTime, r.value.stats.totalTime)
    ensures r.Ok? && NonNegative(dist) ==>
              0.0 <= r.value.stats.shadePercentage <= 100.0 && 0.0 <= r.value.stats.sunDistance
    ensures |walk| >= 2 && StrictlyIncreasing(walk) ==>
              r.Ok? && 0 <= r.value.stats.shadeTime <= r.value.stats.totalTime && 0 <= r.value.stats.sunTime &&
              0.0 <= r.value.timeShadePercentage <= 100.0
  {
    var segments;
    segments, cuts := SegmentWalk(walk);
    var stats := CalculateShadeStats(segments, dist);
    if stats.Err? {
      r := Err(stats.error);
      return;
    }
    var s := stats.value;
    var timePercentage := TimeShadePercentage(s.shadeTime, s.totalTime);
    r := Ok(WalkSummary(segments, s, timePercentage));
    if NonNegative(dist) {
      ShadePercentageInRange(segments, dist);
    }
    if |walk| >= 2 && StrictlyIncreasing(walk) {
      forall k | 0 <= k < |segments| ensures Duration(segments[k]) >= 0 {
        assert segments[k] == Segment(walk[cuts[k]], walk[cuts[k + 1]], walk[cuts[k]].kind);
        assert cuts[k] < cuts[k + 1];
      }
      ShadeTimeWithinSpan(segments);
    }
  }
}
