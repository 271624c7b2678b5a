/** Statistics of shady_walks/shade_map_visualizer.py: `calculate_shade_stats`,
    the time-based shade percentage of `create_shade_map`, and
    `format_duration`. Durations are in microseconds, distances in metres. */
module ShadeStats {
  import opened Track

  /** The six values `calculate_shade_stats` returns, in its order. */
  datatype Stats = Stats(shadePercentage: real, shadeDistance: real, sunDistance: real,
                         shadeTime: int, sunTime: int, totalTime: int)

  /** Straight-line distance from a segment's start to its end. */
  function SegmentDistance(s: Segment, dist: Geodesic): real
  {
    dist(s.start.pos, s.end.pos)
  }

  function Duration(s: Segment): int
  {
    s.end.time - s.start.time
  }

  /** Sum of the segment distances. */
  function TotalDistance(segments: seq<Segment>, dist: Geodesic): real
  {
    if segments == [] then 0.0
    else TotalDistance(segments[..|segments| - 1], dist) + SegmentDistance(segments[|segments| - 1], dist)
  }

  /** Sum of the distances of the segments labelled "shade". */
  function ShadeDistance(segments: seq<Segment>, dist: Geodesic): real
  {
    if segments == [] then 0.0
    else ShadeDistance(segments[..|segments| - 1], dist)
         + (if segments[|segments| - 1].kind == SHADE then SegmentDistance(segments[|segments| - 1], dist) else 0.0)
  }

  /** Sum of the durations of all segments. */
  function TotalDuration(segments: seq<Segment>): int
  {
    if segments == [] then 0
    else TotalDuration(segments[..|segments| - 1]) + Duration(segments[|segments| - 1])
  }

  /** Sum of the durations of the segments labelled "shade". */
  function ShadeDuration(segments: seq<Segment>): int
  {
    if segments == [] then 0
    else ShadeDuration(segments[..|segments| - 1])
         + (if segments[|segments| - 1].kind == SHADE then Duration(segments[|segments| - 1]) else 0)
  }

  /** Time from the first segment's start to the last segment's end. */
  function Span(segments: seq<Segment>): int
    requires segments != []
  {
    segments[|segments| - 1].end.time - segments[0].start.time
  }

  /** `calculate_shade_stats`: indexing `segments[0]` raises on an empty list;
      otherwise the walk's time is first start to last end, and the sun figures
      are the totals minus the shade figures (unknown segments count as sun). */
  method CalculateShadeStats(segments: seq<Segment>, dist: Geodesic) returns (r: Result<Stats>)
    ensures segments == [] <==> r == Err(IndexError)
    ensures segments != [] ==>
              var total := TotalDistance(segments, dist);
              var shade := ShadeDistance(segments, dist);
              r == Ok(Stats(Percentage(shade, total), shade, total - shade,
                            ShadeDuration(segments), Span(segments) - ShadeDuration(segments), Span(segments)))
  {
    if segments == [] {
      return Err(IndexError);
    }
    var totalDistance := 0.0;
    var shadeDistance := 0.0;
    var shadeTime := 0;
    var startTime := segments[0].start.time;
    var endTime := segments[|segments| - 1].end.time;
    var totalTime := endTime - startTime;
    for i := 0 to |segments|
      invariant totalDistance == TotalDistance(segments[..i], dist)
      invariant shadeDistance == ShadeDistance(segments[..i], dist)
      invariant shadeTime == ShadeDuration(segments[..i])
    {
      assert segments[..i + 1][..i] == segments[..i];
      var s := segments[i];
      var distance := dist(s.start.pos, s.end.pos);
      var segmentTime := s.end.time - s.start.time;
      totalDistance := totalDistance + distance;
      if s.kind == SHADE {
        shadeDistance := shadeDistance + distance;
        shadeTime := shadeTime + segmentTime;
      }
    }
    assert segments[..|segments|] == segments;
    var sunDistance := totalDistance - shadeDistance;
    var sunTime := totalTime - shadeTime;
    var shadePercentage := if totalDistance > 0.0 then shadeDistance / totalDistance * 100.0 else 0.0;
    return Ok(Stats(shadePercentage, shadeDistance, sunDistance, shadeTime, sunTime, totalTime));
  }

  /** With non-negative distances the shade distance lies between 0 and the total. */
  lemma {:induction false} ShadeDistanceBounded(segments: seq<Segment>, dist: Geodesic)
    requires NonNegative(dist)
    ensures 0.0 <= ShadeDistance(segments, dist) <= TotalDistance(segments, dist)
  {
    if segments != [] {
      ShadeDistanceBounded(segments[..|segments| - 1], dist);
      var last := segments[|segments| - 1];
      assert SegmentDistance(last, dist) >= 0.0;
    }
  }

  /** The distance percentage is within [0, 100], and the sun and shade
      distances add up to the total. */
  lemma ShadePercentageInRange(segments: seq<Segment>, dist: Geodesic)
    requires NonNegative(dist)
    ensures var total := TotalDistance(segments, dist);
            var shade := ShadeDistance(segments, dist);
            0.0 <= Percentage(shade, total) <= 100.0 && 0.0 <= total - shade <= total
  {
    ShadeDistanceBounded(segments, dist);
  }

  /** For segments chained end to start, the durations telescope: their sum is
      the span from the first start to the last end. This is why the current
      version's first-start-to-last-end total agrees with the older version's
      sum of durations. */
  lemma {:induction false} ChainedDurationsTelescope(segments: seq<Segment>)
    requires segments != [] && Chained(segments)
    ensures TotalDuration(segments) == Span(segments)
  {
    if |segments| > 1 {
      var init := segments[..|segments| - 1];
      assert Chained(init) by {
        forall k | 0 < k < |init| ensures init[k - 1].end == init[k].start {
          assert init[k - 1] == segments[k - 1] && init[k] == segments[k];
        }
      }
      ChainedDurationsTelescope(init);
      assert init[|init| - 1].end == segments[|segments| - 1].start;
    }
  }

  /** When no segment runs backwards in time, the shade time lies between 0 and
      the sum of all durations. */
  lemma {:induction false} ShadeDurationBounded(segments: seq<Segment>)
    requires forall k :: 0 <= k < |segments| ==> Duration(segments[k]) >= 0
    ensures 0 <= ShadeDuration(segments) <= TotalDuration(segments)
  {
    if segments != [] {
      var init := segments[..|segments| - 1];
      assert forall k :: 0 <= k < |init| ==> init[k] == segments[k];
      ShadeDurationBounded(init);
    }
  }

  /** On chained, forward-in-time segments, neither the shade time nor the sun
      time is negative and they add up to the walk's time. */
  lemma ShadeTimeWithinSpan(segments: seq<Segment>)
    requires segments != [] && Chained(segments)
    requires forall k :: 0 <= k < |segments| ==> Duration(segments[k]) >= 0
    ensures 0 <= ShadeDuration(segments) <= Span(segments)
  {
    ShadeDurationBounded(segments);
    ChainedDurationsTelescope(segments);
  }

  /** The time-based shade percentage: shade seconds over total seconds, or 0
      when the total is not positive. */
  function TimeShadePercentage(shadeTime: int, totalTime: int): (pct: real)
    ensures 0 <= shadeTime <= totalTime ==> 0.0 <= pct <= 100.0
    ensures totalTime <= 0 ==> pct == 0.0
    ensures totalTime > 0 ==> pct * totalTime as real == 100.0 * shadeTime as real
  {
    var totalSeconds := totalTime as real / MICROS_PER_SECOND as real;
    var shadeSeconds := shadeTime as real / MICROS_PER_SECOND as real;
    if totalSeconds > 0.0 then shadeSeconds / totalSeconds * 100.0 else 0.0
  }

  /** `int(duration.total_seconds())`: whole seconds, truncated toward zero. */
  function WholeSeconds(micros: int): (s: int)
    ensures micros >= 0 ==> 0 <= s && s * MICROS_PER_SECOND <= micros < (s + 1) * MICROS_PER_SECOND
    ensures micros < 0 ==> s <= 0 && (s - 1) * MICROS_PER_SECOND < micros <= s * MICROS_PER_SECOND
  {
    if micros >= 0 then micros / MICROS_PER_SECOND else -((-micros) / MICROS_PER_SECOND)
  }

  /** The two shapes `format_duration` renders: "{h}h {m}m" or "{m}m {s}s". */
  datatype DurationText = HoursMinutes(hours: int, minutes: int) | MinutesSeconds(minutes: int, seconds: int)

  /** `divmod(n, 3600)` then `divmod(remainder, 60)`, with Python's floor
      semantics (the divisor is positive, so Dafny's division agrees). */
  function SplitSeconds(n: int): (hms: (int, int, int))
    ensures hms.0 * 3600 + hms.1 * 60 + hms.2 == n
    ensures 0 <= hms.1 < 60 && 0 <= hms.2 < 60
  {
    var hours := n / 3600;
    var remainder := n % 3600;
    (hours, remainder / 60, remainder % 60)
  }

  /** `format_duration`: hours and minutes when there is at least one hour,
      minutes and seconds otherwise. */
  function FormatDuration(micros: int): (text: DurationText)
    ensures var n := WholeSeconds(micros);
            text.HoursMinutes? <==> n >= 3600
    ensures text.MinutesSeconds? && micros >= 0 ==>
              text.minutes * 60 + text.seconds == WholeSeconds(micros) && text.seconds < 60
    ensures text.HoursMinutes? ==>
              0 <= text.minutes < 60 &&
              text.hours * 3600 + text.minutes * 60 <= WholeSeconds(micros) < text.hours * 3600 + (text.minutes + 1) * 60
    // below one hour, including negative durations, the fields are the whole
    // seconds modulo one hour (floor `divmod`): -5 s renders as 59m 55s
    ensures text.MinutesSeconds? ==>
              0 <= text.minutes < 60 && 0 <= text.seconds < 60 &&
              text.minutes * 60 + text.seconds == WholeSeconds(micros) % 3600
  {
    var (hours, minutes, seconds) := SplitSeconds(WholeSeconds(micros));
    if hours > 0 then HoursMinutes(hours, minutes) else MinutesSeconds(minutes, seconds)
  }

  /** A negative duration, here -5 seconds, falls into the minutes-and-seconds
      form with the floor remainder: "59m 55s". */
  lemma NegativeDurationWraps()
    ensures FormatDuration(-5 * MICROS_PER_SECOND) == MinutesSeconds(59, 55)
  {
    assert WholeSeconds(-5 * MICROS_PER_SECOND) == -5;
  }
}
