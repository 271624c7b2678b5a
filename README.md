# Shady walks: a Dafny model of the shade-map engine

This project models the data-processing core of the "shady walks" shade-map
visualiser. A walker records a GPS track and drops waypoints named "sun" or
"shade" whenever the light changes.

The current visualiser (`shady_walks/shade_map_visualizer.py`) does the following:

- sorts both point lists by time;
- trims five points from each end of a long track;
- drops GPS glitches that imply more than 30 km/h from the last kept point;
- labels every surviving trackpoint with the latest waypoint at or before it (a merge-scan);
- cuts each walk into segments at every label change;
- computes distance and time statistics per walk, plus a time-based shade
  percentage and a duration formatter.

The older visualiser (`shade_map_visualizer.py` at the repository root) does
less. It uses the sorted waypoints themselves as the walk, opens segments only
at "sun"/"shade" waypoints, and sums per-segment durations.

Modules:

- `Track`: the shared vocabulary. It holds points, segments, labels, the
  error values the Python code raises, and the in-place insertion sort by time,
  which is stable like Python's `list.sort`.
- `NoiseFilter`: the edge trim and `filter_erroneous_points`. The loop is a
  method proved equal to a recursive specification, and the lemmas state what
  the filter guarantees.
- `LabelPropagator`: the merge-scan, as a method that writes labels into an
  array in place. It is proved against a "last waypoint at or before"
  specification.
- `Segmenter`: the segmentation loop of the current `create_shade_map`, and
  the time-window selection of the points drawn for each segment.
- `ShadeStats`: `calculate_shade_stats`, the time percentage and
  `format_duration`.
- `WalkPipeline`: the two halves of the current pipeline. `PrepareTrack`
  covers sort, trim, filter and label; `SummarizeWalk` covers segments and
  statistics.
- `LegacyShadeMap`: the older file's segmenter and statistics. Its sort by
  time (line 29) is `Track.SortByTime`, shared with the current file.

Times are whole microseconds, since Python datetimes subtract exactly to
microseconds. Distances are real numbers of metres.

The geodesic distance comes from an external library. It is a parameter
`dist: (Coord, Coord) -> real`. Where a bound depends on it, the lemma assumes
only that it is never negative.

Two behaviours of the code are modelled as written:

- The comment at shady_walks/shade_map_visualizer.py:82 says 3 points are
  removed from each end; the code at line 84 removes 5 (`TRIM_COUNT`).
- A one-point walk yields no segment, so `calculate_shade_stats` raises
  `IndexError` at shady_walks/shade_map_visualizer.py:106.
  `WalkPipeline.SummarizeWalk` returns `Err(IndexError)` for it.

## Model

| member | source | states |
|---|---|---|
| Track.Percentage | shady_walks/shade_map_visualizer.py:123-126 | the percentage is 0 when the total is not positive. Otherwise it is the exact ratio (`pct * whole == 100 * part`), which lies in [0, 100] when 0 <= part <= whole |
| Track.SortByTime | shady_walks/shade_map_visualizer.py:79-80 | (also the sort at line 29 of the older shade_map_visualizer.py) after the in-place sort, the array is ordered by time, is a permutation of the original, and is stable: for every time, the points with that time keep their original order |
| Track.SwapKeepsTies | shady_walks/shade_map_visualizer.py:79-80 | exchanging two neighbours with different times keeps, for every time, the order of the points with that time |
| Track.StableSortUnique | shady_walks/shade_map_visualizer.py:79-80 | two time-sorted lists in which the points of every time appear in the same order are equal, so a stable sort by time has exactly one result |
| Track.DistinctEnds | shady_walks/shade_map_visualizer.py:170-179 | in chained, alternating segments labelled by their starts, if the last segment has two different ends, no segment starts and ends at the same point |
| NoiseFilter.TrimEdges | shady_walks/shade_map_visualizer.py:82-84 | a track of more than 10 points loses exactly its first 5 and last 5 points, and the middle is kept in order. Shorter tracks are unchanged |
| NoiseFilter.TrimEdgesSorted | shady_walks/shade_map_visualizer.py:78-84 | trimming a sorted track leaves it sorted |
| NoiseFilter.Filtered | shady_walks/shade_map_visualizer.py:19-24 | the output is empty exactly when the input is, and the first point is always kept |
| NoiseFilter.FilterErroneousPoints | shady_walks/shade_map_visualizer.py:19-37 | the loop's output equals the recursive specification `Filtered`: each point is judged against the last kept point |
| NoiseFilter.KeptAfterAppend | shady_walks/shade_map_visualizer.py:21-35 | scanning a concatenation is scanning the first part, then scanning the second part from the last point kept in the first |
| NoiseFilter.FilteredAppend | shady_walks/shade_map_visualizer.py:21-35 | filtering an extended track keeps what the prefix kept and continues from its last kept point |
| NoiseFilter.CandidateKeptIff | shady_walks/shade_map_visualizer.py:26-35 | a new point is appended if and only if it has a different timestamp from the last kept point and a speed from it of at most the ceiling. Otherwise the output is unchanged |
| NoiseFilter.DuplicateTimestampDropped | shady_walks/shade_map_visualizer.py:27-29 | a point with the same timestamp as the last kept point is never appended |
| NoiseFilter.KeptAfterSkipsRejected | shady_walks/shade_map_visualizer.py:26-35 | points rejected against the baseline do not move the baseline, so the rest is scanned as if they were absent |
| NoiseFilter.GlitchesDoNotCascade | shady_walks/shade_map_visualizer.py:26-35 | a run of glitches, each rejected against the last kept point, leaves the output exactly as if the run were absent |
| NoiseFilter.KeptAfterIsSubsequence | shady_walks/shade_map_visualizer.py:21-35 | the points kept after a baseline are an order-preserving subsequence of the rest |
| NoiseFilter.FilteredIsSubsequence | shady_walks/shade_map_visualizer.py:19-37 | the filter only deletes points and never reorders or invents them |
| NoiseFilter.KeptAfterChainAccepted | shady_walks/shade_map_visualizer.py:26-35 | each kept point passes the speed test against the point kept before it |
| NoiseFilter.FilteredChainAccepted | shady_walks/shade_map_visualizer.py:19-37 | every kept point passes the speed test against its kept predecessor, and neighbouring kept points never share a timestamp |
| NoiseFilter.KeptAfterStrictlyIncreasing | shady_walks/shade_map_visualizer.py:26-35 | from a sorted input, the baseline followed by the kept points is strictly increasing in time |
| NoiseFilter.FilteredStrictlyIncreasing | shady_walks/shade_map_visualizer.py:79-87 | filtering a time-sorted track yields strictly increasing timestamps |
| LabelPropagator.CarryForwardBeforeAll | shady_walks/shade_map_visualizer.py:90-96 | a trackpoint earlier than every waypoint is labelled "unknown" |
| LabelPropagator.CarryForwardFromLastAtOrBefore | shady_walks/shade_map_visualizer.py:93-96 | the label is that of the last waypoint at or before the trackpoint's time. A waypoint at exactly that time counts |
| LabelPropagator.CarryForwardAtCursor | shady_walks/shade_map_visualizer.py:91-96 | on sorted waypoints, the cursor position determines the label: the type of the waypoint just before the cursor, or "unknown" at 0 |
| LabelPropagator.AssignTypes | shady_walks/shade_map_visualizer.py:89-96 | the in-place merge-scan gives every trackpoint the label of the last waypoint at or before it, or "unknown", and changes nothing else. The final cursor has passed exactly the waypoints at or before the last trackpoint |
| Segmenter.SegmentWalk | shady_walks/shade_map_visualizer.py:165-179 | see the list after this table |
| Segmenter.Keep | shady_walks/shade_map_visualizer.py:170-171 | a point with the open segment's label leaves the loop state as it was and extends the open run |
| Segmenter.OpenFirst | shady_walks/shade_map_visualizer.py:171-175 | the first point opens the first segment and closes none |
| Segmenter.OpenNext | shady_walks/shade_map_visualizer.py:171-175 | a point with a new label closes the open segment at that point and opens the next one, keeping the loop state |
| Segmenter.NotUniform | shady_walks/shade_map_visualizer.py:171-175 | a second opener means the walk's points do not all share one label |
| Segmenter.DescribesIntro | shady_walks/shade_map_visualizer.py:170-179 | boundaries at label changes, with the last one at a point equal to `walk[-1]`, give the full description of `SegmentWalk` |
| Segmenter.FinishClosed | shady_walks/shade_map_visualizer.py:177-179 | when `walk[-1]` equals the last opener, the segments closed in the loop are the whole result |
| Segmenter.FinishTrailing | shady_walks/shade_map_visualizer.py:177-179 | otherwise a final segment from the last opener to `walk[-1]` completes the result |
| Segmenter.TrailingCuts | shady_walks/shade_map_visualizer.py:177-179 | appending the walk's last index to the loop's boundaries keeps the segments between boundaries and the label change at every inner one |
| Segmenter.ShapeFromCuts | shady_walks/shade_map_visualizer.py:170-179 | segments laid between label-change boundaries are chained, alternate, and take their start's label |
| Segmenter.MemberPoints | shady_walks/shade_map_visualizer.py:185 | a point is drawn for a segment if and only if it is in the walk and its time lies in the segment's closed time window |
| ShadeStats.CalculateShadeStats | shady_walks/shade_map_visualizer.py:100-128 | see the list after this table |
| ShadeStats.ShadeDistanceBounded | shady_walks/shade_map_visualizer.py:110-118 | with non-negative distances, 0 <= shade distance <= total distance |
| ShadeStats.ShadePercentageInRange | shady_walks/shade_map_visualizer.py:120-126 | the distance percentage lies in [0, 100], and 0 <= sun distance <= total |
| ShadeStats.ChainedDurationsTelescope | shady_walks/shade_map_visualizer.py:106-112 | for chained segments, the sum of the durations equals first start to last end. So the current total time agrees with the older version's summed durations |
| ShadeStats.ShadeDurationBounded | shady_walks/shade_map_visualizer.py:110-118 | when no segment runs backwards, 0 <= shade time <= sum of durations |
| ShadeStats.ShadeTimeWithinSpan | shady_walks/shade_map_visualizer.py:106-121 | on chained forward segments, the shade time and the sun time are both non-negative |
| ShadeStats.TimeShadePercentage | shady_walks/shade_map_visualizer.py:197 | 0 when the total time is not positive. Otherwise it is the exact ratio of shade time to total time, times 100, and lies in [0, 100] when 0 <= shade <= total |
| ShadeStats.WholeSeconds | shady_walks/shade_map_visualizer.py:12 | `int(total_seconds())` truncates toward zero, for negative durations too |
| ShadeStats.SplitSeconds | shady_walks/shade_map_visualizer.py:12-13 | the two `divmod`s give h*3600 + m*60 + s == n with minutes and seconds in [0, 60) |
| ShadeStats.FormatDuration | shady_walks/shade_map_visualizer.py:11-17 | the hours-and-minutes form is chosen if and only if there is at least one whole hour; its minutes lie in [0, 60) and with the hours bracket the duration to the minute, which pins both. Otherwise minutes and seconds lie in [0, 60) and are the whole seconds modulo one hour: exact for durations of 0 to 3599 s, and floor-wrapped for negative ones |
| ShadeStats.NegativeDurationWraps | shady_walks/shade_map_visualizer.py:12-17 | a duration of -5 s is rendered in the minutes-and-seconds form as 59 min 55 s, the floor `divmod` remainder |
| WalkPipeline.PrepareTrack | shady_walks/shade_map_visualizer.py:78-98 | see the list after this table |
| WalkPipeline.SummarizeWalk | shady_walks/shade_map_visualizer.py:165-197 | see the list after this table |
| LegacyShadeMap.SegmentSunShade | shade_map_visualizer.py:79-94 | see the list after this table |
| LegacyShadeMap.AppendCut | shade_map_visualizer.py:84-90 | adding a boundary after the last one extends the segment description |
| LegacyShadeMap.Keep | shade_map_visualizer.py:85-86 | a waypoint that is not sun/shade, or repeats the open label, leaves the loop state as it was |
| LegacyShadeMap.OpenFirst | shade_map_visualizer.py:85-90 | the first sun/shade waypoint becomes the first opener and closes nothing |
| LegacyShadeMap.OpenNext | shade_map_visualizer.py:85-90 | a sun/shade waypoint with a new label closes the open segment and becomes the next opener |
| LegacyShadeMap.RunShape | shade_map_visualizer.py:84-94 | segments whose starts are openers are chained, alternate, and are labelled sun/shade from their start |
| LegacyShadeMap.FinishTrailing | shade_map_visualizer.py:92-94 | when `walk[-1]` differs from the last opener, a final segment from that opener to `walk[-1]` completes the result |
| LegacyShadeMap.DescribesIntro | shade_map_visualizer.py:84-94 | segments between boundaries, with nothing sun/shade before the first and the last at `walk[-1]`, that have the promised shape satisfy the whole description |
| LegacyShadeMap.FinishClosed | shade_map_visualizer.py:92-94 | when `walk[-1]` equals the last opener, the segments closed in the loop are the whole result |
| LegacyShadeMap.TrailingShape | shade_map_visualizer.py:84-94 | the segments closed in the loop plus the final one to `walk[-1]` start at sun/shade openers, take their labels, chain, alternate and end at `walk[-1]` |
| LegacyShadeMap.ShapeIntro | shade_map_visualizer.py:84-94 | on a walk of two or more points with a sun/shade waypoint, chained, alternating sun/shade segments ending at `walk[-1]` have the shape `SegmentSunShade` promises |
| LegacyShadeMap.NothingOpened | shade_map_visualizer.py:84-94 | a walk in which nothing opened a segment has no segment and no sun/shade waypoint |
| LegacyShadeMap.SingleLabel | shade_map_visualizer.py:84-94 | with a single opener, every sun/shade waypoint of the walk has the same label |
| LegacyShadeMap.AsWrittenNeverGivesIntended | shade_map_visualizer.py:32-36 | (with the import at line 4) the statistics as written (`CalculateShadeStatsAsWritten`) raise AttributeError for every input, so they never equal the intended statistics; on the empty list the intended result is all zeros |
| LegacyShadeMap.CalculateShadeStats | shade_map_visualizer.py:32-56 | see the list after this table |
| LegacyShadeMap.SummarizeWalk | shade_map_visualizer.py:79-97 | see the list after this table |

Rows whose contracts are too long for a table cell:

- `Segmenter.SegmentWalk`:
  - Every segment runs between two boundaries and carries its start's label.
  - Every point inside a segment has that label.
  - Each inner boundary is a label change.
  - The segments are chained, start at `walk[0]`, end at `walk[-1]` and alternate.
  - No segment starts and ends at the same point.
  - There are no segments if and only if the walk is empty, or its last
    point equals its first and every point has one label.
- `ShadeStats.CalculateShadeStats`:
  - It raises `IndexError` if and only if there are no segments.
  - Otherwise, shade distance and shade time are sums over the "shade" segments.
  - Sun distance = total - shade.
  - Total time = first start to last end, and sun time = total - shade.
  - Unknown segments count as sun.
- `WalkPipeline.PrepareTrack`:
  - Both arrays end up sorted and permuted.
  - Both sorts are stable: for every time, the points with that time keep their input order. With `Track.StableSortUnique`, this pins both sorted arrays. So it is fixed which of several equal-time trackpoints the trim and the filter keep, and which of several equal-time waypoints labels a trackpoint.
  - The result has the length of the trimmed and filtered track.
  - Each result point is that point with its carry-forward label.
  - The result is strictly increasing in time.
- `WalkPipeline.SummarizeWalk`:
  - It errors (`IndexError`) exactly when segmentation yields no segment, which includes every one-point walk.
  - Otherwise the segments are exactly those `Segmenter.SegmentWalk` describes: boundaries at each label change, first start `walk[0]`, last end `walk[-1]`, each labelled by its start, chained and alternating, none starting and ending at the same point.
  - The statistics are those of `calculate_shade_stats` on these segments: shade distance and time are the sums over "shade" segments, sun figures are the rest, and the total time is the walk's first-to-last time.
  - The time percentage is `TimeShadePercentage` of shade time and total time.
  - With non-negative distances, the distance percentage is in [0, 100] and the sun distance is non-negative.
  - On a strictly increasing walk of two or more points the call succeeds. Shade time and sun time are then non-negative, and the time percentage is in [0, 100].
- `LegacyShadeMap.SegmentSunShade`:
  - Only sun/shade waypoints open segments, and the first segment opens at the first such waypoint.
  - Segments are chained, alternate, and carry their start's sun/shade label.
  - The last segment ends at `walk[-1]`.
  - Every sun/shade waypoint inside a segment has its label.
  - No segment starts and ends at the same point.
  - There are no segments if and only if, when the walk has a sun/shade waypoint, the first one has the label of every sun/shade waypoint and equals `walk[-1]`.
  - In particular, no sun/shade waypoint means no segments, and no segments means all sun/shade waypoints agree.
  - A walk of at most one point has no segments.
- `LegacyShadeMap.CalculateShadeStats` (corrected): the result equals `IntendedStats`, that is:
  - Percentage as in the current version.
  - Shade time is the sum over shade segments.
  - Sun time is the sum of all durations minus shade time.
  - The percentage is in [0, 100] for non-negative distances.
  - Zeros for no segments.
- `LegacyShadeMap.SummarizeWalk`:
  - The segments are exactly those `LegacyShadeMap.SegmentSunShade` describes: sun/shade openers, the first at the first sun/shade waypoint, the last segment ending at `walk[-1]`, chained and alternating, none starting and ending at the same point, and no segment exactly in the cases listed for `SegmentSunShade`.
  - The statistics equal `IntendedStats` of these segments, and the percentage is in [0, 100] for non-negative distances.
  - On a time-sorted walk, shade time and sun time are non-negative.
  - Shade time + sun time equals the time from the first segment start to the walk's last point.
  - Zeros when there is no segment.

## Left out

- GPX/XML parsing, `strptime`, the US/Eastern timezone conversion and name lower-casing are not modelled. Points arrive already parsed, with integer microsecond times. Points without a time (`None`) are not modelled either. In both files they would make the sorts raise: shady_walks/shade_map_visualizer.py:79-80 and the older file's line 29.
- The geodesic distance (geopy) is a function parameter. Its value is never computed.
- Floating point is not modelled: distances, speeds and percentages are exact reals.
- Map rendering (folium), the map centre, colours, annotations, HTML output, directory walking and file I/O are not modelled.
- ShadeStats.FormatDuration: returns the hour/minute/second fields of the two shapes. It does not return the rendered `f"{h}h {m}m"` text.
- Segmenter.MemberPoints: returns the selected points themselves, not their `(lat, lon)` pairs. It also states membership, not order or multiplicity.
- NoiseFilter.FilterErroneousPoints: the keyword default 30 km/h is the constant `MAX_SPEED_KMH` used by `WalkPipeline.PrepareTrack`. Other ceilings are a parameter.
- LegacyShadeMap.SummarizeWalk: uses the corrected statistics (see Findings). With the code as written, every call raises.

## Findings

| source | as written | input that shows it | evidently intended | confidence | as-written member | corrected member |
|---|---|---|---|---|---|---|
| shade_map_visualizer.py:4, 35-36 | `datetime` names the class imported on line 4, so `datetime.timedelta()` raises AttributeError before any segment is read | any call, for example `calculate_shade_stats([])` | zero `timedelta` accumulators, as the current version imports `timedelta` for this | not executed | LegacyShadeMap.AsWrittenNeverGivesIntended | LegacyShadeMap.CalculateShadeStats |
