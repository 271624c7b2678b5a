/** Segmentation in `create_shade_map` of shady_walks/shade_map_visualizer.py:
    a segment `(start, end, type)` is closed at every change of label, and a
    final one is closed at the walk's last point. */
module Segmenter {
  import opened Track

  /** Boundary indices: increasing positions in `walk`, the first one 0. */
  ghost predicate ValidCuts(walk: seq<Point>, cuts: seq<nat>)
  {
    (cuts != [] ==> cuts[0] == 0) &&
    (forall k :: 0 <= k < |cuts| ==> cuts[k] < |walk|) &&
    (forall k :: 0 < k < |cuts| ==> cuts[k - 1] < cuts[k])
  }

  /** Segment `k` runs from `walk[cuts[k]]` to `walk[cuts[k + 1]]` with the label
      of its start, and every point from its start up to its end shares that label. */
  ghost predicate SegmentsBetween(walk: seq<Point>, segments: seq<Segment>, cuts: seq<nat>)
  {
    ValidCuts(walk, cuts) && |cuts| == |segments| + 1 &&
    (forall k :: 0 <= k < |segments| ==>
       segments[k] == Segment(walk[cuts[k]], walk[cuts[k + 1]], walk[cuts[k]].kind)) &&
    (forall k :: 0 <= k < |segments| ==> SameLabel(walk, cuts[k], cuts[k + 1]))
  }

  /** The label changes at each of the boundaries `cuts[1..m]`. */
  ghost predicate ChangesAt(walk: seq<Point>, cuts: seq<nat>, m: nat)
    requires ValidCuts(walk, cuts) && m <= |cuts|
  {
    forall k :: 0 < k < m ==> cuts[k] > 0 && walk[cuts[k]].kind != walk[cuts[k] - 1].kind
  }

  /** Every point of `walk[from..to]` has the label of `walk[from]`. */
  ghost predicate SameLabel(walk: seq<Point>, from: nat, to: nat)
    requires from < |walk| && to <= |walk|
  {
    forall j :: from <= j < to ==> walk[j].kind == walk[from].kind
  }

  /** What the segmenter promises about `segments`, with `cuts` the indices in
      `walk` of the segment boundaries. */
  ghost predicate Describes(walk: seq<Point>, segments: seq<Segment>, cuts: seq<nat>)
  {
    (walk == [] ==> segments == [] && cuts == []) &&
    // segments lie between boundaries; inner boundaries are label changes; the
    // points after the last boundary keep its label, and it holds the final point
    (walk != [] ==>
       SegmentsBetween(walk, segments, cuts) && ChangesAt(walk, cuts, |cuts| - 1) &&
       SameLabel(walk, cuts[|cuts| - 1], |walk|) && walk[cuts[|cuts| - 1]] == walk[|walk| - 1]) &&
    Shape(walk, segments)
  }

  /** The part of the segmenter's promise that speaks of `segments` alone. */
  ghost predicate Shape(walk: seq<Point>, segments: seq<Segment>)
  {
    (segments != [] ==> walk != [] && segments[0].start == walk[0] && segments[|segments| - 1].end == walk[|walk| - 1]) &&
    Chained(segments) && Alternating(segments) &&
    (forall k :: 0 <= k < |segments| ==> segments[k].kind == segments[k].start.kind) &&
    // no segment starts and ends at the same point
    (forall k :: 0 <= k < |segments| ==> segments[k].start != segments[k].end) &&
    // when there is no segment at all
    (segments == [] <==> walk == [] || (walk[|walk| - 1] == walk[0] && SameLabel(walk, 0, |walk|)))
  }

  /** The segmentation loop for one walk. */
  method SegmentWalk(walk: seq<Point>) returns (segments: seq<Segment>, ghost cuts: seq<nat>)
    ensures Shape(walk, segments)
    ensures Describes(walk, segments, cuts)
  {
    segments := [];
    var currentType: Option<string> := None;
    var segmentStart: Option<Point> := None;
    ghost var starts: seq<nat> := [];
    for i := 0 to |walk|
      invariant Scanned(walk, segments, starts, i)
      invariant starts == [] <==> segmentStart == None
      invariant starts == [] <==> currentType == None
      invariant starts != [] ==>
                  segmentStart == Some(walk[starts[|starts| - 1]]) &&
                  currentType == Some(walk[starts[|starts| - 1]].kind)
    {
      var tp := walk[i];
      if currentType != Some(tp.kind) {
        if segmentStart.Some? {
          OpenNext(walk, segments, starts, i);
          segments := segments + [Segment(segmentStart.value, tp, currentType.value)];
        } else {
          OpenFirst(walk);
        }
        segmentStart := Some(tp);
        currentType := Some(tp.kind);
        starts := starts + [i];
      } else {
        Keep(walk, segments, starts, i);
      }
    }
    if segmentStart.Some? && walk[|walk| - 1] != segmentStart.value {
      FinishTrailing(walk, segments, starts);
      segments := segments + [Segment(segmentStart.value, walk[|walk| - 1], currentType.value)];
      cuts := starts + [|walk| - 1];
    } else {
      if walk != [] {
        FinishClosed(walk, segments, starts);
      }
      cuts := starts;
    }
  }

  /** The loop's state after `walk[..i]`: the closed segments lie between the
      label changes seen so far, and every point since the last change has
      the open segment's label. */
  ghost predicate Scanned(walk: seq<Point>, segments: seq<Segment>, starts: seq<nat>, i: nat)
  {
    i <= |walk| && (i == 0 <==> starts == []) && (starts == [] ==> segments == []) &&
    (starts != [] ==>
       starts[|starts| - 1] < i &&
       SegmentsBetween(walk, segments, starts) && ChangesAt(walk, starts, |starts|) &&
       SameLabel(walk, starts[|starts| - 1], i))
  }

  /** Loop step: a point with the open segment's label changes nothing. */
  lemma Keep(walk: seq<Point>, segments: seq<Segment>, starts: seq<nat>, i: nat)
    requires i < |walk| && starts != [] && Scanned(walk, segments, starts, i)
    requires walk[i].kind == walk[starts[|starts| - 1]].kind
    ensures Scanned(walk, segments, starts, i + 1)
  {
  }

  /** Loop step: the first point opens the first segment. */
  lemma OpenFirst(walk: seq<Point>)
    requires walk != []
    ensures Scanned(walk, [], [0], 1)
  {
    assert SegmentsBetween(walk, [], [0]);
  }

  /** The segment description follows from the boundary description: the
      shape of the segments comes from the boundaries. */
  lemma DescribesIntro(walk: seq<Point>, segments: seq<Segment>, cuts: seq<nat>)
    requires walk != [] && SegmentsBetween(walk, segments, cuts) && ChangesAt(walk, cuts, |cuts| - 1)
    requires SameLabel(walk, cuts[|cuts| - 1], |walk|) && walk[cuts[|cuts| - 1]] == walk[|walk| - 1]
    requires segments == [] <==> walk[|walk| - 1] == walk[0] && SameLabel(walk, 0, |walk|)
    requires segments != [] ==> segments[|segments| - 1].start != segments[|segments| - 1].end
    ensures Describes(walk, segments, cuts)
  {
    ShapeFromCuts(walk, segments, cuts);
    DistinctEnds(segments);
  }

  /** A second label-change boundary means the walk is not all one label. */
  lemma NotUniform(walk: seq<Point>, starts: seq<nat>)
    requires ValidCuts(walk, starts) && |starts| > 1 && ChangesAt(walk, starts, |starts|)
    ensures !SameLabel(walk, 0, |walk|)
  {
    assert walk[starts[1]].kind != walk[starts[1] - 1].kind;
  }

  /** What the code after the loop produces when the walk's last point is the
      open segment's start (or equal to it): the segments closed in the loop. */
  lemma FinishClosed(walk: seq<Point>, segments: seq<Segment>, starts: seq<nat>)
    requires walk != [] && Scanned(walk, segments, starts, |walk|)
    requires walk[|walk| - 1] == walk[starts[|starts| - 1]]
    ensures Describes(walk, segments, starts)
  {
    if |starts| > 1 {
      NotUniform(walk, starts);
      // the last segment ends at a label change
      var n := |starts| - 1;
      assert segments[n - 1] == Segment(walk[starts[n - 1]], walk[starts[n]], walk[starts[n - 1]].kind);
      assert walk[starts[n]].kind != walk[starts[n] - 1].kind;
      assert walk[starts[n] - 1].kind == walk[starts[n - 1]].kind;
    }
    DescribesIntro(walk, segments, starts);
  }

  /** What the code after the loop produces otherwise: a final segment from
      the open segment's start to the walk's last point. */
  lemma FinishTrailing(walk: seq<Point>, inLoop: seq<Segment>, starts: seq<nat>)
    requires walk != [] && Scanned(walk, inLoop, starts, |walk|)
    requires walk[|walk| - 1] != walk[starts[|starts| - 1]]
    ensures var last := starts[|starts| - 1];
            Describes(walk, inLoop + [Segment(walk[last], walk[|walk| - 1], walk[last].kind)], starts + [|walk| - 1])
  {
    var last := starts[|starts| - 1];
    var segments := inLoop + [Segment(walk[last], walk[|walk| - 1], walk[last].kind)];
    var cuts := starts + [|walk| - 1];
    TrailingCuts(walk, inLoop, starts);
    assert |cuts| - 1 == |starts| && cuts[|cuts| - 1] == |walk| - 1;
    assert !(walk[|walk| - 1] == walk[0] && SameLabel(walk, 0, |walk|)) by {
      if |starts| > 1 {
        NotUniform(walk, starts);
      } else {
        assert starts[0] == 0 && last == 0;
      }
    }
    assert segments != [] && segments[|segments| - 1] == Segment(walk[last], walk[|walk| - 1], walk[last].kind);
    DescribesIntro(walk, segments, cuts);
  }

  /** The boundaries after the loop, with the walk's last index appended:
      segments lie between them and the label changes at each inner one. */
  lemma TrailingCuts(walk: seq<Point>, inLoop: seq<Segment>, starts: seq<nat>)
    requires walk != [] && Scanned(walk, inLoop, starts, |walk|)
    requires walk[|walk| - 1] != walk[starts[|starts| - 1]]
    ensures var last := starts[|starts| - 1];
            var cuts := starts + [|walk| - 1];
            SegmentsBetween(walk, inLoop + [Segment(walk[last], walk[|walk| - 1], walk[last].kind)], cuts) &&
            ChangesAt(walk, cuts, |cuts| - 1)
  {
    var last := starts[|starts| - 1];
    AppendCut(walk, inLoop, starts, |walk| - 1, walk[last].kind);
    ChangesAtExtend(walk, starts, |walk| - 1);
  }

  /** Loop step: a label change at `i` closes the open segment there and opens
      the next one. */
  lemma OpenNext(walk: seq<Point>, segments: seq<Segment>, starts: seq<nat>, i: nat)
    requires i < |walk| && starts != [] && Scanned(walk, segments, starts, i)
    requires walk[i].kind != walk[starts[|starts| - 1]].kind
    ensures var last := starts[|starts| - 1];
            Scanned(walk, segments + [Segment(walk[last], walk[i], walk[last].kind)], starts + [i], i + 1)
  {
    var last := starts[|starts| - 1];
    var segments' := segments + [Segment(walk[last], walk[i], walk[last].kind)];
    var starts' := starts + [i];
    AppendCut(walk, segments, starts, i, walk[last].kind);
    forall k | 0 < k < |starts'|
      ensures starts'[k] > 0 && walk[starts'[k]].kind != walk[starts'[k] - 1].kind
    {
      if k < |starts| {
        assert starts'[k] == starts[k];
      } else {
        assert starts'[k] == i;
        assert walk[i - 1].kind == walk[last].kind;
      }
    }
  }

  /** Appending a boundary keeps the label changes at the earlier ones. */
  lemma ChangesAtExtend(walk: seq<Point>, starts: seq<nat>, x: nat)
    requires ValidCuts(walk, starts) && ValidCuts(walk, starts + [x])
    requires ChangesAt(walk, starts, |starts|)
    ensures ChangesAt(walk, starts + [x], |starts|)
  {
    var cuts := starts + [x];
    forall k | 0 < k < |starts|
      ensures cuts[k] > 0 && walk[cuts[k]].kind != walk[cuts[k] - 1].kind
    {
      assert cuts[k] == starts[k];
    }
  }

  /** Adding boundary `i` after the last one, with the open segment's label on
      every point in between, extends the segment description. */
  lemma AppendCut(walk: seq<Point>, segments: seq<Segment>, starts: seq<nat>, i: nat, kind: string)
    requires i < |walk| && starts != [] && starts[|starts| - 1] < i
    requires SegmentsBetween(walk, segments, starts)
    requires kind == walk[starts[|starts| - 1]].kind
    requires forall j :: starts[|starts| - 1] <= j < i ==> walk[j].kind == kind
    ensures SegmentsBetween(walk, segments + [Segment(walk[starts[|starts| - 1]], walk[i], kind)], starts + [i])
  {
    var last := starts[|starts| - 1];
    var segments' := segments + [Segment(walk[last], walk[i], kind)];
    var starts' := starts + [i];
    forall k | 0 <= k < |starts'| ensures starts'[k] < |walk| {
      if k < |starts| { assert starts'[k] == starts[k]; }
    }
    forall k | 0 < k < |starts'| ensures starts'[k - 1] < starts'[k] {
      if k < |starts| { assert starts'[k - 1] == starts[k - 1] && starts'[k] == starts[k]; }
    }
    assert ValidCuts(walk, starts');
    forall k | 0 <= k < |segments'|
      ensures segments'[k] == Segment(walk[starts'[k]], walk[starts'[k + 1]], walk[starts'[k]].kind)
    {
      if k < |segments| {
        assert segments'[k] == segments[k] && starts'[k] == starts[k] && starts'[k + 1] == starts[k + 1];
      }
    }
    forall k, j | 0 <= k < |segments'| && starts'[k] <= j < starts'[k + 1]
      ensures walk[j].kind == segments'[k].kind
    {
      if k < |segments| {
        assert segments'[k] == segments[k] && starts'[k] == starts[k] && starts'[k + 1] == starts[k + 1];
      }
    }
  }

  /** Segments laid between label-change boundaries start at the walk's first
      point, chain end to start, take their start's label, and alternate. */
  lemma ShapeFromCuts(walk: seq<Point>, segments: seq<Segment>, cuts: seq<nat>)
    requires walk != [] && SegmentsBetween(walk, segments, cuts) && ChangesAt(walk, cuts, |cuts| - 1)
    requires walk[cuts[|cuts| - 1]] == walk[|walk| - 1]
    ensures segments != [] ==> segments[0].start == walk[0] && segments[|segments| - 1].end == walk[|walk| - 1]
    ensures Chained(segments) && Alternating(segments)
    ensures forall k :: 0 <= k < |segments| ==> segments[k].kind == segments[k].start.kind
  {
    if segments != [] {
      assert segments[0] == Segment(walk[cuts[0]], walk[cuts[1]], walk[cuts[0]].kind);
      var n := |segments| - 1;
      assert segments[n] == Segment(walk[cuts[n]], walk[cuts[n + 1]], walk[cuts[n]].kind);
    }
    forall k | 0 <= k < |segments| ensures segments[k].kind == segments[k].start.kind {
      assert segments[k] == Segment(walk[cuts[k]], walk[cuts[k + 1]], walk[cuts[k]].kind);
    }
    forall k | 0 < k < |segments|
      ensures segments[k - 1].end == segments[k].start && segments[k - 1].kind != segments[k].kind
    {
      assert segments[k - 1] == Segment(walk[cuts[k - 1]], walk[cuts[k]], walk[cuts[k - 1]].kind);
      assert segments[k] == Segment(walk[cuts[k]], walk[cuts[k + 1]], walk[cuts[k]].kind);
      var before: int := cuts[k] - 1;
      assert cuts[k - 1] <= before < cuts[k];
      assert walk[before].kind == segments[k - 1].kind;
    }
  }

  /** The points drawn for a segment: every point of the walk whose time lies in
      the segment's closed time window. */
  function MemberPoints(walk: seq<Point>, segment: Segment): (r: seq<Point>)
    ensures |r| <= |walk|
    ensures forall p :: p in r <==> p in walk && segment.start.time <= p.time <= segment.end.time
  {
    if walk == [] then []
    else
      (if segment.start.time <= walk[0].time <= segment.end.time then [walk[0]] else [])
      + MemberPoints(walk[1..], segment)
  }
}
