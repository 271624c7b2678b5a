/** Label propagation of shady_walks/shade_map_visualizer.py (`parse_gpx_file`):
    a merge-scan over the sorted waypoints gives each trackpoint the type of the
    latest waypoint at or before its time, or "unknown". */
module LabelPropagator {
  import opened Track

  /** The type of the last waypoint, in list order, whose time is at or before
      `t`; "unknown" when there is none. */
  function CarryForward(waypoints: seq<Point>, t: int): string
    decreases |waypoints|
  {
    if waypoints == [] then UNKNOWN
    else if waypoints[|waypoints| - 1].time <= t then waypoints[|waypoints| - 1].kind
    else CarryForward(waypoints[..|waypoints| - 1], t)
  }

  /** A trackpoint strictly before every waypoint is labelled "unknown". */
  lemma {:induction false} CarryForwardBeforeAll(waypoints: seq<Point>, t: int)
    requires forall j :: 0 <= j < |waypoints| ==> waypoints[j].time > t
    ensures CarryForward(waypoints, t) == UNKNOWN
    decreases |waypoints|
  {
    if waypoints != [] {
      CarryForwardBeforeAll(waypoints[..|waypoints| - 1], t);
    }
  }

  /** The label comes from waypoint `j` when `j` is the last waypoint at or
      before `t`; a waypoint exactly at `t` counts as "at or before". */
  lemma {:induction false} CarryForwardFromLastAtOrBefore(waypoints: seq<Point>, t: int, j: nat)
    requires j < |waypoints| && waypoints[j].time <= t
    requires forall k :: j < k < |waypoints| ==> waypoints[k].time > t
    ensures CarryForward(waypoints, t) == waypoints[j].kind
    decreases |waypoints|
  {
    if j < |waypoints| - 1 {
      CarryForwardFromLastAtOrBefore(waypoints[..|waypoints| - 1], t, j);
    }
  }

  /** On sorted waypoints, a cursor `n` that has passed exactly the waypoints at
      or before `t` determines the label: the type of waypoint `n - 1`, or
      "unknown" when `n` is 0. */
  lemma CarryForwardAtCursor(waypoints: seq<Point>, t: int, n: nat)
    requires SortedByTime(waypoints) && n <= |waypoints|
    requires n > 0 ==> waypoints[n - 1].time <= t
    requires n < |waypoints| ==> waypoints[n].time > t
    ensures CarryForward(waypoints, t) == if n == 0 then UNKNOWN else waypoints[n - 1].kind
  {
    if n == 0 {
      CarryForwardBeforeAll(waypoints, t);
    } else {
      CarryForwardFromLastAtOrBefore(waypoints, t, n - 1);
    }
  }

  /** The trackpoint `p` with its type set as the merge-scan sets it. */
  function Labelled(p: Point, waypoints: seq<Point>): Point
  {
    p.(kind := CarryForward(waypoints, p.time))
  }

  /** The labelling loop: writes each trackpoint's type in place. Both lists are
      sorted by time just before it. `cursor` is the final `waypoint_index`: the
      scan has passed exactly the waypoints at or before the last trackpoint. */
  method AssignTypes(track: array<Point>, waypoints: seq<Point>) returns (ghost cursor: nat)
    requires SortedByTime(track[..]) && SortedByTime(waypoints)
    modifies track
    ensures cursor <= |waypoints|
    ensures forall j :: 0 <= j < cursor ==> track.Length > 0 && waypoints[j].time <= old(track[track.Length - 1]).time
    ensures track.Length > 0 && cursor < |waypoints| ==> waypoints[cursor].time > old(track[track.Length - 1]).time
    ensures forall k :: 0 <= k < track.Length ==> track[k] == Labelled(old(track[k]), waypoints)
  {
    var currentType := UNKNOWN;
    var waypointIndex := 0;
    cursor := 0;
    for i := 0 to track.Length
      invariant 0 <= waypointIndex <= |waypoints| && cursor == waypointIndex
      invariant currentType == if waypointIndex == 0 then UNKNOWN else waypoints[waypointIndex - 1].kind
      invariant i == 0 ==> waypointIndex == 0
      invariant forall j :: 0 <= j < waypointIndex ==> i > 0 && waypoints[j].time <= old(track[i - 1]).time
      invariant i > 0 && waypointIndex < |waypoints| ==> waypoints[waypointIndex].time > old(track[i - 1]).time
      invariant forall k :: 0 <= k < i ==> track[k] == Labelled(old(track[k]), waypoints)
      invariant forall k :: i <= k < track.Length ==> track[k] == old(track[k])
    {
      var t := track[i].time;
      assert i > 0 ==> old(track[i - 1]).time <= t by {
        assert i > 0 ==> old(track[..])[i - 1] == old(track[i - 1]) && old(track[..])[i] == old(track[i]);
      }
      while waypointIndex < |waypoints| && waypoints[waypointIndex].time <= t
        invariant 0 <= waypointIndex <= |waypoints| && cursor == waypointIndex
        invariant currentType == if waypointIndex == 0 then UNKNOWN else waypoints[waypointIndex - 1].kind
        invariant forall j :: 0 <= j < waypointIndex ==> waypoints[j].time <= t
      {
        currentType := waypoints[waypointIndex].kind;
        waypointIndex := waypointIndex + 1;
        cursor := cursor + 1;
      }
      CarryForwardAtCursor(waypoints, t, waypointIndex);
      track[i] := track[i].(kind := currentType);
    }
  }
}
