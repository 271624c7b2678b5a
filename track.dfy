/** Shared vocabulary of the shade-map engine: timestamped points, labels,
    segments, the abstract geodesic distance, the error values the Python code
    raises, and the in-place sort by time that both visualiser versions apply to
    their point lists. */
module Track {

  /** Labels written on waypoints by the walker and carried onto trackpoints. */
  const SUN: string := "sun"
  const SHADE: string := "shade"
  const UNKNOWN: string := "unknown"

  /** Python datetimes subtract to a whole number of microseconds. */
  const MICROS_PER_SECOND: int := 1000000

  datatype Coord = Coord(lat: real, lon: real)

  /** A GPX point: its position, its time in microseconds and its 'type' label.
      Before labelling, the label of a trackpoint is irrelevant and is overwritten. */
  datatype Point = Point(pos: Coord, time: int, kind: string)

  /** A segment `(start, end, type)` as the segmenters build it. */
  datatype Segment = Segment(start: Point, end: Point, kind: string)

  /** Exceptions the Python code raises on the paths modelled here. */
  datatype Error = IndexError | AttributeError

  datatype Result<T> = Ok(value: T) | Err(error: Error)

  /** A Python variable that may hold `None`. */
  datatype Option<T> = None | Some(value: T)

  /** Geodesic distance in metres between two positions (an external library). */
  type Geodesic = (Coord, Coord) -> real

  ghost predicate NonNegative(dist: Geodesic)
  {
    forall a, b :: dist(a, b) >= 0.0
  }

  predicate SortedByTime(s: seq<Point>)
  {
    forall i, j :: 0 <= i < j < |s| ==> s[i].time <= s[j].time
  }

  predicate StrictlyIncreasing(s: seq<Point>)
  {
    forall i, j :: 0 <= i < j < |s| ==> s[i].time < s[j].time
  }

  /** `xs` is obtained from `ys` by deleting elements, keeping the order. */
  ghost predicate Subsequence(xs: seq<Point>, ys: seq<Point>)
    decreases |ys|
  {
    xs == [] ||
    (ys != [] &&
     (Subsequence(xs, ys[1..]) || (xs[0] == ys[0] && Subsequence(xs[1..], ys[1..]))))
  }

  /** Each segment ends where the next one starts. */
  predicate Chained(segments: seq<Segment>)
  {
    forall k :: 0 < k < |segments| ==> segments[k - 1].end == segments[k].start
  }

  /** No two adjacent segments carry the same label. */
  predicate Alternating(segments: seq<Segment>)
  {
    forall k :: 0 < k < |segments| ==> segments[k - 1].kind != segments[k].kind
  }

  /** In chained, alternating segments labelled by their starts, each segment
      but the last ends where one of another label starts; so when the last one
      has two different ends, none starts and ends at the same point. */
  lemma DistinctEnds(segments: seq<Segment>)
    requires Chained(segments) && Alternating(segments)
    requires forall k :: 0 <= k < |segments| ==> segments[k].kind == segments[k].start.kind
    requires segments != [] ==> segments[|segments| - 1].start != segments[|segments| - 1].end
    ensures forall k :: 0 <= k < |segments| ==> segments[k].start != segments[k].end
  {
    forall k | 0 <= k < |segments| - 1
      ensures segments[k].start != segments[k].end
    {
      assert segments[k].end == segments[k + 1].start && segments[k].kind != segments[k + 1].kind;
    }
  }

  /** `100 * part / whole`, or 0 when `whole` is not positive (both guards in the
      code test `> 0`). */
  function Percentage(part: real, whole: real): (pct: real)
    ensures whole > 0.0 && 0.0 <= part <= whole ==> 0.0 <= pct <= 100.0
    ensures whole <= 0.0 ==> pct == 0.0
    ensures whole > 0.0 ==> pct * whole == 100.0 * part
  {
    if whole > 0.0 then part / whole * 100.0 else 0.0
  }

  /** The points of `s` whose time is `t`, in their order in `s`. */
  function WithTime(s: seq<Point>, t: int): seq<Point>
  {
    if s == [] then []
    else (if s[0].time == t then [s[0]] else []) + WithTime(s[1..], t)
  }

  /** `s` and `u` list the points of every time in the same order: what a
      stable sort keeps of its input. */
  ghost predicate SameTies(s: seq<Point>, u: seq<Point>)
  {
    forall t :: WithTime(s, t) == WithTime(u, t)
  }

  lemma {:induction false} WithTimeAppend(s: seq<Point>, u: seq<Point>, t: int)
    ensures WithTime(s + u, t) == WithTime(s, t) + WithTime(u, t)
  {
    if s != [] {
      var head := if s[0].time == t then [s[0]] else [];
      assert (s + u)[0] == s[0] && (s + u)[1..] == s[1..] + u;
      WithTimeAppend(s[1..], u, t);
      calc {
        WithTime(s + u, t);
        head + WithTime(s[1..] + u, t);
        head + (WithTime(s[1..], t) + WithTime(u, t));
        (head + WithTime(s[1..], t)) + WithTime(u, t);
      }
    } else {
      assert s + u == u;
    }
  }

  lemma SameTiesTrans(s: seq<Point>, u: seq<Point>, v: seq<Point>)
    requires SameTies(s, u) && SameTies(u, v)
    ensures SameTies(s, v)
  {
    forall t ensures WithTime(s, t) == WithTime(v, t) {
      assert WithTime(s, t) == WithTime(u, t);
    }
  }

  /** Exchanging two neighbours with different times keeps the order of the
      points of every time. */
  lemma SwapKeepsTies(s: seq<Point>, j: int)
    requires 0 < j < |s| && s[j - 1].time != s[j].time
    ensures SameTies(s[j - 1 := s[j]][j := s[j - 1]], s)
  {
    var u := s[j - 1 := s[j]][j := s[j - 1]];
    assert s == s[..j - 1] + [s[j - 1], s[j]] + s[j + 1..];
    assert u == s[..j - 1] + [s[j], s[j - 1]] + s[j + 1..];
    forall t ensures WithTime(u, t) == WithTime(s, t) {
      WithTimeAppend(s[..j - 1] + [s[j - 1], s[j]], s[j + 1..], t);
      WithTimeAppend(s[..j - 1], [s[j - 1], s[j]], t);
      WithTimeAppend(s[..j - 1] + [s[j], s[j - 1]], s[j + 1..], t);
      WithTimeAppend(s[..j - 1], [s[j], s[j - 1]], t);
      assert [s[j - 1], s[j]][1..] == [s[j]] && [s[j], s[j - 1]][1..] == [s[j - 1]];
    }
  }

  /** One exchange of a strict inversion keeps the ties of the original list. */
  lemma SwapStep(before: seq<Point>, after: seq<Point>, original: seq<Point>, j: int)
    requires 0 < j < |before| && before[j - 1].time > before[j].time
    requires after == before[j - 1 := before[j]][j := before[j - 1]]
    requires SameTies(before, original)
    ensures SameTies(after, original)
  {
    SwapKeepsTies(before, j);
    SameTiesTrans(after, before, original);
  }

  /** A time-sorted list that has a point of time `t` is not empty and starts
      no later than `t`. */
  lemma {:induction false} WithTimeNonEmpty(s: seq<Point>, t: int)
    requires SortedByTime(s) && WithTime(s, t) != []
    ensures s != [] && s[0].time <= t
  {
    if s[0].time != t {
      assert WithTime(s[1..], t) != [];
      WithTimeNonEmpty(s[1..], t);
      assert s[0].time <= s[1].time;
    }
  }

  /** A stable sort has one possible result: two time-sorted lists that list
      the points of every time in the same order are equal. */
  lemma {:induction false} StableSortUnique(s: seq<Point>, u: seq<Point>)
    requires SortedByTime(s) && SortedByTime(u) && SameTies(s, u)
    ensures s == u
  {
    if u != [] {
      assert WithTime(u, u[0].time)[0] == u[0];
      WithTimeNonEmpty(s, u[0].time);
    }
    if s != [] {
      assert WithTime(s, s[0].time)[0] == s[0];
      WithTimeNonEmpty(u, s[0].time);
      // both start at the same time, with the first point of that time
      assert WithTime(s, s[0].time)[0] == WithTime(u, u[0].time)[0];
      forall t ensures WithTime(s[1..], t) == WithTime(u[1..], t) {
        var head := if s[0].time == t then [s[0]] else [];
        assert WithTime(s, t) == head + WithTime(s[1..], t);
        assert WithTime(u, t) == head + WithTime(u[1..], t);
        assert WithTime(s[1..], t) == WithTime(s, t)[|head|..];
      }
      StableSortUnique(s[1..], u[1..]);
      assert s == [s[0]] + s[1..] && u == [u[0]] + u[1..];
    }
  }

  /** Exchanges two neighbouring entries. */
  method SwapDown(a: array<Point>, j: int)
    requires 0 < j < a.Length
    modifies a
    ensures a[j - 1] == old(a[j]) && a[j] == old(a[j - 1])
    ensures forall k :: 0 <= k < a.Length && k != j - 1 && k != j ==> a[k] == old(a[k])
    ensures multiset(a[..]) == old(multiset(a[..]))
  {
    a[j - 1], a[j] := a[j], a[j - 1];
  }

  /** Moves `a[i]` left past every entry with a strictly later time, so that
      `a[..i + 1]` becomes sorted. */
  method InsertLeft(a: array<Point>, i: int)
    requires 0 <= i < a.Length
    requires forall p, q :: 0 <= p < q < i ==> a[p].time <= a[q].time
    modifies a
    ensures forall p, q :: 0 <= p < q <= i ==> a[p].time <= a[q].time
    ensures multiset(a[..]) == old(multiset(a[..]))
    ensures SameTies(a[..], old(a[..]))
  {
    var j := i;
    ghost var original := a[..];
    while j > 0 && a[j - 1].time > a[j].time
      invariant 0 <= j <= i
      invariant forall p, q :: 0 <= p < q <= i && p != j && q != j ==> a[p].time <= a[q].time
      invariant forall q :: j < q <= i ==> a[j].time < a[q].time
      invariant multiset(a[..]) == old(multiset(a[..]))
      invariant SameTies(a[..], original)
    {
      ghost var before := a[..];
      SwapDown(a, j);
      assert SameTies(a[..], original) by {
        assert a[..] == before[j - 1 := before[j]][j := before[j - 1]];
        SwapStep(before, a[..], original, j);
      }
      j := j - 1;
    }
  }

  /** `list.sort(key=lambda x: x['time'])`: sorts the array in place by time.
      Insertion sort swapping only on a strict inversion, as the Python sort is
      stable. */
  method SortByTime(a: array<Point>)
    modifies a
    ensures SortedByTime(a[..])
    ensures multiset(a[..]) == old(multiset(a[..]))
    ensures SameTies(a[..], old(a[..]))
  {
    for i := 0 to a.Length
      invariant forall p, q :: 0 <= p < q < i ==> a[p].time <= a[q].time
      invariant multiset(a[..]) == old(multiset(a[..]))
      invariant SameTies(a[..], old(a[..]))
    {
      InsertLeft(a, i);
    }
  }
}
