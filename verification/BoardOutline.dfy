/** The board outline (src/kicad/pcb.ts): its closure test and the areas of its loops. */
module BoardOutline {
  // The closure test counts how often each rounded point ends a segment; a separate greedy walk
  // follows segments by tolerance. Where tolerance and rounding agree, the walk reaches every
  // segment without a dead end exactly when every count is even.
  import opened Reals

  datatype Point = Point(x: real, y: real)

  datatype Segment = Segment(start: Point, end: Point)

  predicate SamePoint(left: Point, right: Point) {
    Abs(left.x - right.x) < 0.0001 && Abs(left.y - right.y) < 0.0001
  }

  /** A number printed with four decimals: halves round away from zero, and the sign of a
      negative number is printed even before zeros. */
  datatype Fixed = Fixed(negative: bool, units: int)

  function ToFixed4(r: real): Fixed { Fixed(r < 0.0, (Abs(r) * 10000.0 + 0.5).Floor) }

  /** The key under which the closure test counts a point. */
  datatype Key = Key(x: Fixed, y: Fixed)

  function KeyOf(p: Point): Key { Key(ToFixed4(p.x), ToFixed4(p.y)) }

  // ------------------------------------------------------------------ the closure test

  function EndsAt(segment: Segment, key: Key): nat {
    (if KeyOf(segment.start) == key then 1 else 0) + (if KeyOf(segment.end) == key then 1 else 0)
  }

  /** How many segment ends a key has. */
  function Degree(segments: seq<Segment>, key: Key): nat {
    if segments == [] then 0 else EndsAt(segments[0], key) + Degree(segments[1..], key)
  }

  lemma {:induction false} DegreeConcat(left: seq<Segment>, right: seq<Segment>, key: Key)
    ensures Degree(left + right, key) == Degree(left, key) + Degree(right, key)
  {
    if left == [] {
      assert left + right == right;
    } else {
      assert (left + right)[1..] == left[1..] + right;
      DegreeConcat(left[1..], right, key);
    }
  }

  ghost predicate EveryDegreeIsTwo(segments: seq<Segment>) {
    forall k :: Degree(segments, k) == 0 || Degree(segments, k) == 2
  }

  /** A map that holds the degree of every key that has one. */
  ghost predicate CountsDegrees(counts: map<Key, nat>, segments: seq<Segment>) {
    forall k :: (if k in counts then counts[k] else 0) == Degree(segments, k) && (k in counts ==> counts[k] > 0)
  }

  function Counted(counts: map<Key, nat>, key: Key): map<Key, nat> {
    counts[key := (if key in counts then counts[key] else 0) + 1]
  }

  lemma SegmentCounted(counts: map<Key, nat>, segments: seq<Segment>, segment: Segment)
    requires CountsDegrees(counts, segments)
    ensures CountsDegrees(Counted(Counted(counts, KeyOf(segment.start)), KeyOf(segment.end)), segments + [segment])
  {
    forall k ensures Degree(segments + [segment], k) == Degree(segments, k) + EndsAt(segment, k) {
      DegreeConcat(segments, [segment], k);
    }
  }

  method IsOutlineClosed(hasRectangleOrCircle: bool, segments: seq<Segment>) returns (closed: bool)
    ensures closed <==> hasRectangleOrCircle || (segments != [] && EveryDegreeIsTwo(segments))
  {
    if hasRectangleOrCircle {
      return true;
    }
    var counts: map<Key, nat> := map[];
    for i := 0 to |segments|
      invariant CountsDegrees(counts, segments[..i])
    {
      SegmentCounted(counts, segments[..i], segments[i]);
      assert segments[..i + 1] == segments[..i] + [segments[i]];
      counts := Counted(counts, KeyOf(segments[i].start));
      counts := Counted(counts, KeyOf(segments[i].end));
    }
    assert segments[..|segments|] == segments;
    closed := counts != map[] && forall k :: k in counts ==> counts[k] == 2;
    ClosedExactly(counts, segments);
  }

  lemma ClosedExactly(counts: map<Key, nat>, segments: seq<Segment>)
    requires CountsDegrees(counts, segments)
    ensures counts != map[] <==> segments != []
    ensures (forall k :: k in counts ==> counts[k] == 2) <==> EveryDegreeIsTwo(segments)
  {
    if segments != [] {
      assert Degree(segments, KeyOf(segments[0].start)) > 0;
      assert KeyOf(segments[0].start) in counts;
    }
    if forall k :: k in counts ==> counts[k] == 2 {
      forall k ensures Degree(segments, k) == 0 || Degree(segments, k) == 2 {
        assert k in counts ==> counts[k] == 2;
      }
    }
    if EveryDegreeIsTwo(segments) {
      forall k | k in counts ensures counts[k] == 2 {
        assert Degree(segments, k) == counts[k];
      }
    }
  }

  // ------------------------------------------------------------------ the area of a polygon

  function Cross(p: Point, q: Point): real { p.x * q.y - q.x * p.y }

  /** The shoelace sum along an open path. */
  function PathSum(points: seq<Point>): real {
    if |points| < 2 then 0.0 else Cross(points[0], points[1]) + PathSum(points[1..])
  }

  /** The shoelace sum around a polygon. */
  function Shoelace(points: seq<Point>): real {
    if points == [] then 0.0 else PathSum(points + [points[0]])
  }

  function AreaOf(points: seq<Point>): real { Abs(Shoelace(points) / 2.0) }

  method PolygonArea(points: seq<Point>) returns (area: real)
    ensures area == AreaOf(points)
  {
    var sum := 0.0;
    for index := 0 to |points|
      invariant sum == if index < |points| then PathSum(points[..index + 1]) else Shoelace(points)
    {
      NextIndex(index, |points|);
      var point, next := points[index], points[(index + 1) % |points|];
      PathSumAppend(points[..index + 1], next);
      assert index + 1 < |points| ==> points[..index + 1] + [next] == points[..index + 2];
      assert index + 1 == |points| ==> points[..index + 1] + [next] == points + [points[0]];
      sum := sum + Cross(point, next);
    }
    area := Abs(sum / 2.0);
  }

  lemma NextIndex(i: nat, n: nat)
    requires i < n
    ensures (i + 1) % n == if i + 1 < n then i + 1 else 0
  {}

  lemma {:induction false} PathSumAppend(points: seq<Point>, next: Point)
    requires points != []
    ensures PathSum(points + [next]) == PathSum(points) + Cross(points[|points| - 1], next)
  {
    assert (points + [next])[1..] == points[1..] + [next];
    if |points| > 1 {
      PathSumAppend(points[1..], next);
    }
  }

  lemma {:induction false} PathSumConcat(left: seq<Point>, middle: Point, right: seq<Point>)
    ensures PathSum(left + [middle] + right) == PathSum(left + [middle]) + PathSum([middle] + right)
  {
    if left == [] {
      assert left + [middle] + right == [middle] + right && left + [middle] == [middle];
    } else {
      assert (left + [middle] + right)[1..] == left[1..] + [middle] + right;
      assert (left + [middle])[1..] == left[1..] + [middle];
      assert (left + [middle])[0] == (left + [middle] + right)[0]
          && (left + [middle])[1] == (left + [middle] + right)[1];
      PathSumConcat(left[1..], middle, right);
    }
  }

  function Reversed(points: seq<Point>): seq<Point> {
    if points == [] then [] else Reversed(points[1..]) + [points[0]]
  }

  lemma {:induction false} ReversedLast(points: seq<Point>, last: Point)
    ensures Reversed(points + [last]) == [last] + Reversed(points)
  {
    if points != [] {
      assert (points + [last])[1..] == points[1..] + [last];
      ReversedLast(points[1..], last);
    }
  }

  lemma {:induction false} PathSumReversed(points: seq<Point>)
    ensures PathSum(Reversed(points)) == -PathSum(points)
  {
    if |points| >= 2 {
      var rest := Reversed(points[1..]);
      PathSumReversed(points[1..]);
      assert rest == Reversed(points[2..]) + [points[1]] by { assert points[1..][1..] == points[2..]; }
      PathSumAppend(rest, points[0]);
    } else if |points| == 1 {
      assert Reversed(points[1..]) == [];
    }
  }

  /** Starting a polygon at another corner does not change its shoelace sum. */
  lemma ShoelaceRotated(points: seq<Point>, k: nat)
    requires k <= |points|
    ensures Shoelace(points[k..] + points[..k]) == Shoelace(points)
  {
    if 0 < k < |points| {
      var left, right := points[..k], points[k..];
      var p, q := points[0], points[k];
      assert left + right == points && left[0] == p && right[0] == q;
      PathSumConcat(left, q, right[1..] + [p]);
      PathSumConcat(right, p, left[1..] + [q]);
      assert left + [q] + (right[1..] + [p]) == points + [p];
      assert [q] + (right[1..] + [p]) == right + [p];
      assert right + [p] + (left[1..] + [q]) == right + left + [q];
      assert [p] + (left[1..] + [q]) == left + [q];
    } else if k == 0 {
      assert points[0..] + points[..0] == points;
    } else {
      assert points[k..] + points[..k] == points;
    }
  }

  /** Going round the other way negates it. */
  lemma ShoelaceReversed(points: seq<Point>)
    ensures Shoelace(Reversed(points)) == -Shoelace(points)
  {
    if points != [] {
      var first := points[0];
      var rest := Reversed(points[1..]);
      ReversedLast(points, first);
      PathSumReversed(points + [first]);
      assert [first] + Reversed(points) == ([first] + rest) + [first];
      var turned := [first] + rest;
      assert turned[1..] + turned[..1] == Reversed(points);
      ShoelaceRotated(turned, 1);
    }
  }

  /** The area of a polygon depends neither on the corner it starts from nor on the
      direction it is walked in. */
  lemma {:induction false} AreaIsIndependentOfWalk(points: seq<Point>, k: nat)
    requires k <= |points|
    ensures AreaOf(points[k..] + points[..k]) == AreaOf(points)
    ensures AreaOf(Reversed(points)) == AreaOf(points)
    ensures AreaOf(Reversed(points[k..] + points[..k])) == AreaOf(points)
  {
    ShoelaceRotated(points, k);
    ShoelaceReversed(points);
    ShoelaceReversed(points[k..] + points[..k]);
  }
}
