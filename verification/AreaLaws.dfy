/** What the area of an outline measures (src/kicad/pcb.ts). */
module AreaLaws {
  // The shoelace sum is known by its laws: it is that of a rectangle, moving a polygon leaves it
  // alone, and cutting along a diagonal adds up. The walk then reports the area of a loop whose
  // segments it is given.
  import opened BoardOutline
  import opened Options
  import opened OutlineWalk
  import opened Reals

  // ------------------------------------------------------------------ rectangles

  /** The corners of a rectangle in walking order, from one corner to the opposite. */
  function Rectangle(p: Point, q: Point): seq<Point> {
    [p, Point(q.x, p.y), q, Point(p.x, q.y)]
  }

  lemma RectangleSum(p: Point, q: Point)
    ensures Shoelace(Rectangle(p, q)) == 2.0 * ((q.x - p.x) * (q.y - p.y))
  {
    var a, b := Point(q.x, p.y), Point(p.x, q.y);
    var path := Rectangle(p, q) + [p];
    assert path == [p, a, q, b, p];
    assert path[1..] == [a, q, b, p] && [a, q, b, p][1..] == [q, b, p];
    assert [q, b, p][1..] == [b, p] && [b, p][1..] == [p];
    assert PathSum([b, p]) == Cross(b, p);
    assert PathSum([q, b, p]) == Cross(q, b) + PathSum([b, p]);
    assert PathSum([a, q, b, p]) == Cross(a, q) + PathSum([q, b, p]);
    CornerProducts(p.x, p.y, q.x, q.y);
  }

  lemma CornerProducts(a: real, b: real, c: real, d: real)
    ensures (a * b - c * b) + ((c * d - c * b) + ((c * d - a * d) + (a * b - a * d))) == 2.0 * ((c - a) * (d - b))
  {
    assert (c - a) * (d - b) == c * d - c * b - a * d + a * b;
  }

  lemma AbsProduct(a: real, b: real)
    ensures Abs(a * b) == Abs(a) * Abs(b)
  {}

  /** The area of a rectangle is its width times its height. */
  lemma RectangleArea(p: Point, q: Point)
    ensures AreaOf(Rectangle(p, q)) == Abs(q.x - p.x) * Abs(q.y - p.y)
  {
    RectangleSum(p, q);
    AbsProduct(q.x - p.x, q.y - p.y);
  }

  // ------------------------------------------------------------------ moving a polygon

  function Moved(p: Point, shift: Point): Point { Point(p.x + shift.x, p.y + shift.y) }

  function MovedAll(points: seq<Point>, shift: Point): (moved: seq<Point>)
    ensures |moved| == |points|
  {
    seq(|points|, i requires 0 <= i < |points| => Moved(points[i], shift))
  }

  lemma MovedCross(p: Point, q: Point, shift: Point)
    ensures Cross(Moved(p, shift), Moved(q, shift)) == Cross(p, q) + Cross(shift, q) - Cross(shift, p)
  {
    assert (p.x + shift.x) * (q.y + shift.y) == p.x * q.y + p.x * shift.y + shift.x * q.y + shift.x * shift.y;
    assert (q.x + shift.x) * (p.y + shift.y) == q.x * p.y + q.x * shift.y + shift.x * p.y + shift.x * shift.y;
  }

  /** Moving a path adds what depends on its two ends alone. */
  lemma {:induction false} MovedPath(points: seq<Point>, shift: Point)
    requires points != []
    ensures PathSum(MovedAll(points, shift))
         == PathSum(points) + Cross(shift, points[|points| - 1]) - Cross(shift, points[0])
  {
    if |points| > 1 {
      MovedPath(points[1..], shift);
      MovedCross(points[0], points[1], shift);
      assert MovedAll(points, shift)[1..] == MovedAll(points[1..], shift);
    }
  }

  /** Moving a polygon leaves its area alone. */
  lemma AreaIsIndependentOfPlace(points: seq<Point>, shift: Point)
    ensures AreaOf(MovedAll(points, shift)) == AreaOf(points)
  {
    if points != [] {
      MovedPath(points + [points[0]], shift);
      assert MovedAll(points + [points[0]], shift) == MovedAll(points, shift) + [MovedAll(points, shift)[0]];
    }
  }

  // ------------------------------------------------------------------ cutting a polygon

  /** The two polygons a diagonal cuts off: what lies between its corners, and the rest. */
  function Between(points: seq<Point>, i: nat, j: nat): seq<Point>
    requires i <= j < |points|
  {
    points[i..j + 1]
  }

  function Around(points: seq<Point>, i: nat, j: nat): seq<Point>
    requires i <= j < |points|
  {
    points[..i + 1] + points[j..]
  }

  /** The signed sum of a polygon is that of the two parts. */
  lemma DiagonalSplits(points: seq<Point>, i: nat, j: nat)
    requires i <= j < |points|
    ensures Shoelace(points) == Shoelace(Between(points, i, j)) + Shoelace(Around(points, i, j))
  {
    var p, q, first := points[i], points[j], points[0];
    var before, middle, after := points[..i], points[i + 1..j + 1], points[j + 1..] + [first];
    var inner := PathSum([p] + middle);
    assert points + [first] == before + [p] + (middle + after);
    PathSumConcat(before, p, middle + after);
    WholePath(points, i, j);
    AroundPath(points, i, j);
    assert Between(points, i, j) == [p] + middle;
    PathSumAppend([p] + middle, p);
    assert ([p] + middle)[|middle|] == q;
  }

  lemma WholePath(points: seq<Point>, i: nat, j: nat)
    requires i <= j < |points|
    ensures PathSum([points[i]] + (points[i + 1..j + 1] + (points[j + 1..] + [points[0]])))
         == PathSum([points[i]] + points[i + 1..j + 1]) + PathSum([points[j]] + (points[j + 1..] + [points[0]]))
  {
    var p, q := points[i], points[j];
    var middle, after := points[i + 1..j + 1], points[j + 1..] + [points[0]];
    if i == j {
      assert [p] + (middle + after) == [q] + after && [p] + middle == [p];
    } else {
      var front := [p] + points[i + 1..j];
      assert front + [q] == [p] + middle;
      assert front + [q] + after == [p] + (middle + after);
      PathSumConcat(front, q, after);
    }
  }

  lemma AroundPath(points: seq<Point>, i: nat, j: nat)
    requires i <= j < |points|
    ensures Shoelace(Around(points, i, j))
         == PathSum(points[..i] + [points[i]]) + Cross(points[i], points[j])
            + PathSum([points[j]] + (points[j + 1..] + [points[0]]))
  {
    var p, q := points[i], points[j];
    var before, after := points[..i], points[j + 1..] + [points[0]];
    assert Around(points, i, j) + [points[0]] == before + [p] + ([q] + after);
    assert Around(points, i, j)[0] == points[0];
    PathSumConcat(before, p, [q] + after);
    assert [p] + ([q] + after) == [p] + [q] + after;
    PathSumConcat([p], q, after);
    assert [p] + [q] == [p, q] && [p, q][1..] == [q];
  }

  // ------------------------------------------------------------------ the area of a walked loop

  /** The segments of a polygon, each from one corner to the next. */
  function Sides(points: seq<Point>): (sides: seq<Segment>)
    ensures |sides| == |points|
  {
    seq(|points|, i requires 0 <= i < |points| =>
      Segment(points[i], if i + 1 < |points| then points[i + 1] else points[0]))
  }

  /** The chain along the first corners. */
  ghost predicate IsChainAlong(chain: Chain, points: seq<Point>, k: nat) {
    0 < k < |points| && chain.points == points[..k + 1]
  }

  lemma NextSide(points: seq<Point>, k: nat, chain: Chain)
    requires IsChainAlong(chain, points, k)
    ensures Sides(points)[k..] != [] && FirstTouching(Sides(points)[k..], Tail(chain)) == 0
    ensures FarEnd(Sides(points)[k], Tail(chain)) == if k + 1 < |points| then points[k + 1] else points[0]
    ensures Without(Sides(points)[k..], 0) == Sides(points)[k + 1..]
  {
    var rest := Sides(points)[k..];
    assert rest[0] == Sides(points)[k] && rest[0].start == points[k] == Tail(chain);
    assert Touches(rest[0], Tail(chain));
  }

  lemma {:induction false} FollowsSides(points: seq<Point>, k: nat, chain: Chain)
    requires IsChainAlong(chain, points, k)
    requires forall i :: 0 < i < |points| ==> !SamePoint(points[0], points[i])
    ensures var followed := Follow(chain, Sides(points)[k..]);
            followed.Closed? && followed.chain.points == points + [points[0]] && followed.left == []
    decreases |points| - k
  {
    var rest := Sides(points)[k..];
    NextSide(points, k, chain);
    assert !IsClosedChain(chain);
    var longer := Extended(chain, rest[0]);
    if k + 1 < |points| {
      assert longer.points == points[..k + 2];
      FollowsSides(points, k + 1, longer);
    } else {
      assert longer.points == points + [points[0]];
      assert IsClosedChain(longer);
    }
  }

  /** A loop no later corner of which is the same point as the first is walked as it is written,
      and its area reported, if it encloses one. */
  lemma LoopIsMeasured(points: seq<Point>)
    requires |points| >= 3 && forall i :: 0 < i < |points| ==> !SamePoint(points[0], points[i])
    ensures OutlineArea(Sides(points)) == if AreaOf(points) == 0.0 then None else Some(AreaOf(points))
  {
    var sides := Sides(points);
    var chain := Begun(sides[0]);
    assert chain.points == points[..2];
    FollowsSides(points, 1, chain);
    WalkUnfolds(sides);
    var followed := Follow(chain, sides[1..]);
    assert [followed.chain] + [] == [followed.chain];
    LoneChain(followed.chain, points);
  }

  lemma LoneChain(chain: Chain, points: seq<Point>)
    requires points != [] && chain.points == points + [points[0]]
    ensures AreasOf([chain]) == [AreaOf(points)]
    ensures NetArea([AreaOf(points)]) == if AreaOf(points) == 0.0 then None else Some(AreaOf(points))
  {
    assert chain.points[..|chain.points| - 1] == points;
    assert [chain][1..] == [] && [AreaOf(points)][1..] == [];
    assert SortedDescending([AreaOf(points)]) == [AreaOf(points)];
  }

  /** The outline of a rectangle reports its width times its height. */
  lemma RectangleIsMeasured(p: Point, q: Point)
    requires Abs(q.x - p.x) >= 0.0001 && Abs(q.y - p.y) >= 0.0001
    ensures OutlineArea(Sides(Rectangle(p, q))) == Some(Abs(q.x - p.x) * Abs(q.y - p.y))
  {
    RectangleArea(p, q);
    LoopIsMeasured(Rectangle(p, q));
  }
}
