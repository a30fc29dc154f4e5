/** Distances between drawn paths (src/multicad/gerber-geometry.ts), in exact arithmetic.
    Distances are squared, which keeps their order and their zeros. The main results: the
    crossing test holds exactly when two paths with a direction share a point, and the
    four endpoint distances are the distance between any two paths that do not cross. The
    distance of a point to a path comes first, then where two paths meet, apart from and on
    parallel lines, then the test, and last the distance of two paths. Products of reals are
    kept behind small lemmas about one axis at a time. */
module PlaneDistance {
  import opened Reals

  /** A point of the plane, or a displacement between two of them. */
  datatype Vector = Vector(x: real, y: real)

  function Plus(u: Vector, v: Vector): Vector { Vector(u.x + v.x, u.y + v.y) }

  function Minus(u: Vector, v: Vector): Vector { Vector(u.x - v.x, u.y - v.y) }

  function Scaled(t: real, v: Vector): Vector { Vector(t * v.x, t * v.y) }

  function Dot(u: Vector, v: Vector): real { u.x * v.x + u.y * v.y }

  function Cross(u: Vector, v: Vector): real { u.x * v.y - u.y * v.x }

  /** A straight path; its ends may coincide. */
  datatype Segment = Segment(from: Vector, to: Vector) {
    function Direction(): Vector { Minus(to, from) }

    function At(t: real): Vector { Plus(from, Scaled(t, Direction())) }
  }

  ghost predicate Unit(t: real) { 0.0 <= t <= 1.0 }

  function DistanceSquared(p: Vector, q: Vector): real { Dot(Minus(p, q), Minus(p, q)) }

  function Clamp(k: real): real { Min(1.0, Max(0.0, k)) }

  // ------------------------------------------------------------------ the program

  function PointToSegment(point: Vector, segment: Segment): real {
    var direction := segment.Direction();
    var lengthSquared := Dot(direction, direction);
    if lengthSquared == 0.0 then DistanceSquared(point, segment.from)
    else
      var along := Dot(Minus(point, segment.from), direction) / lengthSquared;
      DistanceSquared(point, segment.At(Clamp(along)))
  }

  function SegmentToSegment(first: Segment, second: Segment): real {
    if Crosses(first, second) then 0.0 else EndpointDistance(first, second)
  }

  /** The least of the four endpoint distances. */
  function EndpointDistance(first: Segment, second: Segment): real {
    Min(Min(PointToSegment(first.from, second), PointToSegment(first.to, second)),
        Min(PointToSegment(second.from, first), PointToSegment(second.to, first)))
  }

  predicate IsDegenerate(segment: Segment) { segment.from.x == segment.to.x && segment.from.y == segment.to.y }

  function Orientation(a: Vector, b: Vector, c: Vector): real { Cross(Minus(b, a), Minus(c, a)) }

  predicate IsBetween(start: Vector, end: Vector, point: Vector) {
    && Min(start.x, end.x) <= point.x <= Max(start.x, end.x)
    && Min(start.y, end.y) <= point.y <= Max(start.y, end.y)
  }

  predicate Opposite(a: real, b: real) { (a > 0.0 && b < 0.0) || (a < 0.0 && b > 0.0) }

  predicate Crosses(first: Segment, second: Segment) {
    if IsDegenerate(first) || IsDegenerate(second) then false
    else
      var a := Orientation(first.from, first.to, second.from);
      var b := Orientation(first.from, first.to, second.to);
      var c := Orientation(second.from, second.to, first.from);
      var d := Orientation(second.from, second.to, first.to);
      || (Opposite(a, b) && Opposite(c, d))
      || (a == 0.0 && IsBetween(first.from, first.to, second.from))
      || (b == 0.0 && IsBetween(first.from, first.to, second.to))
      || (c == 0.0 && IsBetween(second.from, second.to, first.from))
      || (d == 0.0 && IsBetween(second.from, second.to, first.to))
  }

  // ------------------------------------------------------------------ arithmetic

  function Times(a: real, b: real): real { a * b }

  lemma ProductPositive(a: real, b: real)
    requires 0.0 < a && 0.0 < b
    ensures 0.0 < Times(a, b)
  {}

  lemma ProductNonNegative(a: real, b: real)
    requires 0.0 <= a && 0.0 <= b
    ensures 0.0 <= Times(a, b)
  {}

  lemma ScaledOrder(a: real, b: real, scale: real)
    requires a <= b && 0.0 <= scale
    ensures Times(a, scale) <= Times(b, scale)
  {}

  lemma SquareNonNegative(a: real)
    ensures 0.0 <= Times(a, a)
    ensures Times(a, a) == 0.0 <==> a == 0.0
  {
    if a < 0.0 {
      ProductPositive(-a, -a);
      assert Times(-a, -a) == Times(a, a);
    } else if 0.0 < a {
      ProductPositive(a, a);
    } else {
      assert Times(0.0, 0.0) == 0.0;
    }
  }

  lemma NormNonNegative(v: Vector)
    ensures 0.0 <= Dot(v, v)
    ensures Dot(v, v) == 0.0 <==> v == Vector(0.0, 0.0)
  {
    SquareNonNegative(v.x);
    SquareNonNegative(v.y);
    assert Dot(v, v) == Times(v.x, v.x) + Times(v.y, v.y);
  }

  lemma ZeroDirection(segment: Segment)
    ensures IsDegenerate(segment) <==> segment.Direction() == Vector(0.0, 0.0)
  {}

  lemma DegenerateDirection(segment: Segment)
    ensures IsDegenerate(segment) <==> Dot(segment.Direction(), segment.Direction()) == 0.0
    ensures IsDegenerate(segment) <==> segment.Direction() == Vector(0.0, 0.0)
  {
    var d := segment.Direction();
    assert IsDegenerate(segment) <==> d == Vector(0.0, 0.0) by { ZeroDirection(segment); }
    assert Dot(d, d) == 0.0 <==> d == Vector(0.0, 0.0) by { NormNonNegative(d); }
  }

  // ------------------------------------------------------------------ point to segment

  /** The displacement from a moving point of a line is a straight line in the parameter. */
  lemma FromAt(point: Vector, segment: Segment, t: real)
    ensures Minus(point, segment.At(t)) == Minus(Minus(point, segment.from), Scaled(t, segment.Direction()))
  {}

  lemma AxisSquare(w: real, d: real, t: real)
    ensures (w - t * d) * (w - t * d) == w * w - 2.0 * (t * (w * d)) + t * t * (d * d)
  {
    var td := t * d;
    assert (w - td) * (w - td) == w * w - 2.0 * (w * td) + td * td;
    assert w * td == t * (w * d);
    assert td * td == t * t * (d * d);
  }

  /** What moving along a line adds to a squared distance. */
  function Change(t: real, dot: real, len: real): real { t * t * len - 2.0 * (t * dot) }

  lemma LineSquare(w: Vector, d: Vector, t: real)
    ensures Dot(Minus(w, Scaled(t, d)), Minus(w, Scaled(t, d))) == Dot(w, w) + Change(t, Dot(w, d), Dot(d, d))
  {
    AxisSquare(w.x, d.x, t);
    AxisSquare(w.y, d.y, t);
  }

  /** Completing the square: the distance is a parabola in `t` around the projection `k`. */
  lemma CompletedSquare(t: real, k: real, dot: real, len: real)
    requires dot == k * len
    ensures Change(t, dot, len) == Times(Times(t - k, t - k), len) - k * k * len
  {
    assert t * (k * len) == (t * k) * len;
  }

  /** The clamped projection is no further from the projection than any other fraction. */
  lemma ClampedIsNearest(k: real, t: real)
    requires Unit(t)
    ensures Times(Clamp(k) - k, Clamp(k) - k) <= Times(t - k, t - k)
  {
    var f := Clamp(k);
    if f != k {
      var a, b := t - f, t + f - 2.0 * k;
      if k < 0.0 {
        ProductNonNegative(a, b);
      } else {
        ProductNonNegative(-a, -b);
        assert Times(-a, -b) == Times(a, b);
      }
      assert (t - k) * (t - k) - (f - k) * (f - k) == a * b;
    }
  }

  lemma ParabolaMinimum(w: Vector, d: Vector, k: real, t: real)
    requires Unit(t)
    requires Dot(w, d) == k * Dot(d, d)
    ensures Dot(Minus(w, Scaled(Clamp(k), d)), Minus(w, Scaled(Clamp(k), d)))
         <= Dot(Minus(w, Scaled(t, d)), Minus(w, Scaled(t, d)))
  {
    var f := Clamp(k);
    LineSquare(w, d, t);
    LineSquare(w, d, f);
    ClampedIsNearest(k, t);
    NormNonNegative(d);
    NearerChangesLess(f, t, k, Dot(w, d), Dot(d, d));
  }

  lemma NearerChangesLess(f: real, t: real, k: real, dot: real, len: real)
    requires dot == k * len && 0.0 <= len && Times(f - k, f - k) <= Times(t - k, t - k)
    ensures Change(f, dot, len) <= Change(t, dot, len)
  {
    CompletedSquare(t, k, dot, len);
    CompletedSquare(f, k, dot, len);
    ScaledOrder(Times(f - k, f - k), Times(t - k, t - k), len);
  }

  /** The fraction of a path that `PointToSegment` measures to. */
  function NearestFraction(point: Vector, segment: Segment): (t: real)
    ensures Unit(t)
  {
    var direction := segment.Direction();
    var lengthSquared := Dot(direction, direction);
    if lengthSquared == 0.0 then 0.0 else Clamp(Dot(Minus(point, segment.from), direction) / lengthSquared)
  }

  lemma DegenerateAt(segment: Segment, t: real)
    requires IsDegenerate(segment)
    ensures segment.At(t) == segment.from
  {
    ZeroDirection(segment);
    ScaledNothing(t);
  }

  lemma ScaledNothing(t: real)
    ensures Scaled(t, Vector(0.0, 0.0)) == Vector(0.0, 0.0)
  {}

  lemma PointToSegmentAt(point: Vector, segment: Segment)
    ensures PointToSegment(point, segment) == DistanceSquared(point, segment.At(NearestFraction(point, segment)))
  {
    DegenerateDirection(segment);
    if IsDegenerate(segment) {
      DegenerateAt(segment, 0.0);
    }
  }

  lemma PointToSegmentIsBelow(point: Vector, segment: Segment, t: real)
    requires Unit(t)
    ensures PointToSegment(point, segment) <= DistanceSquared(point, segment.At(t))
  {
    PointToSegmentAt(point, segment);
    var d, w := segment.Direction(), Minus(point, segment.from);
    DegenerateDirection(segment);
    if IsDegenerate(segment) {
      DegenerateAt(segment, t);
    } else {
      var k := Dot(w, d) / Dot(d, d);
      FromAt(point, segment, t);
      FromAt(point, segment, Clamp(k));
      ParabolaMinimum(w, d, k, t);
    }
  }

  /** The distance from a point to a path is attained on the path, and no point of the path
      is nearer; a path whose ends coincide included. */
  lemma PointToSegmentIsNearest(point: Vector, segment: Segment)
    ensures exists t :: Unit(t) && PointToSegment(point, segment) == DistanceSquared(point, segment.At(t))
    ensures forall t :: Unit(t) ==> PointToSegment(point, segment) <= DistanceSquared(point, segment.At(t))
  {
    PointToSegmentAt(point, segment);
    assert Unit(NearestFraction(point, segment));
    forall t | Unit(t) ensures PointToSegment(point, segment) <= DistanceSquared(point, segment.At(t)) {
      PointToSegmentIsBelow(point, segment, t);
    }
  }

  // ------------------------------------------------------------------ meeting

  /** Two paths share the point at `s` along the first and `t` along the second. */
  ghost predicate MeetAt(first: Segment, second: Segment, s: real, t: real) {
    Unit(s) && Unit(t) && first.At(s) == second.At(t)
  }

  ghost predicate Share(first: Segment, second: Segment) {
    exists s, t :: MeetAt(first, second, s, t)
  }

  /** The displacement between the starts of two paths that meet. */
  lemma StartsOfMeeting(first: Segment, second: Segment, s: real, t: real)
    requires first.At(s) == second.At(t)
    ensures Minus(second.from, first.from) == Minus(Scaled(s, first.Direction()), Scaled(t, second.Direction()))
    ensures Minus(second.to, first.from)
         == Plus(Minus(second.from, first.from), second.Direction())
  {}

  lemma CrossOfCombination(u: Vector, v: Vector, s: real, t: real)
    ensures Cross(u, Minus(Scaled(s, u), Scaled(t, v))) == -(t * Cross(u, v))
  {
    assert u.x * (s * u.y) == u.y * (s * u.x);
    assert u.x * (t * v.y) == t * (u.x * v.y) && u.y * (t * v.x) == t * (u.y * v.x);
  }

  lemma CrossOfSum(u: Vector, w: Vector, v: Vector)
    ensures Cross(u, Plus(w, v)) == Cross(u, w) + Cross(u, v)
  {}

  /** Where two paths meet, the orientations are multiples of the cross product of their
      directions, and the multiples say how far along the meeting point is. */
  lemma OrientationsAtMeeting(first: Segment, second: Segment, s: real, t: real)
    requires first.At(s) == second.At(t)
    ensures var area := Cross(first.Direction(), second.Direction());
            && Orientation(first.from, first.to, second.from) == -(t * area)
            && Orientation(first.from, first.to, second.to) == (1.0 - t) * area
  {
    StartsOfMeeting(first, second, s, t);
    CrossOfCombination(first.Direction(), second.Direction(), s, t);
    CrossOfSum(first.Direction(), Minus(second.from, first.from), second.Direction());
  }

  lemma OppositeMultiples(t: real, area: real)
    requires 0.0 < t < 1.0 && area != 0.0
    ensures Opposite(-(t * area), (1.0 - t) * area)
  {
    if 0.0 < area {
      ProductPositive(t, area);
      ProductPositive(1.0 - t, area);
    } else {
      ProductPositive(t, -area);
      ProductPositive(1.0 - t, -area);
      assert Times(t, -area) == -(t * area) && Times(1.0 - t, -area) == -((1.0 - t) * area);
    }
  }

  /** A point of a path lies in the box its ends span. */
  lemma AtIsBetween(segment: Segment, t: real)
    requires Unit(t)
    ensures IsBetween(segment.from, segment.to, segment.At(t))
  {
    AxisBetween(segment.from.x, segment.to.x, t);
    AxisBetween(segment.from.y, segment.to.y, t);
  }

  lemma AxisBetween(a: real, b: real, t: real)
    requires Unit(t)
    ensures Min(a, b) <= a + t * (b - a) <= Max(a, b)
  {
    if a <= b {
      ProductNonNegative(t, b - a);
      ProductNonNegative(1.0 - t, b - a);
      assert Times(1.0 - t, b - a) == (b - a) - t * (b - a);
    } else {
      ProductNonNegative(t, a - b);
      ProductNonNegative(1.0 - t, a - b);
      assert Times(t, a - b) == -(t * (b - a));
      assert Times(1.0 - t, a - b) == (a - b) + t * (b - a);
    }
  }

  lemma AtEnds(segment: Segment)
    ensures segment.At(0.0) == segment.from && segment.At(1.0) == segment.to
  {}

  /** What the crossing test says of a point that lies on a path. */
  predicate Touches(path: Segment, point: Vector) {
    Orientation(path.from, path.to, point) == 0.0 && IsBetween(path.from, path.to, point)
  }

  lemma AtTouches(path: Segment, s: real)
    requires Unit(s)
    ensures Touches(path, path.At(s))
  {
    var u := path.Direction();
    AtIsBetween(path, s);
    assert Minus(path.At(s), path.from) == Scaled(s, u);
    assert u.x * (s * u.y) == u.y * (s * u.x);
  }

  lemma TouchingCrosses(first: Segment, second: Segment)
    requires !IsDegenerate(first) && !IsDegenerate(second)
    requires Touches(first, second.from) || Touches(first, second.to)
             || Touches(second, first.from) || Touches(second, first.to)
    ensures Crosses(first, second)
  {}

  /** A path that crosses another in its interior has its ends on both sides of it. */
  lemma EndsOnBothSides(first: Segment, second: Segment, s: real, t: real)
    requires first.At(s) == second.At(t) && 0.0 < t < 1.0
    requires Cross(first.Direction(), second.Direction()) != 0.0
    ensures Opposite(Orientation(first.from, first.to, second.from), Orientation(first.from, first.to, second.to))
  {
    OrientationsAtMeeting(first, second, s, t);
    OppositeMultiples(t, Cross(first.Direction(), second.Direction()));
  }

  /** Paths that are not parallel and share a point pass the crossing test. */
  lemma SharedPointCrosses(first: Segment, second: Segment, s: real, t: real)
    requires MeetAt(first, second, s, t)
    requires !IsDegenerate(first) && !IsDegenerate(second)
    requires Cross(first.Direction(), second.Direction()) != 0.0
    ensures Crosses(first, second)
  {
    AtEnds(first);
    AtEnds(second);
    if 0.0 < s < 1.0 && 0.0 < t < 1.0 {
      CrossSwapped(first.Direction(), second.Direction());
      EndsOnBothSides(first, second, s, t);
      EndsOnBothSides(second, first, t, s);
    } else {
      AtTouches(first, s);
      AtTouches(second, t);
      TouchingCrosses(first, second);
    }
  }

  lemma CrossSwapped(u: Vector, v: Vector)
    ensures Cross(v, u) == -Cross(u, v)
  {}

  // ------------------------------------------------------------------ parallel paths

  /** A displacement parallel to a direction is a multiple of it. */
  lemma Multiple(u: Vector, w: Vector) returns (c: real)
    requires u != Vector(0.0, 0.0) && Cross(u, w) == 0.0
    ensures w == Scaled(c, u)
  {
    if u.x != 0.0 {
      c := MultipleOnAxes(u.x, u.y, w.x, w.y);
    } else {
      c := MultipleOnAxes(u.y, u.x, w.y, w.x);
    }
  }

  lemma MultipleOnAxes(ux: real, uy: real, wx: real, wy: real) returns (c: real)
    requires ux != 0.0 && ux * wy == uy * wx
    ensures wx == c * ux && wy == c * uy
  {
    c := wx / ux;
    assert wx == c * ux;
    assert uy * (c * ux) == ux * (c * uy);
    SameQuotient(ux, wy, c * uy);
  }

  lemma SameQuotient(a: real, b: real, c: real)
    requires a != 0.0 && a * b == a * c
    ensures b == c
  {
    assert b == (a * b) / a && c == (a * c) / a;
  }

  /** Along one line, every parameter of the second path is a parameter of the first. */
  lemma ParallelAt(first: Segment, second: Segment, s: real, t: real, c: real, r: real)
    requires first.At(s) == second.At(t)
    requires second.Direction() == Scaled(c, first.Direction())
    ensures second.At(r) == first.At(s + (r - t) * c)
  {
    var u := first.Direction();
    ScaledTwice(r - t, c, u);
    assert second.At(r) == Plus(second.At(t), Scaled(r - t, second.Direction()));
    assert first.At(s + (r - t) * c) == Plus(first.At(s), Scaled((r - t) * c, u));
  }

  lemma ScaledTwice(a: real, b: real, u: Vector)
    ensures Scaled(a, Scaled(b, u)) == Scaled(a * b, u)
  {}

  /** Two intervals that share a point hold an end of one in the other. */
  lemma OverlapHasEnd(q0: real, q1: real, s: real, t: real)
    requires Unit(s) && Unit(t) && s == q0 + t * (q1 - q0)
    ensures Unit(q0) || Unit(q1) || (q0 <= 0.0 && 1.0 <= q1) || (q1 <= 0.0 && 1.0 <= q0)
  {
    AxisBetween(q0, q1, t);
  }

  lemma ParallelSharedCrosses(first: Segment, second: Segment, s: real, t: real)
    requires MeetAt(first, second, s, t)
    requires !IsDegenerate(first) && !IsDegenerate(second)
    requires Cross(first.Direction(), second.Direction()) == 0.0
    ensures Crosses(first, second)
  {
    ZeroDirection(first);
    ZeroDirection(second);
    AtEnds(first);
    AtEnds(second);
    var c := Multiple(first.Direction(), second.Direction());
    assert Scaled(0.0, first.Direction()) == Vector(0.0, 0.0);
    var q0, q1 := s + (0.0 - t) * c, s + (1.0 - t) * c;
    ParallelAt(first, second, s, t, c, 0.0);
    ParallelAt(first, second, s, t, c, 1.0);
    assert q1 - q0 == c;
    OverlapHasEnd(q0, q1, s, t);
    if Unit(q0) {
      AtTouches(first, q0);
    } else if Unit(q1) {
      AtTouches(first, q1);
    } else {
      var r := (0.0 - q0) / c;
      assert r * c == 0.0 - q0;
      CoveringFraction(q0, q1, r);
      assert (r - t) * c == r * c - t * c;
      assert s + (r - t) * c == 0.0;
      ParallelAt(first, second, s, t, c, r);
      AtTouches(second, r);
    }
    TouchingCrosses(first, second);
  }

  lemma CoveringFraction(q0: real, q1: real, r: real)
    requires (q0 <= 0.0 && 1.0 <= q1) || (q1 <= 0.0 && 1.0 <= q0)
    requires r * (q1 - q0) == 0.0 - q0
    ensures Unit(r)
  {
    var c := q1 - q0;
    assert Times(-r, c) == -(r * c) && Times(-r, -c) == r * c;
    assert Times(r - 1.0, c) == r * c - c && Times(r - 1.0, -c) == c - r * c;
    if r < 0.0 {
      ProductPositive(-r, if 0.0 < c then c else -c);
    } else if 1.0 < r {
      ProductPositive(r - 1.0, if 0.0 < c then c else -c);
    }
  }

  // ------------------------------------------------------------------ the crossing test

  /** A point that touches a path lies on it. */
  lemma TouchingIsOn(path: Segment, point: Vector) returns (s: real)
    requires !IsDegenerate(path) && Touches(path, point)
    ensures Unit(s) && path.At(s) == point
  {
    var u, w := path.Direction(), Minus(point, path.from);
    ZeroDirection(path);
    s := Multiple(u, w);
    assert point == Plus(path.from, Scaled(s, u));
    if u.x != 0.0 {
      BetweenFraction(path.from.x, path.to.x, s);
    } else {
      BetweenFraction(path.from.y, path.to.y, s);
    }
  }

  lemma BetweenFraction(a: real, b: real, s: real)
    requires a != b
    requires Min(a, b) <= a + s * (b - a) <= Max(a, b)
    ensures Unit(s)
  {
    var c := b - a;
    assert Times(-s, c) == -(s * c) && Times(-s, -c) == s * c;
    assert Times(s - 1.0, c) == s * c - c && Times(s - 1.0, -c) == c - s * c;
    if s < 0.0 {
      ProductPositive(-s, if 0.0 < c then c else -c);
    } else if 1.0 < s {
      ProductPositive(s - 1.0, if 0.0 < c then c else -c);
    }
  }

  /** Cramer's rule: any displacement is a combination of two that are not parallel. */
  lemma Combination(u: Vector, v: Vector, q: Vector)
    requires Cross(u, v) != 0.0
    ensures q == Plus(Scaled(Cross(q, v) / Cross(u, v), u), Scaled(Cross(u, q) / Cross(u, v), v))
  {
    var area := Cross(u, v);
    var s, t := Cross(q, v) / area, Cross(u, q) / area;
    CramerAxis(u.x, v.x, q.x, Cross(q, v), Cross(u, q), area, s, t);
    CramerAxis(u.y, v.y, q.y, Cross(q, v), Cross(u, q), area, s, t);
  }

  lemma CramerAxis(u: real, v: real, q: real, a: real, b: real, area: real, s: real, t: real)
    requires area != 0.0 && s * area == a && t * area == b
    requires area * q == a * u + b * v
    ensures q == s * u + t * v
  {
    assert a * u == area * (s * u) && b * v == area * (t * v);
    SameQuotient(area, q, s * u + t * v);
  }

  /** Where the lines of two paths that are not parallel meet. */
  lemma LinesMeet(first: Segment, second: Segment) returns (s: real, t: real)
    requires Cross(first.Direction(), second.Direction()) != 0.0
    ensures first.At(s) == second.At(t)
    ensures s == Orientation(second.from, second.to, first.from) / Cross(first.Direction(), second.Direction())
    ensures t == -Orientation(first.from, first.to, second.from) / Cross(first.Direction(), second.Direction())
  {
    var u, v, q := first.Direction(), second.Direction(), Minus(second.from, first.from);
    var area := Cross(u, v);
    assert Orientation(second.from, second.to, first.from) == Cross(q, v);
    s, t := Cross(q, v) / area, -(Cross(u, q) / area);
    Combination(u, v, q);
    assert Scaled(t, v) == Scaled(-1.0, Scaled(Cross(u, q) / area, v));
  }

  lemma OppositeMeet(first: Segment, second: Segment) returns (s: real, t: real)
    requires Opposite(Orientation(first.from, first.to, second.from), Orientation(first.from, first.to, second.to))
    requires Opposite(Orientation(second.from, second.to, first.from), Orientation(second.from, second.to, first.to))
    ensures MeetAt(first, second, s, t)
  {
    var a, b := Orientation(first.from, first.to, second.from), Orientation(first.from, first.to, second.to);
    var c, d := Orientation(second.from, second.to, first.from), Orientation(second.from, second.to, first.to);
    OrientationDifference(first, second);
    OrientationDifference(second, first);
    CrossSwapped(first.Direction(), second.Direction());
    s, t := LinesMeet(first, second);
    FractionOfOpposite(a, b, t);
    assert s == -c / (d - c);
    FractionOfOpposite(c, d, s);
  }

  lemma OrientationDifference(first: Segment, second: Segment)
    ensures Orientation(first.from, first.to, second.to) - Orientation(first.from, first.to, second.from)
         == Cross(first.Direction(), second.Direction())
  {
    assert Minus(second.to, first.from) == Plus(Minus(second.from, first.from), second.Direction());
    CrossOfSum(first.Direction(), Minus(second.from, first.from), second.Direction());
  }

  lemma FractionOfOpposite(a: real, b: real, t: real)
    requires Opposite(a, b) && t == -a / (b - a)
    ensures Unit(t)
  {
    var c := b - a;
    assert t * c == -a;
    assert Times(-t, c) == -(t * c) && Times(-t, -c) == t * c;
    assert Times(t - 1.0, c) == t * c - c && Times(t - 1.0, -c) == c - t * c;
    if t < 0.0 {
      ProductPositive(-t, if 0.0 < c then c else -c);
    } else if 1.0 < t {
      ProductPositive(t - 1.0, if 0.0 < c then c else -c);
    }
  }

  lemma CrossingMeets(first: Segment, second: Segment) returns (s: real, t: real)
    requires Crosses(first, second)
    ensures MeetAt(first, second, s, t)
  {
    AtEnds(first);
    AtEnds(second);
    if Touches(first, second.from) {
      t := 0.0;
      s := TouchingIsOn(first, second.from);
    } else if Touches(first, second.to) {
      t := 1.0;
      s := TouchingIsOn(first, second.to);
    } else if Touches(second, first.from) {
      s := 0.0;
      t := TouchingIsOn(second, first.from);
    } else if Touches(second, first.to) {
      s := 1.0;
      t := TouchingIsOn(second, first.to);
    } else {
      s, t := OppositeMeet(first, second);
    }
  }

  /** The crossing test is exact: it holds of two paths with a direction exactly when they
      share a point, whether they cross, touch at an end or lie on top of each other. */
  lemma CrossesExactlyWhenShared(first: Segment, second: Segment)
    requires !IsDegenerate(first) && !IsDegenerate(second)
    ensures Crosses(first, second) <==> Share(first, second)
  {
    if Crosses(first, second) {
      var s, t := CrossingMeets(first, second);
    }
    if Share(first, second) {
      var s, t :| MeetAt(first, second, s, t);
      if Cross(first.Direction(), second.Direction()) == 0.0 {
        ParallelSharedCrosses(first, second, s, t);
      } else {
        SharedPointCrosses(first, second, s, t);
      }
    }
  }

  // ------------------------------------------------------------------ segment to segment

  lemma DistanceZero(p: Vector, q: Vector)
    ensures 0.0 <= DistanceSquared(p, q)
    ensures DistanceSquared(p, q) == 0.0 <==> p == q
  {
    var w := Minus(p, q);
    assert w == Vector(0.0, 0.0) <==> p == q by { ZeroDirection(Segment(q, p)); }
    assert 0.0 <= Dot(w, w) && (Dot(w, w) == 0.0 <==> w == Vector(0.0, 0.0)) by { NormNonNegative(w); }
  }

  lemma DistanceSymmetric(p: Vector, q: Vector)
    ensures DistanceSquared(p, q) == DistanceSquared(q, p)
  {
    var w := Minus(p, q);
    assert Minus(q, p) == Vector(-w.x, -w.y);
    assert (-w.x) * (-w.x) == w.x * w.x && (-w.y) * (-w.y) == w.y * w.y;
  }

  predicate OnEdge(s: real, t: real) { s == 0.0 || s == 1.0 || t == 0.0 || t == 1.0 }

  /** At an end of either path the endpoint distances are a lower bound. */
  lemma EdgeIsAbove(first: Segment, second: Segment, s: real, t: real)
    requires Unit(s) && Unit(t) && OnEdge(s, t)
    ensures EndpointDistance(first, second) <= DistanceSquared(first.At(s), second.At(t))
  {
    AtEnds(first);
    AtEnds(second);
    DistanceSymmetric(first.At(s), second.At(t));
    if s == 0.0 || s == 1.0 {
      PointToSegmentIsBelow(first.At(s), second, t);
    } else {
      PointToSegmentIsBelow(second.At(t), first, s);
    }
  }

  /** A step that does not end inside the unit square leaves it through its edge. */
  lemma LeaveSquare(s: real, t: real, ds: real, dt: real) returns (l: real, s': real, t': real)
    requires Unit(s) && Unit(t)
    requires !(0.0 < s + ds < 1.0 && 0.0 < t + dt < 1.0)
    ensures Unit(l) && s' == s + l * ds && t' == t + l * dt
    ensures Unit(s') && Unit(t') && OnEdge(s', t')
  {
    var ls, lt := LeaveInterval(s, ds), LeaveInterval(t, dt);
    l := Min(ls, lt);
    StaysInside(s, ds, l);
    StaysInside(t, dt, l);
    s', t' := s + l * ds, t + l * dt;
  }

  /** How much of a step stays inside the unit interval. */
  function LeaveInterval(s: real, ds: real): (l: real)
    requires Unit(s)
  {
    if s + ds < 0.0 then -s / ds else if 1.0 < s + ds then (1.0 - s) / ds else 1.0
  }

  lemma StaysInside(s: real, ds: real, l: real)
    requires Unit(s) && l <= LeaveInterval(s, ds)
    ensures Unit(LeaveInterval(s, ds))
    ensures 0.0 <= l ==> Unit(s + l * ds)
    ensures l == LeaveInterval(s, ds) ==> s + l * ds == 0.0 || s + l * ds == 1.0 || (l == 1.0 && Unit(s + ds))
  {
    var limit := LeaveInterval(s, ds);
    if s + ds < 0.0 {
      assert limit * -ds == s;
      LimitIsUnit(s, -ds, limit);
      if 0.0 <= l {
        StepWithin(s, -ds, l, limit);
      }
    } else if 1.0 < s + ds {
      assert limit * ds == 1.0 - s;
      LimitIsUnit(1.0 - s, ds, limit);
      if 0.0 <= l {
        StepWithin(1.0 - s, ds, l, limit);
      }
    } else if 0.0 <= l {
      StaysWithin(s, ds, l);
    }
  }

  lemma StaysWithin(s: real, ds: real, l: real)
    requires Unit(s) && Unit(s + ds) && Unit(l)
    ensures Unit(s + l * ds)
  {
    if 0.0 <= ds {
      ScaledOrder(l, 1.0, ds);
      ProductNonNegative(l, ds);
    } else {
      ScaledOrder(l, 1.0, -ds);
      ProductNonNegative(l, -ds);
      assert Times(l, -ds) == -(l * ds);
    }
  }

  lemma StepWithin(rest: real, step: real, l: real, limit: real)
    requires 0.0 <= rest < step && limit * step == rest && 0.0 <= l <= limit
    ensures 0.0 <= l * step <= rest && l * -step == -(l * step)
  {
    ScaledOrder(l, limit, step);
    ProductNonNegative(l, step);
  }

  lemma LimitIsUnit(rest: real, step: real, limit: real)
    requires 0.0 <= rest < step && limit * step == rest
    ensures Unit(limit)
  {
    assert Times(-limit, step) == -rest;
    assert Times(limit - 1.0, step) == rest - step;
    if limit < 0.0 {
      ProductPositive(-limit, step);
    } else if 1.0 < limit {
      ProductPositive(limit - 1.0, step);
    }
  }

  /** The displacement between a moving point of each path. */
  function Gap(first: Segment, second: Segment, s: real, t: real): Vector { Minus(first.At(s), second.At(t)) }

  /** Moving both points the same share of the way to where the lines meet shrinks the
      displacement by that share. */
  lemma GapTowardsMeeting(first: Segment, second: Segment, s: real, t: real, s0: real, t0: real, l: real)
    requires first.At(s0) == second.At(t0)
    ensures Gap(first, second, s + l * (s0 - s), t + l * (t0 - t)) == Scaled(1.0 - l, Gap(first, second, s, t))
  {
    AtTowards(first, s, s0, l);
    AtTowards(second, t, t0, l);
    CommonGap(first.At(s), second.At(t), Scaled(l, first.At(s0)), 1.0 - l);
  }

  lemma CommonGap(p: Vector, q: Vector, common: Vector, k: real)
    ensures Minus(Plus(Scaled(k, p), common), Plus(Scaled(k, q), common)) == Scaled(k, Minus(p, q))
  {
    AxisGap(p.x, q.x, common.x, k);
    AxisGap(p.y, q.y, common.y, k);
  }

  lemma AxisGap(p: real, q: real, common: real, k: real)
    ensures (k * p + common) - (k * q + common) == k * (p - q)
  {}

  lemma TowardsMeetingIsNearer(first: Segment, second: Segment, s: real, t: real, s0: real, t0: real, l: real,
                               s': real, t': real)
    requires first.At(s0) == second.At(t0) && Unit(l)
    requires s' == s + l * (s0 - s) && t' == t + l * (t0 - t)
    ensures DistanceSquared(first.At(s'), second.At(t')) <= DistanceSquared(first.At(s), second.At(t))
  {
    GapTowardsMeeting(first, second, s, t, s0, t0, l);
    ShrunkIsShorter(Gap(first, second, s, t), l);
  }

  lemma AtTowards(path: Segment, s: real, s0: real, l: real)
    ensures path.At(s + l * (s0 - s)) == Plus(Scaled(1.0 - l, path.At(s)), Scaled(l, path.At(s0)))
  {
    MixedScaled(s, s0, l, path.Direction());
    MixedPlus(path.from, Scaled(s, path.Direction()), Scaled(s0, path.Direction()), l);
  }

  lemma MixedScaled(s: real, s0: real, l: real, u: Vector)
    ensures Scaled(s + l * (s0 - s), u) == Plus(Scaled(1.0 - l, Scaled(s, u)), Scaled(l, Scaled(s0, u)))
  {
    MixedMultiple(s, s0, l, u.x);
    MixedMultiple(s, s0, l, u.y);
  }

  lemma MixedPlus(from: Vector, a: Vector, b: Vector, l: real)
    ensures Plus(from, Plus(Scaled(1.0 - l, a), Scaled(l, b)))
         == Plus(Scaled(1.0 - l, Plus(from, a)), Scaled(l, Plus(from, b)))
  {
    MixedSum(from.x, a.x, b.x, l);
    MixedSum(from.y, a.y, b.y, l);
  }

  lemma MixedMultiple(s: real, s0: real, l: real, u: real)
    ensures (s + l * (s0 - s)) * u == (1.0 - l) * (s * u) + l * (s0 * u)
  {
    assert (l * (s0 - s)) * u == l * ((s0 - s) * u) == l * (s0 * u - s * u);
  }

  lemma MixedSum(from: real, a: real, b: real, l: real)
    ensures from + ((1.0 - l) * a + l * b) == (1.0 - l) * (from + a) + l * (from + b)
  {}

  lemma ShrunkIsShorter(w: Vector, l: real)
    requires Unit(l)
    ensures Dot(Scaled(1.0 - l, w), Scaled(1.0 - l, w)) <= Dot(w, w)
  {
    var k := 1.0 - l;
    assert Dot(Scaled(k, w), Scaled(k, w)) == Times(Times(k, k), Dot(w, w)) by {
      assert (k * w.x) * (k * w.x) == k * k * (w.x * w.x) && (k * w.y) * (k * w.y) == k * k * (w.y * w.y);
    }
    NormNonNegative(w);
    ProductNonNegative(k, l);
    assert Times(k, l) == k - Times(k, k);
    ScaledOrder(Times(k, k), 1.0, Dot(w, w));
  }

  /** Along one line, moving both points by the same displacement keeps the gap. */
  lemma GapAlongParallel(first: Segment, second: Segment, s: real, t: real, s': real, t': real, c: real)
    requires second.Direction() == Scaled(c, first.Direction())
    requires s' == s + (t' - t) * c
    ensures Gap(first, second, s', t') == Gap(first, second, s, t)
  {
    var u, r := first.Direction(), t' - t;
    ScaledTwice(r, c, u);
    assert second.At(t') == Plus(second.At(t), Scaled(r, second.Direction()));
    assert first.At(s') == Plus(first.At(s), Scaled(r * c, u));
  }

  lemma ParallelIsAbove(first: Segment, second: Segment, s: real, t: real)
    requires Unit(s) && Unit(t)
    requires !IsDegenerate(first) && !IsDegenerate(second)
    requires Cross(first.Direction(), second.Direction()) == 0.0
    ensures EndpointDistance(first, second) <= DistanceSquared(first.At(s), second.At(t))
  {
    ZeroDirection(first);
    var c := Multiple(first.Direction(), second.Direction());
    var ds, dt := (1.0 - t) * c, 1.0 - t;
    var l, s', t' := LeaveSquare(s, t, ds, dt);
    assert t' - t == l * dt && s' == s + (t' - t) * c by {
      assert l * ((1.0 - t) * c) == (l * (1.0 - t)) * c;
    }
    GapAlongParallel(first, second, s, t, s', t', c);
    EdgeIsAbove(first, second, s', t');
  }

  lemma SkewIsAbove(first: Segment, second: Segment, s: real, t: real)
    requires Unit(s) && Unit(t)
    requires Cross(first.Direction(), second.Direction()) != 0.0
    requires !Share(first, second)
    ensures EndpointDistance(first, second) <= DistanceSquared(first.At(s), second.At(t))
  {
    var s0, t0 := LinesMeet(first, second);
    assert !MeetAt(first, second, s0, t0);
    var l, s', t' := LeaveSquare(s, t, s0 - s, t0 - t);
    TowardsMeetingIsNearer(first, second, s, t, s0, t0, l, s', t');
    EdgeIsAbove(first, second, s', t');
  }

  /** The four endpoint distances are a lower bound on the distance between any point of one
      path and any point of the other, unless the paths cross. */
  lemma EndpointsSuffice(first: Segment, second: Segment, s: real, t: real)
    requires Unit(s) && Unit(t)
    requires !Crosses(first, second)
    ensures EndpointDistance(first, second) <= DistanceSquared(first.At(s), second.At(t))
  {
    if IsDegenerate(first) {
      DegenerateAt(first, s);
      DegenerateAt(first, 0.0);
      EdgeIsAbove(first, second, 0.0, t);
    } else if IsDegenerate(second) {
      DegenerateAt(second, t);
      DegenerateAt(second, 0.0);
      EdgeIsAbove(first, second, s, 0.0);
    } else if Cross(first.Direction(), second.Direction()) == 0.0 {
      ParallelIsAbove(first, second, s, t);
    } else {
      CrossesExactlyWhenShared(first, second);
      SkewIsAbove(first, second, s, t);
    }
  }

  ghost predicate Attained(first: Segment, second: Segment, distance: real) {
    exists s, t :: AttainedAt(first, second, distance, s, t)
  }

  ghost predicate AttainedAt(first: Segment, second: Segment, distance: real, s: real, t: real) {
    Unit(s) && Unit(t) && distance == DistanceSquared(first.At(s), second.At(t))
  }

  lemma EndpointDistanceAttained(first: Segment, second: Segment)
    ensures Attained(first, second, EndpointDistance(first, second))
  {
    AtEnds(first);
    AtEnds(second);
    var d := EndpointDistance(first, second);
    if d == PointToSegment(first.from, second) || d == PointToSegment(first.to, second) {
      var s := if d == PointToSegment(first.from, second) then 0.0 else 1.0;
      PointToSegmentAt(first.At(s), second);
      assert AttainedAt(first, second, d, s, NearestFraction(first.At(s), second));
    } else {
      var t := if d == PointToSegment(second.from, first) then 0.0 else 1.0;
      PointToSegmentAt(second.At(t), first);
      DistanceSymmetric(second.At(t), first.At(NearestFraction(second.At(t), first)));
      assert AttainedAt(first, second, d, NearestFraction(second.At(t), first), t);
    }
  }

  ghost predicate LowerBound(first: Segment, second: Segment, distance: real) {
    forall s, t :: Unit(s) && Unit(t) ==> distance <= DistanceSquared(first.At(s), second.At(t))
  }

  lemma SegmentDistanceIsBelow(first: Segment, second: Segment, s: real, t: real)
    requires Unit(s) && Unit(t)
    ensures SegmentToSegment(first, second) <= DistanceSquared(first.At(s), second.At(t))
  {
    if Crosses(first, second) {
      DistanceZero(first.At(s), second.At(t));
    } else {
      EndpointsSuffice(first, second, s, t);
    }
  }

  lemma SegmentDistanceIsAttained(first: Segment, second: Segment)
    ensures Attained(first, second, SegmentToSegment(first, second))
  {
    if Crosses(first, second) {
      var s, t := CrossingMeets(first, second);
      DistanceZero(first.At(s), second.At(t));
      assert AttainedAt(first, second, 0.0, s, t);
    } else {
      EndpointDistanceAttained(first, second);
    }
  }

  /** The distance between two paths, degenerate ones included: some point of each attains
      it, no two points are nearer, and it is zero exactly when the paths share a point. */
  lemma SegmentDistanceIsExact(first: Segment, second: Segment) returns (distance: real)
    ensures distance == SegmentToSegment(first, second)
    ensures Attained(first, second, distance) && LowerBound(first, second, distance)
    ensures distance == 0.0 <==> Share(first, second)
  {
    distance := SegmentToSegment(first, second);
    SegmentDistanceIsAttained(first, second);
    SegmentDistanceIsLowerBound(first, second);
    AttainedZeroIsShared(first, second, distance);
    if Share(first, second) {
      SharedIsNotPositive(first, second);
    }
  }

  lemma SegmentDistanceIsLowerBound(first: Segment, second: Segment)
    ensures LowerBound(first, second, SegmentToSegment(first, second))
  {
    forall s, t | Unit(s) && Unit(t)
      ensures SegmentToSegment(first, second) <= DistanceSquared(first.At(s), second.At(t))
    {
      SegmentDistanceIsBelow(first, second, s, t);
    }
  }

  lemma SharedIsNotPositive(first: Segment, second: Segment)
    requires Share(first, second)
    ensures SegmentToSegment(first, second) <= 0.0
  {
    var s, t :| MeetAt(first, second, s, t);
    if !Crosses(first, second) {
      MeetingEndpointDistance(first, second, s, t);
    }
  }

  lemma MeetingEndpointDistance(first: Segment, second: Segment, s: real, t: real)
    requires MeetAt(first, second, s, t) && !Crosses(first, second)
    ensures EndpointDistance(first, second) <= 0.0
  {
    if IsDegenerate(first) {
      DegenerateAt(first, s);
      PointOnPath(second, t);
    } else if IsDegenerate(second) {
      DegenerateAt(second, t);
      PointOnPath(first, s);
    } else {
      CrossesExactlyWhenShared(first, second);
    }
  }

  lemma PointOnPath(path: Segment, t: real)
    requires Unit(t)
    ensures PointToSegment(path.At(t), path) <= 0.0
  {
    PointToSegmentIsBelow(path.At(t), path, t);
    NoDistanceToItself(path.At(t));
  }

  lemma NoDistanceToItself(p: Vector)
    ensures DistanceSquared(p, p) == 0.0
  {
    assert Minus(p, p) == Vector(0.0, 0.0);
  }

  lemma AttainedZeroIsShared(first: Segment, second: Segment, distance: real)
    requires Attained(first, second, distance)
    ensures 0.0 <= distance
    ensures distance == 0.0 ==> Share(first, second)
  {
    var s, t :| AttainedAt(first, second, distance, s, t);
    assert 0.0 <= distance && (distance == 0.0 ==> first.At(s) == second.At(t)) by {
      DistanceZero(first.At(s), second.At(t));
    }
    if distance == 0.0 {
      assert MeetAt(first, second, s, t);
    }
  }
}
