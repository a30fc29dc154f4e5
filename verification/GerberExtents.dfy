/** Extents (src/multicad/gerber-parser.ts): the bounding box the artwork walk publishes is the
    tight hull of what the file plotted, and holds all the geometry the collector publishes. */
module GerberExtents {
  import opened Options
  import opened PlaneDistance
  import opened GerberApertures
  import opened GerberGeometry
  import opened GerberArtwork
  import opened GerberContours

  /** The points an event plots: where it goes, and for a draw where it comes from. */
  predicate PlotsPoint(events: seq<Event>, i: nat, p: Vector) {
    && i < |events| && Plots(events[i])
    && (p == events[i].to || (events[i].DrawsTo? && p == PenOrOrigin(PenBefore(events, i))))
  }

  predicate IsPlotted(events: seq<Event>, n: nat, p: Vector) {
    exists i: nat :: i < n && PlotsPoint(events, i, p)
  }

  predicate Inside(box: Box, p: Vector) {
    box.minX <= p.x <= box.maxX && box.minY <= p.y <= box.maxY
  }

  ghost predicate Encloses(box: Box, events: seq<Event>, n: nat) {
    forall p :: IsPlotted(events, n, p) ==> Inside(box, p)
  }

  datatype Side = Left | Right | Bottom | Top

  predicate OnSide(box: Box, p: Vector, side: Side) {
    match side
    case Left => p.x == box.minX
    case Right => p.x == box.maxX
    case Bottom => p.y == box.minY
    case Top => p.y == box.maxY
  }

  ghost predicate IsTouched(box: Box, events: seq<Event>, n: nat, side: Side) {
    exists p :: IsPlotted(events, n, p) && OnSide(box, p, side)
  }

  ghost predicate IsTight(box: Box, events: seq<Event>, n: nat) {
    forall side :: IsTouched(box, events, n, side)
  }

  /** The box is the smallest one around the points plotted. */
  ghost predicate IsHull(box: Box, events: seq<Event>, n: nat) {
    Encloses(box, events, n) && IsTight(box, events, n)
  }

  // ------------------------------------------------------------------ growing the hull

  lemma PlottedStays(events: seq<Event>, n: nat, p: Vector)
    requires n < |events|
    ensures IsPlotted(events, n + 1, p) <==> IsPlotted(events, n, p) || PlotsPoint(events, n, p)
  {}

  /** A box that grew by a point reaches as far as before, or to the point. */
  lemma GrownSides(box: Box, p: Vector, side: Side, q: Vector)
    requires OnSide(box, q, side)
    ensures var grown := Grown(Some(box), p).value; OnSide(grown, q, side) || OnSide(grown, p, side)
  {}

  lemma GrownInside(box: Box, p: Vector, q: Vector)
    ensures var grown := Grown(Some(box), p).value; Inside(grown, p) && (Inside(box, q) ==> Inside(grown, q))
  {}

  ghost predicate Reaches(box: Box, points: iset<Vector>, side: Side) {
    exists p :: p in points && OnSide(box, p, side)
  }

  /** The extents so far are the hull of some points. */
  ghost predicate Bounds(extents: Option<Box>, points: iset<Vector>) {
    match extents
    case None => points == iset{}
    case Some(box) =>
      (forall p :: p in points ==> Inside(box, p)) && (forall side :: Reaches(box, points, side))
  }

  lemma GrownBounds(extents: Option<Box>, points: iset<Vector>, p: Vector)
    requires Bounds(extents, points)
    ensures Bounds(Grown(extents, p), points + iset{p})
  {
    var grown := Grown(extents, p).value;
    if extents.Some? {
      forall q | q in points ensures Inside(grown, q) {
        GrownInside(extents.value, p, q);
      }
      forall side ensures Reaches(grown, points + iset{p}, side) {
        assert Reaches(extents.value, points, side);
        var q :| q in points && OnSide(extents.value, q, side);
        GrownSides(extents.value, p, side, q);
      }
      GrownInside(extents.value, p, p);
    } else {
      forall side ensures Reaches(grown, points + iset{p}, side) {
        assert p in points + iset{p} && OnSide(grown, p, side);
      }
    }
  }

  ghost function PlottedPoints(events: seq<Event>, n: nat): iset<Vector> { iset p | IsPlotted(events, n, p) }

  lemma PenIsPlotted(events: seq<Event>, n: nat)
    requires n <= |events| && PenBefore(events, n).Some?
    ensures IsPlotted(events, n, PenBefore(events, n).value)
  {
    if MovesPen(events[n - 1]) {
      assert PlotsPoint(events, n - 1, events[n - 1].to);
    } else {
      PenIsPlotted(events, n - 1);
      PlottedStays(events, n - 1, PenBefore(events, n).value);
    }
  }

  /** The points an event adds: its target, and the origin if a draw starts with no pen. */
  ghost function PointsAdded(events: seq<Event>, i: nat): iset<Vector>
    requires i < |events|
  {
    if !Plots(events[i]) then iset{}
    else if events[i].DrawsTo? && PenBefore(events, i).None? then iset{ORIGIN, events[i].to}
    else iset{events[i].to}
  }

  lemma PlottedOneMore(events: seq<Event>, n: nat)
    requires n < |events|
    ensures PlottedPoints(events, n + 1) == PlottedPoints(events, n) + PointsAdded(events, n)
  {
    if PenBefore(events, n).Some? {
      PenIsPlotted(events, n);
    }
    forall p ensures p in PlottedPoints(events, n + 1) <==> p in PlottedPoints(events, n) + PointsAdded(events, n) {
      PlottedStays(events, n, p);
    }
  }

  lemma StepBounds(state: Artwork, events: seq<Event>, n: nat, points: iset<Vector>)
    requires n < |events| && Remembers(state, events, n) && Bounds(state.extents, points)
    ensures Bounds(state.Apply(events[n]).extents, points + PointsAdded(events, n))
  {
    if Plots(events[n]) {
      var to := events[n].to;
      if events[n].DrawsTo? && PenBefore(events, n).None? {
        GrownBounds(state.extents, points, ORIGIN);
        GrownBounds(Grown(state.extents, ORIGIN), points + iset{ORIGIN}, to);
        assert points + iset{ORIGIN} + iset{to} == points + PointsAdded(events, n);
      } else {
        GrownBounds(state.extents, points, to);
      }
    } else {
      assert points + PointsAdded(events, n) == points;
    }
  }

  lemma {:induction false} WalkBounds(states: seq<Artwork>, events: seq<Event>, n: nat)
    requires IsRun(states, events) && n <= |events|
    ensures Bounds(states[n].extents, PlottedPoints(events, n))
  {
    if n > 0 {
      WalkBounds(states, events, n - 1);
      WalkRemembers(states, events, n - 1);
      assert Steps(states, events, n - 1);
      StepBounds(states[n - 1], events, n - 1, PlottedPoints(events, n - 1));
      PlottedOneMore(events, n - 1);
    } else {
      assert PlottedPoints(events, 0) == iset{};
    }
  }

  lemma BoundsIsHull(box: Box, events: seq<Event>, n: nat)
    requires Bounds(Some(box), PlottedPoints(events, n))
    ensures IsHull(box, events, n)
  {
    forall p | IsPlotted(events, n, p) ensures Inside(box, p) {
      assert p in PlottedPoints(events, n);
    }
    forall side ensures IsTouched(box, events, n, side) {
      assert Reaches(box, PlottedPoints(events, n), side);
    }
  }

  // ------------------------------------------------------------------ how much was plotted

  /** One for each operation, and one for the origin if a draw leaves it. */
  function PlottedCount(events: seq<Event>, n: nat): nat
    requires n <= |events|
  {
    if n == 0 then 0
    else PlottedCount(events, n - 1)
         + (if !Plots(events[n - 1]) then 0
            else if events[n - 1].DrawsTo? && PenBefore(events, n - 1).None? then 2 else 1)
  }

  lemma StepPlots(state: Artwork, events: seq<Event>, n: nat)
    requires n < |events| && Remembers(state, events, n) && state.plotted == PlottedCount(events, n)
    requires state.extents.None? <==> state.plotted == 0
    ensures var after := state.Apply(events[n]);
            after.plotted == PlottedCount(events, n + 1) && (after.extents.None? <==> after.plotted == 0)
  {}

  lemma {:induction false} WalkPlots(states: seq<Artwork>, events: seq<Event>, n: nat)
    requires IsRun(states, events) && n <= |events|
    ensures states[n].plotted == PlottedCount(events, n)
    ensures states[n].extents.None? <==> states[n].plotted == 0
  {
    if n > 0 {
      WalkPlots(states, events, n - 1);
      WalkRemembers(states, events, n - 1);
      assert Steps(states, events, n - 1);
      StepPlots(states[n - 1], events, n - 1);
    }
  }

  lemma {:induction false} PenCounts(events: seq<Event>, n: nat)
    requires n <= |events|
    ensures PenBefore(events, n).Some? ==> PlottedCount(events, n) >= 1
  {
    if n > 0 {
      PenCounts(events, n - 1);
    }
  }

  /** A box is published exactly when two points were recorded, and it is their hull. */
  lemma ExtentsAreTheHull(events: seq<Event>)
    ensures var box := Replay(events).Finished().BoundingBox();
            && (box.Some? <==> PlottedCount(events, |events|) >= 2)
            && (box.Some? ==> IsHull(box.value, events, |events|))
  {
    var n := |events|;
    var states := RunOf(events);
    WalkBounds(states, events, n);
    WalkPlots(states, events, n);
    if states[n].extents.Some? {
      BoundsIsHull(states[n].extents.value, events, n);
    }
  }

  // ------------------------------------------------------------------ what is published is inside

  /** The ends of a trace and the place of a flash. */
  ghost predicate StandsOn(events: seq<Event>, n: nat, submission: Submission)
    requires n <= |events|
  {
    match submission
    case TraceOf(path, _, _) =>
      IsPlotted(events, n, path.from) && IsPlotted(events, n, path.to) && PlottedCount(events, n) >= 2
    case FlashOf(at, _, _) => IsPlotted(events, n, at)
    case Doubt(_) => true
  }

  lemma StandsLater(events: seq<Event>, n: nat, submission: Submission)
    requires n < |events| && StandsOn(events, n, submission)
    ensures StandsOn(events, n + 1, submission)
  {
    match submission {
      case TraceOf(path, _, _) =>
        PlottedStays(events, n, path.from);
        PlottedStays(events, n, path.to);
      case FlashOf(at, _, _) => PlottedStays(events, n, at);
      case Doubt(_) =>
    }
  }

  /** What an event hands to the collector. */
  function Submitted(state: Artwork, event: Event): seq<Submission> {
    match event
    case DrawsTo(to, arc, aperture) => [DrawSubmission(state.current, to, arc, state.inRegion, aperture)]
    case FlashesAt(at, aperture) => [FlashOf(at, state.inRegion, aperture)]
    case _ => []
  }

  lemma SubmittedStands(state: Artwork, events: seq<Event>, n: nat)
    requires n < |events| && Remembers(state, events, n)
    ensures forall s :: s in Submitted(state, events[n]) ==> StandsOn(events, n + 1, s)
  {
    PenCounts(events, n);
    if Plots(events[n]) {
      assert PlotsPoint(events, n, events[n].to);
      if events[n].DrawsTo? {
        assert PlotsPoint(events, n, PenOrOrigin(PenBefore(events, n)));
      }
    }
  }

  lemma ApplySubmits(state: Artwork, event: Event)
    ensures state.Apply(event).submissions == state.submissions + Submitted(state, event)
  {}

  lemma {:induction false} SubmissionsStand(states: seq<Artwork>, events: seq<Event>, n: nat)
    requires IsRun(states, events) && n <= |events|
    ensures forall s :: s in states[n].submissions ==> StandsOn(events, n, s)
  {
    if n > 0 {
      SubmissionsStand(states, events, n - 1);
      WalkRemembers(states, events, n - 1);
      assert Steps(states, events, n - 1);
      ApplySubmits(states[n - 1], events[n - 1]);
      SubmittedStands(states[n - 1], events, n - 1);
      forall s | s in states[n].submissions ensures StandsOn(events, n, s) {
        if s in states[n - 1].submissions {
          StandsLater(events, n - 1, s);
        }
      }
    }
  }

  lemma {:induction false} PrimitiveWasSubmitted(apertures: map<nat, Definition>, submissions: seq<Submission>,
                                                 primitive: Primitive)
      returns (submission: Submission)
    requires primitive in PrimitivesOf(apertures, submissions)
    ensures submission in submissions && PrimitiveOf(apertures, submission) == Some(primitive)
    decreases |submissions|
  {
    var last := submissions[|submissions| - 1];
    if PrimitiveOf(apertures, last) == Some(primitive) {
      submission := last;
    } else {
      submission := PrimitiveWasSubmitted(apertures, submissions[..|submissions| - 1], primitive);
    }
  }

  ghost predicate Holds(box: Option<Box>, primitive: Primitive) {
    match primitive
    case Trace(path, _, _, _) => box.Some? && Inside(box.value, path.from) && Inside(box.value, path.to)
    case Pad(at, _, _, _) => box.Some? ==> Inside(box.value, at)
  }

  /** Every published trace lies in the published box, which is then defined, and every published
      flash lies in the box if there is one. */
  lemma PublishedGeometryIsInside(input: Input, events: seq<Event>, primitive: Primitive)
    requires primitive in Collected(input, Replay(events).submissions).primitives
    ensures Holds(Replay(events).Finished().BoundingBox(), primitive)
  {
    var states := RunOf(events);
    var submissions := Replay(events).submissions;
    FirstObjectsAreKept(input, submissions);
    var submission := PrimitiveWasSubmitted(input.apertures, submissions, primitive);
    SubmissionsStand(states, events, |events|);
    assert StandsOn(events, |events|, submission);
    ExtentsAreTheHull(events);
  }
}
