/** Contour accounting (src/multicad/gerber-parser.ts): what the artwork walk counts. */
module GerberContours {
  // Stated by looking at the events alone: a contour is the run of draws between two breaks.
  import opened Options
  import opened PlaneDistance
  import opened GerberArtwork

  // ------------------------------------------------------------------ contours of a list of events

  predicate RegionBefore(events: seq<Event>, n: nat)
    requires n <= |events|
  {
    n > 0 && (events[n - 1].Opens? || (!events[n - 1].Closes? && RegionBefore(events, n - 1)))
  }

  /** Where the last move or draw left the pen. */
  function PenBefore(events: seq<Event>, n: nat): Option<Vector>
    requires n <= |events|
  {
    if n == 0 then None
    else if MovesPen(events[n - 1]) then Some(events[n - 1].to)
    else PenBefore(events, n - 1)
  }

  /** What ends a contour: a move, a region opening, or the region it is drawn in closing. */
  predicate Breaks(events: seq<Event>, i: nat)
    requires i < |events|
  {
    events[i].MovesTo? || events[i].Opens? || (events[i].Closes? && RegionBefore(events, i))
  }

  /** The first draw since the last break. */
  function FirstDraw(events: seq<Event>, n: nat): (first: Option<nat>)
    requires n <= |events|
    ensures first.Some? ==> first.value < n && events[first.value].DrawsTo?
  {
    if n == 0 || Breaks(events, n - 1) then None
    else if FirstDraw(events, n - 1).Some? then FirstDraw(events, n - 1)
    else if events[n - 1].DrawsTo? then Some(n - 1)
    else None
  }

  /** A contour of the events ends before event `n`, or where they end. */
  predicate EndsContour(events: seq<Event>, n: nat)
    requires n <= |events|
  {
    (n == |events| || Breaks(events, n)) && FirstDraw(events, n).Some?
  }

  /** A pen within two micrometres of where it was, in each direction; it starts at the origin. */
  predicate ReturnsTo(pen: Option<Vector>, start: Option<Vector>) {
    var p := if pen.Some? then pen.value else Vector(0.0, 0.0);
    var q := if start.Some? then start.value else Vector(0.0, 0.0);
    -0.002 <= p.x - q.x <= 0.002 && -0.002 <= p.y - q.y <= 0.002
  }

  /** Whether it counts as closed: by the region, or because it returns to its start. */
  predicate EndsClosed(events: seq<Event>, n: nat)
    requires n <= |events|
  {
    && FirstDraw(events, n).Some?
    && (RegionBefore(events, n)
        || ReturnsTo(PenBefore(events, n), PenBefore(events, FirstDraw(events, n).value)))
  }

  /** The breaks among the first `n` events that end an open contour. */
  function OpenEnds(events: seq<Event>, n: nat): set<nat>
    requires n <= |events|
  {
    set m: nat | m < n && EndsOpenAt(events, m)
  }

  predicate EndsOpenAt(events: seq<Event>, m: nat)
    requires m < |events|
  {
    Breaks(events, m) && FirstDraw(events, m).Some? && !EndsClosed(events, m)
  }

  predicate EndsClosedAt(events: seq<Event>, m: nat)
    requires m < |events|
  {
    Breaks(events, m) && EndsClosed(events, m)
  }

  predicate SomeEndsClosed(events: seq<Event>, n: nat)
    requires n <= |events|
  {
    exists m: nat :: m < n && EndsClosedAt(events, m)
  }

  // ------------------------------------------------------------------ the states of a walk

  ghost predicate Steps(states: seq<Artwork>, events: seq<Event>, i: nat)
    requires |states| == |events| + 1 && i < |events|
  {
    states[i + 1] == states[i].Apply(events[i])
  }

  /** The artwork before each event, and at the end. */
  ghost predicate IsRun(states: seq<Artwork>, events: seq<Event>) {
    && |states| == |events| + 1 && states[0] == BLANK
    && forall i :: 0 <= i < |events| ==> Steps(states, events, i)
  }

  lemma {:induction false} RunOf(events: seq<Event>) returns (states: seq<Artwork>)
    ensures IsRun(states, events) && states[|events|] == Replay(events)
    decreases |events|
  {
    if events == [] {
      states := [BLANK];
    } else {
      var front := events[..|events| - 1];
      var before := RunOf(front);
      states := before + [Replay(events)];
      forall i | 0 <= i < |events| ensures Steps(states, events, i) {
        assert i < |front| ==> Steps(before, front, i);
      }
    }
  }

  // ------------------------------------------------------------------ what the walk remembers

  /** The pen, the region and the open contour are what the events before say. */
  predicate Remembers(state: Artwork, events: seq<Event>, n: nat)
    requires n <= |events|
  {
    && state.inRegion == RegionBefore(events, n)
    && state.current == PenBefore(events, n)
    && RemembersStart(state, FirstDraw(events, n), events)
  }

  predicate RemembersStart(state: Artwork, first: Option<nat>, events: seq<Event>)
    requires first.Some? ==> first.value < |events|
  {
    match first
    case None => state.contourSegments == 0 && (state.contourStart.None? || state.contourStart == state.current)
    case Some(f) =>
      && state.contourSegments > 0 && state.current.Some?
      && state.contourStart == Some(PenOrOrigin(PenBefore(events, f)))
  }

  lemma RemembersOneMore(state: Artwork, events: seq<Event>, n: nat)
    requires n < |events| && Remembers(state, events, n)
    ensures Remembers(state.Apply(events[n]), events, n + 1)
  {}

  lemma {:induction false} WalkRemembers(states: seq<Artwork>, events: seq<Event>, n: nat)
    requires IsRun(states, events) && n <= |events|
    ensures Remembers(states[n], events, n)
  {
    if n > 0 {
      WalkRemembers(states, events, n - 1);
      assert Steps(states, events, n - 1);
      RemembersOneMore(states[n - 1], events, n - 1);
    }
  }

  // ------------------------------------------------------------------ what the walk counts

  lemma FinishCounts(state: Artwork, events: seq<Event>, n: nat)
    requires n <= |events| && Remembers(state, events, n)
    ensures state.Finished().hasClosedContour == (state.hasClosedContour || EndsClosed(events, n))
    ensures state.Finished().openContourCount
         == state.openContourCount + (if FirstDraw(events, n).Some? && !EndsClosed(events, n) then 1 else 0)
  {}

  lemma StepCounts(state: Artwork, events: seq<Event>, n: nat)
    requires n < |events| && Remembers(state, events, n)
    ensures var after := state.Apply(events[n]);
            && after.hasClosedContour == (state.hasClosedContour || EndsClosedAt(events, n))
            && after.openContourCount == state.openContourCount + (if EndsOpenAt(events, n) then 1 else 0)
  {
    FinishCounts(state, events, n);
  }

  lemma OpenEndsOneMore(events: seq<Event>, n: nat)
    requires n < |events|
    ensures |OpenEnds(events, n + 1)| == |OpenEnds(events, n)| + (if EndsOpenAt(events, n) then 1 else 0)
  {
    assert OpenEnds(events, n + 1) == OpenEnds(events, n) + (if EndsOpenAt(events, n) then {n} else {});
  }

  lemma {:induction false} WalkCounts(states: seq<Artwork>, events: seq<Event>, n: nat)
    requires IsRun(states, events) && n <= |events|
    ensures states[n].openContourCount == |OpenEnds(events, n)|
    ensures states[n].hasClosedContour <==> SomeEndsClosed(events, n)
  {
    if n > 0 {
      WalkCounts(states, events, n - 1);
      WalkRemembers(states, events, n - 1);
      assert Steps(states, events, n - 1);
      StepCounts(states[n - 1], events, n - 1);
      OpenEndsOneMore(events, n - 1);
    }
  }

  /** The ends of the events' open contours, the last one included. */
  function OpenContours(events: seq<Event>): set<nat> {
    set m: nat | m <= |events| && EndsContour(events, m) && !EndsClosed(events, m)
  }

  predicate SomeContourClosed(events: seq<Event>) {
    exists m: nat :: m <= |events| && EndsContour(events, m) && EndsClosed(events, m)
  }

  lemma LastContour(events: seq<Event>)
    ensures |OpenContours(events)|
         == |OpenEnds(events, |events|)|
            + (if FirstDraw(events, |events|).Some? && !EndsClosed(events, |events|) then 1 else 0)
  {
    var n := |events|;
    forall m: nat | m < n ensures EndsOpenAt(events, m) <==> EndsContour(events, m) && !EndsClosed(events, m) {}
    assert OpenContours(events)
        == OpenEnds(events, n) + (if FirstDraw(events, n).Some? && !EndsClosed(events, n) then {n} else {});
  }

  lemma LastClosed(events: seq<Event>)
    ensures SomeContourClosed(events) <==> SomeEndsClosed(events, |events|) || EndsClosed(events, |events|)
  {
    var n := |events|;
    forall m: nat | m < n ensures EndsClosedAt(events, m) <==> EndsContour(events, m) && EndsClosed(events, m) {}
    assert EndsClosed(events, n) ==> EndsContour(events, n);
    if SomeEndsClosed(events, n) {
      var m: nat :| m < n && EndsClosedAt(events, m);
      assert EndsContour(events, m);
    }
  }

  /** The published figures count the contours of the events: each one once, closed when it ends
      in a region or returns to its start, and open otherwise. */
  lemma ContourAccounting(events: seq<Event>)
    ensures Replay(events).Finished().openContourCount == |OpenContours(events)|
    ensures Replay(events).Finished().hasClosedContour <==> SomeContourClosed(events)
  {
    var n := |events|;
    var states := RunOf(events);
    WalkRemembers(states, events, n);
    WalkCounts(states, events, n);
    FinishCounts(states[n], events, n);
    LastContour(events);
    LastClosed(events);
  }

  // ------------------------------------------------------------------ nothing is judged twice

  lemma {:induction false} SameHistory(events: seq<Event>, later: seq<Event>, n: nat)
    requires n <= |events|
    ensures RegionBefore(events + later, n) == RegionBefore(events, n)
    ensures PenBefore(events + later, n) == PenBefore(events, n)
    ensures FirstDraw(events + later, n) == FirstDraw(events, n)
  {
    if n > 0 {
      SameHistory(events, later, n - 1);
      assert (events + later)[n - 1] == events[n - 1];
    }
  }

  /** A contour some event ended keeps its judgement whatever follows, a region opening or
      closing included. */
  lemma FinishedContoursStayJudged(events: seq<Event>, later: seq<Event>, m: nat)
    requires m < |events|
    ensures EndsContour(events + later, m) == EndsContour(events, m)
    ensures EndsClosed(events + later, m) == EndsClosed(events, m)
  {
    SameHistory(events, later, m);
    assert (events + later)[m] == events[m];
    if FirstDraw(events, m).Some? {
      SameHistory(events, later, FirstDraw(events, m).value);
    }
  }
}
