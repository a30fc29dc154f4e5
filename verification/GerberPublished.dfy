/** What the geometry of a Gerber file publishes (src/multicad/gerber-geometry.ts). */
module GerberPublished {
  // Each object is told by its event, by the pen and the region before it, and by what the file
  // defined for its aperture; each reason for doubt by the events that give it.
  import opened GerberApertures
  import opened GerberArtwork
  import opened GerberContours
  import opened GerberExtents
  import opened GerberFileState
  import opened GerberGeometry
  import opened Options
  import opened PlaneDistance

  /** Every flash is an object, and every draw that is not an arc. */
  predicate IsObject(event: Event) { event.FlashesAt? || (event.DrawsTo? && !event.arc) }

  /** How many objects the first events plot. */
  function ObjectsBefore(events: seq<Event>, n: nat): nat
    requires n <= |events|
  {
    if n == 0 then 0 else ObjectsBefore(events, n - 1) + (if IsObject(events[n - 1]) then 1 else 0)
  }

  /** The shape a file defined for a code, if it is a standard one. */
  function ShapeOf(apertures: map<nat, Definition>, code: Option<nat>): Option<StandardShape> {
    if code.Some? && code.value in apertures && apertures[code.value].Standard?
    then Some(apertures[code.value].shape) else None
  }

  /** A trace from where the pen was, or a flash, inside a region or not; outside one a trace is as
      wide as its circle, and a flash has the shape of its aperture. */
  predicate IsPublished(primitive: Primitive, apertures: map<nat, Definition>, events: seq<Event>, k: nat)
    requires k < |events|
  {
    var region, pen := RegionBefore(events, k), PenBefore(events, k);
    match events[k]
    case DrawsTo(to, arc, aperture) =>
      var shape := ShapeOf(apertures, aperture);
      && !arc && primitive.Trace?
      && primitive.path == Segment(if pen.Some? then pen.value else Vector(0.0, 0.0), to)
      && primitive.inRegion == region && primitive.aperture == aperture
      && (primitive.width.Some? <==> !region && shape.Some? && shape.value.Circle?)
      && (primitive.width.Some? ==> primitive.width.value == shape.value.diameter)
    case FlashesAt(at, aperture) =>
      && primitive.Pad? && primitive.at == at && primitive.inRegion == region && primitive.aperture == aperture
      && primitive.copper == (if region then None else ShapeOf(apertures, aperture))
    case _ => false
  }

  // ------------------------------------------------------------------ the objects

  /** The primitives of all objects before an event, in order. */
  ghost predicate ArePublished(primitives: seq<Primitive>, apertures: map<nat, Definition>, events: seq<Event>, n: nat)
    requires n <= |events|
  {
    && |primitives| == ObjectsBefore(events, n)
    && forall k: nat :: k < n && IsObject(events[k]) ==> IsPublishedAt(primitives, apertures, events, k)
  }

  ghost predicate IsPublishedAt(primitives: seq<Primitive>, apertures: map<nat, Definition>, events: seq<Event>, k: nat)
    requires k < |events|
  {
    ObjectsBefore(events, k) < |primitives| && IsPublished(primitives[ObjectsBefore(events, k)], apertures, events, k)
  }

  lemma {:induction false} PrimitivesOfConcat(apertures: map<nat, Definition>, before: seq<Submission>,
                                              added: seq<Submission>)
    requires |added| <= 1
    ensures PrimitivesOf(apertures, before + added)
         == PrimitivesOf(apertures, before)
            + if added != [] && PrimitiveOf(apertures, added[0]).Some? then [PrimitiveOf(apertures, added[0]).value]
              else []
  {
    if added == [] {
      assert before + added == before;
    } else {
      assert (before + added)[..|before|] == before && (before + added)[|before|] == added[0];
    }
  }

  lemma SubmittedIsPublished(state: Artwork, apertures: map<nat, Definition>, events: seq<Event>, k: nat)
    requires k < |events| && Remembers(state, events, k)
    ensures var added := Submitted(state, events[k]);
            && |added| <= 1
            && (IsObject(events[k]) <==> added != [] && PrimitiveOf(apertures, added[0]).Some?)
            && (IsObject(events[k]) ==> IsPublished(PrimitiveOf(apertures, added[0]).value, apertures, events, k))
  {}

  lemma {:induction false} WalkPublishes(states: seq<Artwork>, apertures: map<nat, Definition>, events: seq<Event>,
                                         n: nat)
    requires IsRun(states, events) && n <= |events|
    ensures ArePublished(PrimitivesOf(apertures, states[n].submissions), apertures, events, n)
  {
    if n > 0 {
      var before := states[n - 1];
      WalkPublishes(states, apertures, events, n - 1);
      WalkRemembers(states, events, n - 1);
      assert Steps(states, events, n - 1);
      ApplySubmits(before, events[n - 1]);
      SubmittedIsPublished(before, apertures, events, n - 1);
      PrimitivesOfConcat(apertures, before.submissions, Submitted(before, events[n - 1]));
      var primitives := PrimitivesOf(apertures, before.submissions);
      forall k: nat | k < n - 1 && IsObject(events[k])
        ensures IsPublishedAt(PrimitivesOf(apertures, states[n].submissions), apertures, events, k)
      {
        assert IsPublishedAt(primitives, apertures, events, k);
      }
    }
  }

  lemma {:induction false} ObjectsAreFewer(events: seq<Event>, k: nat, n: nat)
    requires k < n <= |events| && IsObject(events[k])
    ensures ObjectsBefore(events, k) < ObjectsBefore(events, n)
  {
    if k < n - 1 {
      ObjectsAreFewer(events, k, n - 1);
    }
  }

  /** The geometry of a file is its objects in order, each as its event, the pen, the region and the
      aperture's definition say, up to the budget. */
  lemma GeometryIsTheObjects(input: Input, events: seq<Event>)
    ensures var primitives := Collected(input, Replay(events).submissions).primitives;
            var count := ObjectsBefore(events, |events|);
            && |primitives| == (if count < 25_000 then count else 25_000)
            && forall k: nat :: k < |events| && IsObject(events[k]) && ObjectsBefore(events, k) < 25_000 ==>
                 IsPublishedAt(primitives, input.apertures, events, k)
  {
    var states := RunOf(events);
    var submissions := Replay(events).submissions;
    WalkPublishes(states, input.apertures, events, |events|);
    FirstObjectsAreKept(input, submissions);
    var whole := PrimitivesOf(input.apertures, submissions);
    forall k: nat | k < |events| && IsObject(events[k]) && ObjectsBefore(events, k) < MAX_PRIMITIVES
      ensures IsPublishedAt(FirstOf(whole, MAX_PRIMITIVES), input.apertures, events, k)
    {
      assert IsPublishedAt(whole, input.apertures, events, k);
    }
  }

  // ------------------------------------------------------------------ the reasons for doubt

  /** What a file states before it plots anything. */
  predicate IsStated(input: Input, reason: Reason) {
    match reason
    case IncrementalCoordinates => input.incremental
    case ClearPolarity => input.clearPolarity
    case StepAndRepeated => StepAndRepeat in input.transforms
    case ObjectTransform => exists t :: t in input.transforms && t != StepAndRepeat
    case _ => false
  }

  function ApertureOf(event: Event): Option<nat> {
    match event
    case DrawsTo(_, _, aperture) => aperture
    case FlashesAt(_, aperture) => aperture
    case _ => None
  }

  predicate IsDefined(apertures: map<nat, Definition>, code: Option<nat>) { code.Some? && code.value in apertures }

  /** An event that gives a reason: an arc, or outside a region an object whose aperture the file
      never defined, or defined as something that is not modelled. */
  predicate GivesDoubt(apertures: map<nat, Definition>, events: seq<Event>, k: nat, reason: Reason)
    requires k < |events|
  {
    var event := events[k];
    var outside := IsObject(event) && !RegionBefore(events, k);
    match reason
    case UnsupportedInterpolation => event.DrawsTo? && event.arc
    case UndefinedAperture => outside && !IsDefined(apertures, ApertureOf(event))
    case UnsupportedAperture =>
      outside && IsDefined(apertures, ApertureOf(event)) && ShapeOf(apertures, ApertureOf(event)).None?
    case _ => false
  }

  predicate SomeGivesDoubt(apertures: map<nat, Definition>, events: seq<Event>, n: nat, reason: Reason)
    requires n <= |events|
  {
    exists k: nat :: k < n && GivesDoubt(apertures, events, k, reason)
  }

  lemma SubmittedGivesDoubt(state: Artwork, apertures: map<nat, Definition>, events: seq<Event>, k: nat, reason: Reason)
    requires k < |events| && Remembers(state, events, k)
    ensures var added := Submitted(state, events[k]);
            && |added| <= 1
            && (GivesDoubt(apertures, events, k, reason)
                <==> added != [] && DoubtOf(apertures, added[0]) == Some(reason))
  {}

  lemma ReasonGivenConcat(apertures: map<nat, Definition>, before: seq<Submission>, added: seq<Submission>,
                          reason: Reason)
    requires |added| <= 1
    ensures ReasonGiven(apertures, before + added, reason)
        <==> ReasonGiven(apertures, before, reason) || (added != [] && DoubtOf(apertures, added[0]) == Some(reason))
  {
    if added == [] {
      assert before + added == before;
    } else {
      ReasonGivenOneMore(apertures, before + added, reason);
      assert (before + added)[..|before|] == before;
    }
  }

  lemma {:induction false} WalkGivesDoubts(states: seq<Artwork>, apertures: map<nat, Definition>, events: seq<Event>,
                                           n: nat, reason: Reason)
    requires IsRun(states, events) && n <= |events|
    ensures ReasonGiven(apertures, states[n].submissions, reason) <==> SomeGivesDoubt(apertures, events, n, reason)
  {
    if n > 0 {
      var before := states[n - 1];
      WalkGivesDoubts(states, apertures, events, n - 1, reason);
      WalkRemembers(states, events, n - 1);
      assert Steps(states, events, n - 1);
      ApplySubmits(before, events[n - 1]);
      SubmittedGivesDoubt(before, apertures, events, n - 1, reason);
      ReasonGivenConcat(apertures, before.submissions, Submitted(before, events[n - 1]), reason);
      DoubtOneMore(apertures, events, n - 1, reason);
    }
  }

  lemma DoubtOneMore(apertures: map<nat, Definition>, events: seq<Event>, n: nat, reason: Reason)
    requires n < |events|
    ensures SomeGivesDoubt(apertures, events, n + 1, reason)
        <==> SomeGivesDoubt(apertures, events, n, reason) || GivesDoubt(apertures, events, n, reason)
  {}

  lemma StatedReasons(input: Input, reason: Reason)
    ensures reason in FileReasons(input) <==> IsStated(input, reason)
  {
    var reasons := TransformReasons(input.transforms);
    forall t | t in input.transforms ensures TransformReason(t) in reasons {
      var i :| 0 <= i < |input.transforms| && input.transforms[i] == t;
      assert reasons[i] == TransformReason(t);
    }
    if reason in reasons {
      var i :| 0 <= i < |reasons| && reasons[i] == reason;
      assert reason == TransformReason(input.transforms[i]) && input.transforms[i] in input.transforms;
    }
    assert reason in FileReasons(input)
      <==> || (input.incremental && reason == IncrementalCoordinates)
           || (input.clearPolarity && reason == ClearPolarity) || reason in reasons;
  }

  /** A reason is reported if and only if the file states it, an event gives it, or it is the limit
      and the file plots more objects than the budget. */
  lemma ReasonsAreTheEvents(input: Input, events: seq<Event>, reason: Reason)
    ensures reason in Collected(input, Replay(events).submissions).uncertainty
        <==> || IsStated(input, reason) || SomeGivesDoubt(input.apertures, events, |events|, reason)
             || (reason == PrimitiveLimit && ObjectsBefore(events, |events|) > 25_000)
  {
    var states := RunOf(events);
    var submissions := Replay(events).submissions;
    ReasonsAreExact(input, submissions, reason);
    StatedReasons(input, reason);
    WalkGivesDoubts(states, input.apertures, events, |events|, reason);
    WalkPublishes(states, input.apertures, events, |events|);
  }
}
