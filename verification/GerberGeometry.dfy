/** The geometry collector (src/multicad/gerber-geometry.ts) and its budget. */
module GerberGeometry {
  // The first objects a file plots are kept, with the reasons why they are not everything it draws.
  // A reason is a fact about the file, so it is recorded for the objects the budget dropped as much
  // as for those it kept.
  import opened Options
  import opened Collections
  import opened PlaneDistance
  import opened GerberApertures
  import opened GerberFileState

  const MAX_PRIMITIVES: nat := 25_000

  datatype Reason = PrimitiveLimit | IncrementalCoordinates | UnsupportedAperture | UndefinedAperture
                  | UnsupportedInterpolation | ObjectTransform | StepAndRepeated | ClearPolarity

  datatype Primitive =
    | Trace(path: Segment, inRegion: bool, aperture: Option<nat>, width: Option<real>)
    | Pad(at: Vector, inRegion: bool, aperture: Option<nat>, copper: Option<StandardShape>)

  /** What the walk hands to the collector. */
  datatype Submission =
    | TraceOf(path: Segment, inRegion: bool, aperture: Option<nat>)
    | FlashOf(at: Vector, inRegion: bool, aperture: Option<nat>)
    | Doubt(reason: Reason)

  /** What the file says before its first command is read. */
  datatype Input = Input(apertures: map<nat, Definition>, incremental: bool, clearPolarity: bool,
                         transforms: seq<Transform>)

  datatype Resolved = Modelled(shape: StandardShape) | NotModelled | NotDefined

  function Resolve(apertures: map<nat, Definition>, code: Option<nat>): Resolved {
    match code
    case None => NotDefined
    case Some(c) =>
      if c !in apertures then NotDefined
      else if apertures[c].Standard? then Modelled(apertures[c].shape)
      else NotModelled
  }

  /** Only a circle is as wide in every direction. */
  function SweptWidth(shape: StandardShape): Option<real> {
    if shape.Circle? then Some(shape.diameter) else None
  }

  function ResolvedShape(resolved: Resolved): Option<StandardShape> {
    if resolved.Modelled? then Some(resolved.shape) else None
  }

  function TransformReason(transform: Transform): Reason {
    if transform.StepAndRepeat? then StepAndRepeated else ObjectTransform
  }

  // ------------------------------------------------------------------ what is collected

  datatype Collection = Collection(primitives: seq<Primitive>, uncertainty: seq<Reason>) {
    function Doubting(reason: Reason): Collection {
      if reason in uncertainty then this else this.(uncertainty := uncertainty + [reason])
    }

    function Keeping(primitive: Primitive): Collection {
      if |primitives| < MAX_PRIMITIVES then this.(primitives := primitives + [primitive]) else Doubting(PrimitiveLimit)
    }

    function DoubtingAll(reasons: seq<Reason>): Collection
      decreases |reasons|
    {
      if reasons == [] then this else Doubting(reasons[0]).DoubtingAll(reasons[1..])
    }
  }

  function TransformReasons(transforms: seq<Transform>): (reasons: seq<Reason>)
    ensures |reasons| == |transforms|
  {
    seq(|transforms|, i requires 0 <= i < |transforms| => TransformReason(transforms[i]))
  }

  /** The reasons a file gives for doubt before it plots anything. */
  function FileReasons(input: Input): seq<Reason> {
    (if input.incremental then [IncrementalCoordinates] else [])
    + (if input.clearPolarity then [ClearPolarity] else [])
    + TransformReasons(input.transforms)
  }

  /** The doubt an object's aperture casts, which a region does not have. */
  function ApertureDoubt(apertures: map<nat, Definition>, inRegion: bool, aperture: Option<nat>): Option<Reason> {
    if inRegion then None
    else
      match Resolve(apertures, aperture)
      case Modelled(_) => None
      case NotModelled => Some(UnsupportedAperture)
      case NotDefined => Some(UndefinedAperture)
  }

  function DoubtOf(apertures: map<nat, Definition>, submission: Submission): Option<Reason> {
    match submission
    case Doubt(reason) => Some(reason)
    case TraceOf(_, inRegion, aperture) => ApertureDoubt(apertures, inRegion, aperture)
    case FlashOf(_, inRegion, aperture) => ApertureDoubt(apertures, inRegion, aperture)
  }

  function CopperOf(apertures: map<nat, Definition>, inRegion: bool, aperture: Option<nat>): Option<StandardShape> {
    if inRegion then None else ResolvedShape(Resolve(apertures, aperture))
  }

  function PrimitiveOf(apertures: map<nat, Definition>, submission: Submission): Option<Primitive> {
    match submission
    case Doubt(_) => None
    case TraceOf(path, inRegion, aperture) =>
      var copper := CopperOf(apertures, inRegion, aperture);
      Some(Trace(path, inRegion, aperture, if copper.Some? then SweptWidth(copper.value) else None))
    case FlashOf(at, inRegion, aperture) => Some(Pad(at, inRegion, aperture, CopperOf(apertures, inRegion, aperture)))
  }

  function Collect(apertures: map<nat, Definition>, collection: Collection, submission: Submission): Collection {
    var doubt := DoubtOf(apertures, submission);
    var doubting := if doubt.Some? then collection.Doubting(doubt.value) else collection;
    var primitive := PrimitiveOf(apertures, submission);
    if primitive.Some? then doubting.Keeping(primitive.value) else doubting
  }

  function Started(input: Input): Collection { Collection([], []).DoubtingAll(FileReasons(input)) }

  function Collected(input: Input, submissions: seq<Submission>): Collection {
    if submissions == [] then Started(input)
    else
      var last := |submissions| - 1;
      Collect(input.apertures, Collected(input, submissions[..last]), submissions[last])
  }

  ghost predicate CollectsAt(apertures: map<nat, Definition>, history: seq<Collection>, submissions: seq<Submission>,
                             i: nat)
    requires |history| == |submissions| + 1 && i < |submissions|
  {
    history[i + 1] == Collect(apertures, history[i], submissions[i])
  }

  /** What was collected before each submission, and at the end. */
  ghost predicate IsHistory(start: Collection, apertures: map<nat, Definition>, history: seq<Collection>,
                            submissions: seq<Submission>)
  {
    && |history| == |submissions| + 1 && history[0] == start
    && forall i: nat :: i < |submissions| ==> CollectsAt(apertures, history, submissions, i)
  }

  lemma {:induction false} HistoryIsCollected(input: Input, history: seq<Collection>,
                                              submissions: seq<Submission>, n: nat)
    requires IsHistory(Started(input), input.apertures, history, submissions) && n <= |submissions|
    ensures history[n] == Collected(input, submissions[..n])
  {
    if n > 0 {
      HistoryIsCollected(input, history, submissions, n - 1);
      assert CollectsAt(input.apertures, history, submissions, n - 1);
      assert submissions[..n][..n - 1] == submissions[..n - 1];
    }
  }

  /** A history ends with what any input it started from collects. */
  lemma HistoryEndsCollected(start: Collection, apertures: map<nat, Definition>, history: seq<Collection>,
                             submissions: seq<Submission>)
    requires IsHistory(start, apertures, history, submissions)
    ensures forall input: Input :: start == Started(input) && apertures == input.apertures ==>
              history[|submissions|] == Collected(input, submissions)
  {
    assert submissions[..|submissions|] == submissions;
    forall input: Input | start == Started(input) && apertures == input.apertures
      ensures history[|submissions|] == Collected(input, submissions)
    {
      HistoryIsCollected(input, history, submissions, |submissions|);
    }
  }

  lemma LongerHistory(start: Collection, apertures: map<nat, Definition>, history: seq<Collection>,
                      submissions: seq<Submission>, submission: Submission, after: Collection)
    requires IsHistory(start, apertures, history, submissions)
    requires after == Collect(apertures, history[|submissions|], submission)
    ensures IsHistory(start, apertures, history + [after], submissions + [submission])
  {
    forall i: nat | i < |submissions| + 1
      ensures CollectsAt(apertures, history + [after], submissions + [submission], i)
    {
      assert i < |submissions| ==> CollectsAt(apertures, history, submissions, i);
    }
  }

  // ------------------------------------------------------------------ the program

  class GeometryCollector {
    const apertures: map<nat, Definition>
    var primitives: seq<Primitive>
    var uncertainty: seq<Reason>

    constructor (input: Input)
      ensures apertures == input.apertures && State() == Started(input)
    {
      apertures := input.apertures;
      primitives := [];
      var reasons: seq<Reason> := [];
      if input.incremental {
        reasons := [IncrementalCoordinates];
      }
      if input.clearPolarity {
        reasons := reasons + [ClearPolarity];
      }
      StartReasons(input, reasons);
      for i := 0 to |input.transforms|
        invariant Started(input) == Collection([], reasons).DoubtingAll(TransformReasons(input.transforms)[i..])
      {
        var reason := TransformReason(input.transforms[i]);
        LaterReasons(TransformReasons(input.transforms), i);
        if reason !in reasons {
          reasons := reasons + [reason];
        }
      }
      uncertainty := reasons;
    }

    function State(): Collection
      reads this
    {
      Collection(primitives, uncertainty)
    }

    method Uncertain(reason: Reason)
      modifies this`uncertainty
      ensures State() == old(State()).Doubting(reason)
    {
      if reason !in uncertainty {
        uncertainty := uncertainty + [reason];
      }
    }

    method RecordApertureUncertainty(resolved: Resolved)
      modifies this`uncertainty
      ensures State() == match resolved
                         case Modelled(_) => old(State())
                         case NotModelled => old(State()).Doubting(UnsupportedAperture)
                         case NotDefined => old(State()).Doubting(UndefinedAperture)
    {
      if resolved.NotModelled? {
        Uncertain(UnsupportedAperture);
      }
      if resolved.NotDefined? {
        Uncertain(UndefinedAperture);
      }
    }

    /** Whether one more primitive fits; the budget's end is recorded. */
    method Reserve() returns (fits: bool)
      modifies this`uncertainty
      ensures fits == (|primitives| < MAX_PRIMITIVES)
      ensures State() == if fits then old(State()) else old(State()).Doubting(PrimitiveLimit)
    {
      if |primitives| < MAX_PRIMITIVES {
        return true;
      }
      Uncertain(PrimitiveLimit);
      return false;
    }

    method AddSegment(path: Segment, inRegion: bool, aperture: Option<nat>)
      modifies this
      ensures State() == Collect(apertures, old(State()), TraceOf(path, inRegion, aperture))
    {
      var width: Option<real> := None;
      if !inRegion {
        var resolved := Resolve(apertures, aperture);
        RecordApertureUncertainty(resolved);
        if resolved.Modelled? {
          width := SweptWidth(resolved.shape);
        }
      }
      var fits := Reserve();
      if fits {
        primitives := primitives + [Trace(path, inRegion, aperture, width)];
      }
    }

    method AddFlash(at: Vector, inRegion: bool, aperture: Option<nat>)
      modifies this
      ensures State() == Collect(apertures, old(State()), FlashOf(at, inRegion, aperture))
    {
      var copper: Option<StandardShape> := None;
      if !inRegion {
        var resolved := Resolve(apertures, aperture);
        RecordApertureUncertainty(resolved);
        copper := ResolvedShape(resolved);
      }
      var fits := Reserve();
      if fits {
        primitives := primitives + [Pad(at, inRegion, aperture, copper)];
      }
    }
  }

  lemma {:induction false} DoubtingMore(collection: Collection, first: seq<Reason>, rest: seq<Reason>)
    ensures collection.DoubtingAll(first + rest) == collection.DoubtingAll(first).DoubtingAll(rest)
    decreases |first|
  {
    if first == [] {
      assert first + rest == rest;
    } else {
      assert (first + rest)[1..] == first[1..] + rest;
      DoubtingMore(collection.Doubting(first[0]), first[1..], rest);
    }
  }

  lemma LaterReasons(reasons: seq<Reason>, i: nat)
    requires i < |reasons|
    ensures reasons[i..] != [] && reasons[i..][0] == reasons[i] && reasons[i..][1..] == reasons[i + 1..]
  {}

  lemma StartReasons(input: Input, reasons: seq<Reason>)
    requires reasons == (if input.incremental then [IncrementalCoordinates] else [])
                        + (if input.clearPolarity then [ClearPolarity] else [])
    ensures Started(input) == Collection([], reasons).DoubtingAll(TransformReasons(input.transforms))
  {
    var empty := Collection([], []);
    DoubtingMore(empty, reasons, TransformReasons(input.transforms));
    assert empty.DoubtingAll(reasons) == Collection([], reasons) by {
      TwoReasons(input.incremental, input.clearPolarity);
    }
  }

  lemma TwoReasons(incremental: bool, clear: bool)
    ensures var reasons := (if incremental then [IncrementalCoordinates] else [])
                            + (if clear then [ClearPolarity] else []);
            Collection([], []).DoubtingAll(reasons) == Collection([], reasons)
  {
    var empty := Collection([], []);
    assert empty.DoubtingAll([]) == empty;
    if incremental && clear {
      var reasons := [IncrementalCoordinates, ClearPolarity];
      assert [IncrementalCoordinates] + [ClearPolarity] == reasons;
      assert reasons[1..] == [ClearPolarity];
      assert empty.DoubtingAll(reasons) == Collection([], [IncrementalCoordinates]).DoubtingAll([ClearPolarity]);
    }
  }

  // ------------------------------------------------------------------ the budget and the reasons

  /** The primitives of every object submitted, in order. */
  function PrimitivesOf(apertures: map<nat, Definition>, submissions: seq<Submission>): seq<Primitive> {
    if submissions == [] then []
    else
      var last := |submissions| - 1;
      var primitive := PrimitiveOf(apertures, submissions[last]);
      PrimitivesOf(apertures, submissions[..last]) + (if primitive.Some? then [primitive.value] else [])
  }

  function FirstOf<T>(s: seq<T>, limit: nat): seq<T> { if |s| <= limit then s else s[..limit] }

  lemma {:induction false} DoubtingAllKeeps(collection: Collection, reasons: seq<Reason>)
    ensures collection.DoubtingAll(reasons).primitives == collection.primitives
    ensures forall r :: r in collection.DoubtingAll(reasons).uncertainty <==>
              r in collection.uncertainty || r in reasons
    decreases |reasons|
  {
    if reasons != [] {
      DoubtingAllKeeps(collection.Doubting(reasons[0]), reasons[1..]);
      assert forall r :: r in reasons <==> r == reasons[0] || r in reasons[1..];
    }
  }

  /** The budget keeps the objects plotted first. */
  lemma {:induction false} FirstObjectsAreKept(input: Input, submissions: seq<Submission>)
    ensures Collected(input, submissions).primitives
         == FirstOf(PrimitivesOf(input.apertures, submissions), MAX_PRIMITIVES)
    decreases |submissions|
  {
    if submissions == [] {
      DoubtingAllKeeps(Collection([], []), FileReasons(input));
    } else {
      FirstObjectsAreKept(input, submissions[..|submissions| - 1]);
    }
  }

  predicate GivesReason(apertures: map<nat, Definition>, submissions: seq<Submission>, i: nat, reason: Reason) {
    i < |submissions| && DoubtOf(apertures, submissions[i]) == Some(reason)
  }

  predicate ReasonGiven(apertures: map<nat, Definition>, submissions: seq<Submission>, reason: Reason) {
    exists i :: 0 <= i < |submissions| && GivesReason(apertures, submissions, i, reason)
  }

  lemma ReasonGivenOneMore(apertures: map<nat, Definition>, submissions: seq<Submission>, reason: Reason)
    requires submissions != []
    ensures var last := |submissions| - 1;
            ReasonGiven(apertures, submissions, reason)
            <==> ReasonGiven(apertures, submissions[..last], reason)
                 || GivesReason(apertures, submissions, last, reason)
  {
    var last := |submissions| - 1;
    var front := submissions[..last];
    if ReasonGiven(apertures, front, reason) {
      var i :| 0 <= i < last && GivesReason(apertures, front, i, reason);
      assert GivesReason(apertures, submissions, i, reason);
    }
    if ReasonGiven(apertures, submissions, reason) {
      var i :| 0 <= i < |submissions| && GivesReason(apertures, submissions, i, reason);
      assert i < last ==> GivesReason(apertures, front, i, reason);
    }
  }

  lemma CollectAddsReasons(apertures: map<nat, Definition>, collection: Collection, submission: Submission,
                           reason: Reason)
    ensures reason in Collect(apertures, collection, submission).uncertainty
        <==> reason in collection.uncertainty || DoubtOf(apertures, submission) == Some(reason)
             || (reason == PrimitiveLimit && PrimitiveOf(apertures, submission).Some?
                 && |collection.primitives| >= MAX_PRIMITIVES)
  {}

  /** The reasons are exactly the file's, those of the objects submitted (kept or dropped), and
      the limit when more objects were submitted than it allows. */
  lemma {:induction false} ReasonsAreExact(input: Input, submissions: seq<Submission>, reason: Reason)
    ensures reason in Collected(input, submissions).uncertainty
        <==> reason in FileReasons(input) || ReasonGiven(input.apertures, submissions, reason)
             || (reason == PrimitiveLimit && |PrimitivesOf(input.apertures, submissions)| > MAX_PRIMITIVES)
    decreases |submissions|
  {
    if submissions == [] {
      DoubtingAllKeeps(Collection([], []), FileReasons(input));
    } else {
      var last := |submissions| - 1;
      ReasonsAreExact(input, submissions[..last], reason);
      FirstObjectsAreKept(input, submissions[..last]);
      ReasonGivenOneMore(input.apertures, submissions, reason);
      CollectAddsReasons(input.apertures, Collected(input, submissions[..last]), submissions[last], reason);
    }
  }

  lemma {:induction false} DoubtingAllOnce(collection: Collection, reasons: seq<Reason>)
    requires NoDuplicates(collection.uncertainty)
    ensures NoDuplicates(collection.DoubtingAll(reasons).uncertainty)
    decreases |reasons|
  {
    if reasons != [] {
      DoubtingAllOnce(collection.Doubting(reasons[0]), reasons[1..]);
    }
  }

  /** Each reason is given once, so there are never more than there are kinds. */
  lemma {:induction false} ReasonsAreGivenOnce(input: Input, submissions: seq<Submission>)
    ensures NoDuplicates(Collected(input, submissions).uncertainty)
    decreases |submissions|
  {
    if submissions == [] {
      DoubtingAllOnce(Collection([], []), FileReasons(input));
    } else {
      ReasonsAreGivenOnce(input, submissions[..|submissions| - 1]);
    }
  }

  predicate IsFileReason(reason: Reason) {
    reason in {IncrementalCoordinates, ClearPolarity, ObjectTransform, StepAndRepeated}
  }

  /** A file that doubts no object itself is reported truncated exactly when it is. */
  lemma LimitIsReportedExactly(input: Input, submissions: seq<Submission>)
    requires forall s :: s in submissions && s.Doubt? ==> s.reason != PrimitiveLimit
    ensures PrimitiveLimit in Collected(input, submissions).uncertainty
        <==> |PrimitivesOf(input.apertures, submissions)| > MAX_PRIMITIVES
  {
    ReasonsAreExact(input, submissions, PrimitiveLimit);
    assert forall r :: r in FileReasons(input) ==> IsFileReason(r);
    assert !ReasonGiven(input.apertures, submissions, PrimitiveLimit);
  }
}
