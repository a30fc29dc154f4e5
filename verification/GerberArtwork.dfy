/** The artwork walk (src/multicad/gerber-parser.ts): the second pass over a Gerber file's own
    words, which reads its extents, judges its contours and feeds the geometry collector. Each word
    is decoded into events (a region opening or closing, a move, a draw, a flash), and the events
    are what the artwork is made of. A draw starts a contour where the pen is, or at the origin the
    file never left; a flash plots without moving the pen; and the contour in progress is judged
    where it ends. */
module GerberArtwork {
  import opened Options
  import opened CoordinateFormat
  import opened GerberText
  import opened PlaneDistance
  import opened Reals
  import opened GerberGeometry

  const ORIGIN := Vector(0.0, 0.0)

  /** Two coordinates within this distance are the same point, in millimetres. */
  const CLOSURE_TOLERANCE: real := 0.002

  predicate SamePlace(a: Vector, b: Vector) {
    Abs(a.x - b.x) <= CLOSURE_TOLERANCE && Abs(a.y - b.y) <= CLOSURE_TOLERANCE
  }

  /** How the file's coordinate words become millimetres. */
  datatype Setting = Setting(format: Format, scale: real)

  // ------------------------------------------------------------------ commands to events

  datatype Event =
    | Opens
    | Closes
    | MovesTo(to: Vector)
    | DrawsTo(to: Vector, arc: bool, aperture: Option<nat>)
    | FlashesAt(to: Vector, aperture: Option<nat>)

  predicate MovesPen(event: Event) { event.MovesTo? || event.DrawsTo? }

  predicate Plots(event: Event) { MovesPen(event) || event.FlashesAt? }

  /** The state that outlives a command: the current point, the aperture and the interpolation. */
  datatype Modal = Modal(pen: Option<Vector>, selected: Option<nat>, arc: bool)

  function InScale(number: Number, scale: real): real { if number.Number? then number.value * scale else 0.0 }

  function CoordinateValue(raw: string, setting: Setting): real {
    InScale(ReadGerberCoordinate(raw, setting.format), setting.scale)
  }

  function PenOrOrigin(pen: Option<Vector>): Vector { if pen.Some? then pen.value else ORIGIN }

  function TargetOf(operation: Operation, pen: Option<Vector>, setting: Setting): Vector {
    Vector(if operation.x.Some? then CoordinateValue(operation.x.value, setting) else PenOrOrigin(pen).x,
           if operation.y.Some? then CoordinateValue(operation.y.value, setting) else PenOrOrigin(pen).y)
  }

  /** What a command says: a selection, a G-code, an operation, or several of them. */
  datatype Reading = Reading(selection: Option<nat>, gCode: Option<nat>, operation: Option<Operation>)

  function Read(command: string): Reading {
    Reading(ApertureSelection(command), LeadingGCode(command), PlottedOperation(command))
  }

  function WithModes(modal: Modal, reading: Reading): Modal {
    var g := reading.gCode;
    modal.(selected := if reading.selection.Some? then reading.selection else modal.selected,
           arc := if g == Some(1) then false else if g == Some(2) || g == Some(3) then true else modal.arc)
  }

  function RegionEvents(gCode: Option<nat>): seq<Event> {
    if gCode == Some(36) then [Opens] else if gCode == Some(37) then [Closes] else []
  }

  function PlotEvent(modal: Modal, code: OperationCode, to: Vector): Event {
    match code
    case Move => MovesTo(to)
    case Draw => DrawsTo(to, modal.arc, modal.selected)
    case Flash => FlashesAt(to, modal.selected)
  }

  predicate IsPlot(operation: Option<Operation>) {
    operation.Some? && (operation.value.x.Some? || operation.value.y.Some?)
  }

  datatype Decoded = Decoded(events: seq<Event>, modal: Modal)

  function Decode(decoded: Decoded, reading: Reading, setting: Setting): Decoded {
    var modal := WithModes(decoded.modal, reading);
    var events := decoded.events + RegionEvents(reading.gCode);
    if !IsPlot(reading.operation) then Decoded(events, modal)
    else
      var operation := reading.operation.value;
      var event := PlotEvent(modal, operation.code, TargetOf(operation, modal.pen, setting));
      Decoded(events + [event], if MovesPen(event) then modal.(pen := Some(event.to)) else modal)
  }

  const NOTHING_DECODED := Decoded([], Modal(None, None, false))

  /** What some commands do, in order. */
  function DecodedFrom(commands: seq<string>, setting: Setting): Decoded {
    if commands == [] then NOTHING_DECODED
    else
      var last := |commands| - 1;
      Decode(DecodedFrom(commands[..last], setting), Read(commands[last]), setting)
  }

  // ------------------------------------------------------------------ events to artwork

  datatype Box = Box(minX: real, maxX: real, minY: real, maxY: real)

  function Grown(box: Option<Box>, p: Vector): Option<Box> {
    match box
    case None => Some(Box(p.x, p.x, p.y, p.y))
    case Some(b) => Some(Box(Min(b.minX, p.x), Max(b.maxX, p.x), Min(b.minY, p.y), Max(b.maxY, p.y)))
  }

  /** An arc is not published: its chord is not the path. */
  function DrawSubmission(pen: Option<Vector>, to: Vector, arc: bool,
                          inRegion: bool, aperture: Option<nat>): Submission {
    if arc then Doubt(UnsupportedInterpolation) else TraceOf(Segment(PenOrOrigin(pen), to), inRegion, aperture)
  }

  datatype Artwork = Artwork(
    current: Option<Vector>,
    contourStart: Option<Vector>,
    contourSegments: nat,
    inRegion: bool,
    extents: Option<Box>,
    plotted: nat,
    hasClosedContour: bool,
    openContourCount: nat,
    submissions: seq<Submission>)
  {
    function Plotting(p: Vector): Artwork { this.(extents := Grown(extents, p), plotted := plotted + 1) }

    function Finished(): Artwork {
      var counts := contourStart.Some? && current.Some? && contourSegments > 0;
      var closed := counts && (inRegion || SamePlace(contourStart.value, current.value));
      this.(contourStart := None, contourSegments := 0, hasClosedContour := hasClosedContour || closed,
            openContourCount := if counts && !closed then openContourCount + 1 else openContourCount)
    }

    function Submitting(submission: Submission): Artwork { this.(submissions := submissions + [submission]) }

    /** A draw begins a contour where the pen is, or at the origin the file never left. */
    function Starting(): Artwork {
      if contourStart.Some? then this
      else if current.Some? then this.(contourStart := current)
      else this.(contourStart := Some(ORIGIN)).Plotting(ORIGIN)
    }

    function Drawing(to: Vector, arc: bool, aperture: Option<nat>): Artwork {
      var started := Starting();
      started.Submitting(DrawSubmission(started.current, to, arc, started.inRegion, aperture)).Stroked(to)
    }

    function Stroked(to: Vector): Artwork { this.(contourSegments := contourSegments + 1, current := Some(to)) }

    function Apply(event: Event): Artwork {
      match event
      case Opens => Finished().(inRegion := true)
      case Closes => (if inRegion then Finished() else this).(inRegion := false)
      case MovesTo(to) => Finished().(contourStart := Some(to), current := Some(to)).Plotting(to)
      case DrawsTo(to, arc, aperture) => Drawing(to, arc, aperture).Plotting(to)
      case FlashesAt(at, aperture) => Submitting(FlashOf(at, inRegion, aperture)).Plotting(at)
    }

    function BoundingBox(): Option<Box> { if plotted >= 2 then extents else None }
  }

  const BLANK := Artwork(None, None, 0, false, None, 0, false, 0, [])

  function Replay(events: seq<Event>): Artwork {
    if events == [] then BLANK else Replay(events[..|events| - 1]).Apply(events[|events| - 1])
  }

  // ------------------------------------------------------------------ the program

  class ArtworkWalk {
    const setting: Setting
    const collector: GeometryCollector
    ghost const start: Collection

    var current: Option<Vector>
    var contourStart: Option<Vector>
    var contourSegments: nat
    var selectedAperture: Option<nat>
    var arc: bool
    var inRegion: bool
    var extents: Option<Box>
    var plotted: nat
    var hasClosedContour: bool
    var openContourCount: nat
    ghost var submissions: seq<Submission>
    ghost var history: seq<Collection>
    ghost var events: seq<Event>

    constructor (setting: Setting, collector: GeometryCollector)
      ensures this.setting == setting && this.collector == collector && start == collector.State()
      ensures Valid() && Progress() == NOTHING_DECODED
    {
      this.setting, this.collector, start := setting, collector, collector.State();
      current, contourStart, contourSegments, selectedAperture := None, None, 0, None;
      arc, inRegion, extents, plotted, hasClosedContour, openContourCount := false, false, None, 0, false, 0;
      submissions, history, events := [], [collector.State()], [];
    }

    ghost function State(): Artwork
      reads this
    {
      Artwork(current, contourStart, contourSegments, inRegion, extents, plotted, hasClosedContour, openContourCount,
              submissions)
    }

    ghost function Progress(): Decoded
      reads this
    {
      Decoded(events, Modal(current, selectedAperture, arc))
    }

    /** The collector has been handed the submissions. */
    ghost predicate Fed()
      reads this`submissions, this`history, collector
    {
      && IsHistory(start, collector.apertures, history, submissions)
      && collector.State() == history[|submissions|]
    }

    /** The walk has done what its events say. */
    ghost predicate Valid()
      reads this, collector
    {
      Fed() && State() == Replay(events)
    }

    method RecordPlottedPoint(p: Vector)
      modifies this`extents, this`plotted
      ensures State() == old(State()).Plotting(p)
    {
      extents := Grown(extents, p);
      plotted := plotted + 1;
    }

    method FinishContour()
      modifies this`contourStart, this`contourSegments, this`hasClosedContour, this`openContourCount
      ensures State() == old(State()).Finished()
    {
      if contourStart.Some? && current.Some? && contourSegments > 0 {
        if inRegion || SamePlace(contourStart.value, current.value) {
          hasClosedContour := true;
        } else {
          openContourCount := openContourCount + 1;
        }
      }
      contourStart := None;
      contourSegments := 0;
    }

    method ChangeRegion(gCode: Option<nat>)
      modifies this`contourStart, this`contourSegments, this`hasClosedContour, this`openContourCount, this`inRegion,
               this`events
      ensures State() == if gCode == Some(36) then old(State()).Apply(Opens)
                         else if gCode == Some(37) then old(State()).Apply(Closes)
                         else old(State())
      ensures events == old(events) + RegionEvents(gCode)
    {
      if gCode == Some(36) {
        FinishContour();
        inRegion := true;
        events := events + [Opens];
      } else if gCode == Some(37) {
        if inRegion {
          FinishContour();
        }
        inRegion := false;
        events := events + [Closes];
      }
    }

    /** Hands the collector one object or doubt. */
    method Submit(submission: Submission)
      requires Fed()
      modifies this`submissions, this`history, collector
      ensures Fed() && State() == old(State()).Submitting(submission)
    {
      match submission {
        case Doubt(reason) => collector.Uncertain(reason);
        case TraceOf(path, region, aperture) => collector.AddSegment(path, region, aperture);
        case FlashOf(at, region, aperture) => collector.AddFlash(at, region, aperture);
      }
      LongerHistory(start, collector.apertures, history, submissions, submission, collector.State());
      submissions, history := submissions + [submission], history + [collector.State()];
    }

    method MoveTo(point: Vector)
      modifies this`contourStart, this`contourSegments, this`hasClosedContour, this`openContourCount, this`current,
               this`extents, this`plotted
      ensures State() == old(State()).Apply(MovesTo(point))
    {
      FinishContour();
      contourStart := Some(point);
      current := Some(point);
      RecordPlottedPoint(point);
    }

    /** A contour starts where the pen is; where it never was, at the origin. */
    method StartContour()
      modifies this`contourStart, this`extents, this`plotted
      ensures State() == old(State()).Starting()
    {
      if contourStart.None? {
        if current.None? {
          contourStart := Some(ORIGIN);
          RecordPlottedPoint(ORIGIN);
        } else {
          contourStart := current;
        }
      }
    }

    method Advance(point: Vector)
      modifies this`contourSegments, this`current
      ensures State() == old(State()).Stroked(point)
    {
      contourSegments := contourSegments + 1;
      current := Some(point);
    }

    method Stroke(point: Vector)
      requires Fed()
      modifies this`contourStart, this`contourSegments, this`current, this`extents, this`plotted, this`submissions,
               this`history, collector
      ensures Fed() && State() == old(State()).Drawing(point, arc, selectedAperture)
    {
      StartContour();
      Submit(DrawSubmission(current, point, arc, inRegion, selectedAperture));
      Advance(point);
    }

    method DrawTo(point: Vector)
      requires Fed()
      modifies this`contourStart, this`contourSegments, this`current, this`extents, this`plotted, this`submissions,
               this`history, collector
      ensures Fed() && State() == old(State()).Apply(DrawsTo(point, arc, selectedAperture))
    {
      Stroke(point);
      RecordPlottedPoint(point);
    }

    method FlashAt(point: Vector)
      requires Fed()
      modifies this`extents, this`plotted, this`submissions, this`history, collector
      ensures Fed() && State() == old(State()).Apply(FlashesAt(point, selectedAperture))
    {
      Submit(FlashOf(point, inRegion, selectedAperture));
      RecordPlottedPoint(point);
    }

    /** One operation with a coordinate. */
    method Plot(code: OperationCode, point: Vector)
      requires Fed()
      modifies this`contourStart, this`contourSegments, this`hasClosedContour, this`openContourCount, this`current,
               this`extents, this`plotted, this`submissions, this`history, collector
      ensures Fed()
      ensures State() == old(State()).Apply(PlotEvent(Modal(old(current), selectedAperture, arc), code, point))
    {
      if code == Move {
        MoveTo(point);
      } else if code == Draw {
        DrawTo(point);
      } else {
        FlashAt(point);
      }
    }

    /** The modes and the region a command states, before anything it plots. */
    method ApplyModes(reading: Reading)
      requires Valid()
      modifies this`selectedAperture, this`arc, this`contourStart, this`contourSegments, this`hasClosedContour,
               this`openContourCount, this`inRegion, this`events
      ensures Valid()
      ensures Progress() == Decoded(old(events) + RegionEvents(reading.gCode),
                                 WithModes(old(Progress()).modal, reading))
    {
      if reading.selection.Some? {
        selectedAperture := reading.selection;
      }
      ChangeRegion(reading.gCode);
      ReplayOneMore(old(events), events);
      if reading.gCode == Some(1) {
        arc := false;
      } else if reading.gCode == Some(2) || reading.gCode == Some(3) {
        arc := true;
      }
    }

    /** An operation that lands on a point, after the modes of its command. */
    method ApplyOperation(code: OperationCode, point: Vector)
      requires Valid()
      modifies this`contourStart, this`contourSegments, this`hasClosedContour, this`openContourCount, this`current,
               this`extents, this`plotted, this`submissions, this`history, this`events,
               collector
      ensures Valid()
      ensures var event := PlotEvent(old(Progress()).modal, code, point);
              events == old(events) + [event] && current == if MovesPen(event) then Some(event.to) else old(current)
    {
      ghost var event := PlotEvent(Modal(current, selectedAperture, arc), code, point);
      Plot(code, point);
      ApplyMovesPen(old(State()), event);
      ReplayOneMore(events, events + [event]);
      events := events + [event];
    }

    /** One word command of the file. */
    method ApplyReading(reading: Reading)
      requires Valid()
      modifies this, collector
      ensures Valid() && Progress() == Decode(old(Progress()), reading, setting)
    {
      ApplyModes(reading);
      if reading.operation.None? {
        return;
      }
      if reading.operation.value.x.None? && reading.operation.value.y.None? {
        return;
      }
      var operation := reading.operation.value;
      ApplyOperation(operation.code, TargetOf(operation, current, setting));
    }

    /** The walk over a file's words; what is drawn last is finished at the end. */
    method Walk(wordCommands: seq<string>)
      requires Valid() && Progress() == NOTHING_DECODED
      modifies this, collector
      ensures Fed() && events == DecodedFrom(wordCommands, setting).events
      ensures State() == Replay(events).Finished()
      ensures forall input: Input :: start == Started(input) && collector.apertures == input.apertures ==>
                collector.State() == Collected(input, submissions)
    {
      for i := 0 to |wordCommands|
        invariant Valid() && Progress() == DecodedFrom(wordCommands[..i], setting)
      {
        assert wordCommands[..i + 1][..i] == wordCommands[..i];
        ApplyReading(Read(wordCommands[i]));
      }
      assert wordCommands[..|wordCommands|] == wordCommands;
      FinishContour();
      HistoryEndsCollected(start, collector.apertures, history, submissions);
    }

    function BoundingBox(): Option<Box>
      reads this
    {
      if plotted >= 2 then extents else None
    }
  }

  predicate IsANumber(word: Option<string>, setting: Setting) {
    word.Some? ==> ReadGerberCoordinate(word.value, setting.format).Number?
  }

  lemma AxisIsANumber(command: string, i: nat, letter: char, setting: Setting)
    requires i <= |command|
    ensures IsANumber(AxisText(command, i, AxisEnd(command, i, letter)), setting)
  {
    if i < AxisEnd(command, i, letter) {
      var sign, digits := AxisTextIsANumber(command, i, letter);
      ReadersGiveTheMeaning(sign, digits, setting.format);
    }
  }

  /** No operation's coordinate is ever not a number. */
  lemma CoordinatesAreNumbers(command: string, setting: Setting)
    ensures var operation := PlottedOperation(command);
            operation.Some? ==> IsANumber(operation.value.x, setting) && IsANumber(operation.value.y, setting)
  {
    var g := AfterGCode(command);
    AxisIsANumber(command, g, 'X', setting);
    AxisIsANumber(command, AxisEnd(command, g, 'X'), 'Y', setting);
  }

  lemma ApplyMovesPen(artwork: Artwork, event: Event)
    ensures artwork.Apply(event).current == if MovesPen(event) then Some(event.to) else artwork.current
  {}

  lemma ReplayOneMore(before: seq<Event>, after: seq<Event>)
    ensures after == before ==> Replay(after) == Replay(before)
    ensures |after| == |before| + 1 && after[..|before|] == before
            ==> Replay(after) == Replay(before).Apply(after[|before|])
  {}
}
