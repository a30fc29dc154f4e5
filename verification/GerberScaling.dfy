/** The same Gerber text in inches and in millimetres (src/multicad/gerber-parser.ts). */
module GerberScaling {
  // In front of any text the two statements of units give results that differ by the factor of an
  // inch and nothing else; only the closing of contours, whose tolerance is in millimetres, may
  // be judged differently.
  import opened CoordinateFormat
  import opened GerberApertures
  import opened GerberArtwork
  import opened GerberDefaults
  import opened GerberFileState
  import opened GerberGeometry
  import opened GerberHeader
  import opened GerberParser
  import opened GerberReport
  import opened GerberScope
  import opened GerberStatements
  import opened GerberStream
  import opened GerberText
  import opened GerberTokenizer
  import opened Options
  import opened PlaneDistance
  import opened Reals

  // ------------------------------------------------------------------ what it is to be larger

  function Times(a: real, k: real): real { a * k }

  /** Each of these says that the first is `k` times as large as the second. */
  predicate PointTimes(p: Vector, q: Vector, k: real) { p.x == Times(q.x, k) && p.y == Times(q.y, k) }

  predicate PenTimes(p: Option<Vector>, q: Option<Vector>, k: real) {
    p.Some? == q.Some? && (p.Some? ==> PointTimes(p.value, q.value, k))
  }

  predicate EventTimes(e: Event, f: Event, k: real) {
    match f
    case Opens => e.Opens?
    case Closes => e.Closes?
    case MovesTo(to) => e.MovesTo? && PointTimes(e.to, to, k)
    case DrawsTo(to, arc, aperture) => e.DrawsTo? && PointTimes(e.to, to, k) && e.arc == arc && e.aperture == aperture
    case FlashesAt(to, aperture) => e.FlashesAt? && PointTimes(e.to, to, k) && e.aperture == aperture
  }

  predicate EventsTimes(es: seq<Event>, fs: seq<Event>, k: real) {
    |es| == |fs| && forall i :: 0 <= i < |es| ==> EventTimes(es[i], fs[i], k)
  }

  predicate BoxTimes(a: Option<Box>, b: Option<Box>, k: real) {
    && a.Some? == b.Some?
    && (a.Some? ==>
          && a.value.minX == Times(b.value.minX, k) && a.value.maxX == Times(b.value.maxX, k)
          && a.value.minY == Times(b.value.minY, k) && a.value.maxY == Times(b.value.maxY, k))
  }

  predicate SegmentTimes(s: Segment, t: Segment, k: real) { PointTimes(s.from, t.from, k) && PointTimes(s.to, t.to, k) }

  predicate SubmissionTimes(s: Submission, t: Submission, k: real) {
    match t
    case TraceOf(path, inRegion, aperture) =>
      s.TraceOf? && SegmentTimes(s.path, path, k) && s.inRegion == inRegion && s.aperture == aperture
    case FlashOf(at, inRegion, aperture) =>
      s.FlashOf? && PointTimes(s.at, at, k) && s.inRegion == inRegion && s.aperture == aperture
    case Doubt(_) => s == t
  }

  predicate SubmissionsTimes(ss: seq<Submission>, ts: seq<Submission>, k: real) {
    |ss| == |ts| && forall i :: 0 <= i < |ss| ==> SubmissionTimes(ss[i], ts[i], k)
  }

  predicate ShapeTimes(s: StandardShape, t: StandardShape, k: real) {
    match t
    case Circle(diameter) => s.Circle? && s.diameter == Times(diameter, k)
    case Rectangle(width, height) => s.Rectangle? && s.width == Times(width, k) && s.height == Times(height, k)
    case Obround(width, height) => s.Obround? && s.width == Times(width, k) && s.height == Times(height, k)
    case Polygon(diameter, vertices) => s.Polygon? && s.diameter == Times(diameter, k) && s.vertices == vertices
  }

  predicate DefinitionTimes(d: Definition, e: Definition, k: real) {
    if e.Standard? then d.Standard? && ShapeTimes(d.shape, e.shape, k) else d == e
  }

  predicate EntriesTimes(a: map<nat, Definition>, b: map<nat, Definition>, k: real) {
    a.Keys == b.Keys && forall code :: code in a ==> DefinitionTimes(a[code], b[code], k)
  }

  predicate PrimitiveTimes(p: Primitive, q: Primitive, k: real) {
    match q
    case Trace(path, inRegion, aperture, width) =>
      && p.Trace? && SegmentTimes(p.path, path, k) && p.inRegion == inRegion && p.aperture == aperture
      && p.width.Some? == width.Some? && (width.Some? ==> p.width.value == Times(width.value, k))
    case Pad(at, inRegion, aperture, copper) =>
      && p.Pad? && PointTimes(p.at, at, k) && p.inRegion == inRegion && p.aperture == aperture
      && p.copper.Some? == copper.Some? && (copper.Some? ==> ShapeTimes(p.copper.value, copper.value, k))
  }

  predicate CollectionTimes(c: Collection, d: Collection, k: real) {
    && c.uncertainty == d.uncertainty && |c.primitives| == |d.primitives|
    && forall i :: 0 <= i < |c.primitives| ==> PrimitiveTimes(c.primitives[i], d.primitives[i], k)
  }

  /** A result that is larger in every size, and the same in everything else but its units and its
      contours. */
  predicate ResultTimes(r: Result, q: Result, k: real) {
    && r.format == q.format && r.fileFunction == q.fileFunction && BoxTimes(r.boundingBox, q.boundingBox, k)
    && r.apertures.order == q.apertures.order && EntriesTimes(r.apertures.entries, q.apertures.entries, k)
    && r.placements == q.placements && r.undefinedInFile == q.undefinedInFile && r.problems == q.problems
    && CollectionTimes(r.geometry, q.geometry, k)
    && r.unterminatedExtended == q.unterminatedExtended && r.unterminatedWord == q.unterminatedWord
  }

  // ------------------------------------------------------------------ words

  /** A number as a size in the larger unit. */
  function Larger(number: Number, k: real): real { Times(InScale(number, 1.0), k) }

  lemma NumberTimes(number: Number, k: real)
    ensures InScale(number, k) == Larger(number, k)
  {}

  lemma ReadTimes(raw: string, format: Format, k: real)
    ensures CoordinateValue(raw, Setting(format, k)) == Larger(ReadGerberCoordinate(raw, format), k)
  {
    NumberTimes(ReadGerberCoordinate(raw, format), k);
  }

  lemma CoordinateTimes(raw: string, format: Format, k: real)
    ensures CoordinateValue(raw, Setting(format, k)) == Times(CoordinateValue(raw, Setting(format, 1.0)), k)
  {
    ReadTimes(raw, format, k);
  }

  lemma OriginTimes(p: Option<Vector>, q: Option<Vector>, k: real)
    requires PenTimes(p, q, k)
    ensures PointTimes(PenOrOrigin(p), PenOrOrigin(q), k)
  {}

  lemma TargetTimes(operation: Operation, p: Option<Vector>, q: Option<Vector>, format: Format, k: real)
    requires PenTimes(p, q, k)
    ensures PointTimes(TargetOf(operation, p, Setting(format, k)), TargetOf(operation, q, Setting(format, 1.0)), k)
  {
    OriginTimes(p, q, k);
    if operation.x.Some? {
      CoordinateTimes(operation.x.value, format, k);
    }
    if operation.y.Some? {
      CoordinateTimes(operation.y.value, format, k);
    }
  }

  predicate DecodedTimes(d: Decoded, e: Decoded, k: real) {
    && EventsTimes(d.events, e.events, k) && PenTimes(d.modal.pen, e.modal.pen, k)
    && d.modal.selected == e.modal.selected && d.modal.arc == e.modal.arc
  }

  lemma DecodeTimes(d: Decoded, e: Decoded, reading: GerberArtwork.Reading, format: Format, k: real)
    requires DecodedTimes(d, e, k)
    ensures DecodedTimes(Decode(d, reading, Setting(format, k)), Decode(e, reading, Setting(format, 1.0)), k)
  {
    if IsPlot(reading.operation) {
      TargetTimes(reading.operation.value, d.modal.pen, e.modal.pen, format, k);
    }
  }

  lemma {:induction false} WordsTimes(words: seq<string>, format: Format, k: real)
    ensures DecodedTimes(DecodedFrom(words, Setting(format, k)), DecodedFrom(words, Setting(format, 1.0)), k)
    decreases |words|
  {
    if words != [] {
      var front, last := words[..|words| - 1], words[|words| - 1];
      WordsTimes(front, format, k);
      var large, small := DecodedFrom(front, Setting(format, k)), DecodedFrom(front, Setting(format, 1.0));
      DecodeTimes(large, small, GerberArtwork.Read(last), format, k);
    }
  }

  // ------------------------------------------------------------------ the artwork

  predicate ArtworkTimes(a: Artwork, b: Artwork, k: real) {
    && PenTimes(a.current, b.current, k) && a.contourStart.Some? == b.contourStart.Some?
    && a.inRegion == b.inRegion && BoxTimes(a.extents, b.extents, k) && a.plotted == b.plotted
    && SubmissionsTimes(a.submissions, b.submissions, k)
  }

  lemma MinMaxTimes(a: real, b: real, k: real)
    requires k > 0.0
    ensures Min(Times(a, k), Times(b, k)) == Times(Min(a, b), k)
    ensures Max(Times(a, k), Times(b, k)) == Times(Max(a, b), k)
  {
    assert a < b ==> a * k < b * k;
    assert a > b ==> a * k > b * k;
  }

  lemma GrownTimes(a: Option<Box>, b: Option<Box>, p: Vector, q: Vector, k: real)
    requires BoxTimes(a, b, k) && PointTimes(p, q, k) && k > 0.0
    ensures BoxTimes(Grown(a, p), Grown(b, q), k)
  {
    if b.Some? {
      MinMaxTimes(b.value.minX, q.x, k);
      MinMaxTimes(b.value.maxX, q.x, k);
      MinMaxTimes(b.value.minY, q.y, k);
      MinMaxTimes(b.value.maxY, q.y, k);
    }
  }

  lemma PlottingTimes(a: Artwork, b: Artwork, p: Vector, q: Vector, k: real)
    requires ArtworkTimes(a, b, k) && PointTimes(p, q, k) && k > 0.0
    ensures ArtworkTimes(a.Plotting(p), b.Plotting(q), k)
  {
    GrownTimes(a.extents, b.extents, p, q, k);
  }

  lemma StartingTimes(a: Artwork, b: Artwork, k: real)
    requires ArtworkTimes(a, b, k) && k > 0.0
    ensures ArtworkTimes(a.Starting(), b.Starting(), k)
  {
    if b.contourStart.None? && b.current.None? {
      PlottingTimes(a.(contourStart := Some(ORIGIN)), b.(contourStart := Some(ORIGIN)), ORIGIN, ORIGIN, k);
    }
  }

  lemma SubmittingTimes(a: Artwork, b: Artwork, s: Submission, t: Submission, k: real)
    requires ArtworkTimes(a, b, k) && SubmissionTimes(s, t, k)
    ensures ArtworkTimes(a.Submitting(s), b.Submitting(t), k)
  {}

  lemma DrawingTimes(a: Artwork, b: Artwork, p: Vector, q: Vector, arc: bool, aperture: Option<nat>, k: real)
    requires ArtworkTimes(a, b, k) && PointTimes(p, q, k) && k > 0.0
    ensures ArtworkTimes(a.Drawing(p, arc, aperture), b.Drawing(q, arc, aperture), k)
  {
    StartingTimes(a, b, k);
    var s, t := a.Starting(), b.Starting();
    SubmittingTimes(s, t, DrawSubmission(s.current, p, arc, s.inRegion, aperture),
                    DrawSubmission(t.current, q, arc, t.inRegion, aperture), k);
  }

  lemma ApplyTimes(a: Artwork, b: Artwork, e: Event, f: Event, k: real)
    requires ArtworkTimes(a, b, k) && EventTimes(e, f, k) && k > 0.0
    ensures ArtworkTimes(a.Apply(e), b.Apply(f), k)
  {
    match f {
      case Opens =>
      case Closes =>
      case MovesTo(to) =>
        PlottingTimes(a.Finished().(contourStart := Some(e.to), current := Some(e.to)),
                      b.Finished().(contourStart := Some(to), current := Some(to)), e.to, to, k);
      case DrawsTo(to, arc, aperture) =>
        DrawingTimes(a, b, e.to, to, arc, aperture, k);
        PlottingTimes(a.Drawing(e.to, arc, aperture), b.Drawing(to, arc, aperture), e.to, to, k);
      case FlashesAt(to, aperture) =>
        SubmittingTimes(a, b, FlashOf(e.to, a.inRegion, aperture), FlashOf(to, b.inRegion, aperture), k);
        PlottingTimes(a.Submitting(FlashOf(e.to, a.inRegion, aperture)),
                      b.Submitting(FlashOf(to, b.inRegion, aperture)), e.to, to, k);
    }
  }

  lemma {:induction false} ReplayTimes(es: seq<Event>, fs: seq<Event>, k: real)
    requires EventsTimes(es, fs, k) && k > 0.0
    ensures ArtworkTimes(Replay(es), Replay(fs), k)
    decreases |es|
  {
    if es != [] {
      var n := |es| - 1;
      ReplayTimes(es[..n], fs[..n], k);
      ApplyTimes(Replay(es[..n]), Replay(fs[..n]), es[n], fs[n], k);
    }
  }

  // ------------------------------------------------------------------ the geometry

  lemma DoubtIsTheSame(a: map<nat, Definition>, b: map<nat, Definition>, s: Submission, t: Submission, k: real)
    requires EntriesTimes(a, b, k) && SubmissionTimes(s, t, k)
    ensures DoubtOf(a, s) == DoubtOf(b, t)
  {}

  lemma CopperTimes(a: map<nat, Definition>, b: map<nat, Definition>, inRegion: bool, aperture: Option<nat>, k: real)
    requires EntriesTimes(a, b, k)
    ensures var c, d := CopperOf(a, inRegion, aperture), CopperOf(b, inRegion, aperture);
            c.Some? == d.Some? && (c.Some? ==> ShapeTimes(c.value, d.value, k))
  {}

  lemma PrimitiveOfTimes(a: map<nat, Definition>, b: map<nat, Definition>, s: Submission, t: Submission, k: real)
    requires EntriesTimes(a, b, k) && SubmissionTimes(s, t, k)
    ensures PrimitiveOf(a, s).Some? == PrimitiveOf(b, t).Some?
    ensures PrimitiveOf(a, s).Some? ==> PrimitiveTimes(PrimitiveOf(a, s).value, PrimitiveOf(b, t).value, k)
  {
    if !t.Doubt? {
      CopperTimes(a, b, t.inRegion, t.aperture, k);
    }
  }

  lemma CollectTimes(a: map<nat, Definition>, b: map<nat, Definition>, c: Collection, d: Collection, s: Submission,
                     t: Submission, k: real)
    requires EntriesTimes(a, b, k) && SubmissionTimes(s, t, k) && CollectionTimes(c, d, k)
    ensures CollectionTimes(Collect(a, c, s), Collect(b, d, t), k)
  {
    DoubtIsTheSame(a, b, s, t, k);
    PrimitiveOfTimes(a, b, s, t, k);
  }

  /** What the file says before it plots is the same. */
  predicate InputTimes(i: Input, j: Input, k: real) {
    && EntriesTimes(i.apertures, j.apertures, k)
    && i.incremental == j.incremental && i.clearPolarity == j.clearPolarity && i.transforms == j.transforms
  }

  lemma {:induction false} CollectedTimes(i: Input, j: Input, ss: seq<Submission>, ts: seq<Submission>, k: real)
    requires InputTimes(i, j, k) && SubmissionsTimes(ss, ts, k)
    ensures CollectionTimes(Collected(i, ss), Collected(j, ts), k)
    decreases |ss|
  {
    if ss == [] {
      DoubtingAllKeeps(Collection([], []), FileReasons(i));
      assert Started(i) == Started(j);
    } else {
      var n := |ss| - 1;
      CollectedTimes(i, j, ss[..n], ts[..n], k);
      CollectTimes(i.apertures, j.apertures, Collected(i, ss[..n]), Collected(j, ts[..n]), ss[n], ts[n], k);
    }
  }

  lemma TableTimes(table: Table, k: real)
    ensures TableInMillimetres(table, k).order == TableInMillimetres(table, 1.0).order
    ensures EntriesTimes(TableInMillimetres(table, k).entries, TableInMillimetres(table, 1.0).entries, k)
    ensures TableInMillimetres(table, 1.0) == table
  {
    var one := TableInMillimetres(table, 1.0).entries;
    forall code | code in table.entries
      ensures one[code] == table.entries[code] && DefinitionTimes(InMillimetres(table.entries[code], k), one[code], k)
    {
      AsDefined(table.entries[code], k);
    }
    assert one == table.entries;
  }

  lemma AsDefined(definition: Definition, k: real)
    ensures InMillimetres(definition, 1.0) == definition
    ensures DefinitionTimes(InMillimetres(definition, k), definition, k)
  {}

  // ------------------------------------------------------------------ the file in other units

  function InUnits(facts: FileFacts, units: Units): FileFacts { facts.(declaredUnits := Some(units)) }

  lemma ViewInUnits(text: string, readers: Readers)
    ensures var large := Shown(Headed(Command.Extended(UnitsWritten(Inches)), text), readers);
            var small := Shown(Headed(Command.Extended(UnitsWritten(Millimetres)), text), readers);
            large == small.(facts := InUnits(small.facts, Inches)) && small.facts == InUnits(small.facts, Millimetres)
  {
    ShownOver(UnitsHead(Inches), text, readers);
    ShownOver(UnitsHead(Millimetres), text, readers);
  }

  // ------------------------------------------------------------------ the result in other units

  lemma DrawnTimes(facts: FileFacts)
    ensures ArtworkTimes(Drawn(InUnits(facts, Inches)), Drawn(InUnits(facts, Millimetres)), INCH_TO_MM)
  {
    var large, small := InUnits(facts, Inches), InUnits(facts, Millimetres);
    if !IsIncremental(facts) {
      var format := SettingOf(small).format;
      assert SettingOf(large) == Setting(format, INCH_TO_MM) && SettingOf(small) == Setting(format, 1.0);
      WordsTimes(facts.wordCommands, format, INCH_TO_MM);
      var es := DecodedFrom(facts.wordCommands, SettingOf(large)).events;
      var fs := DecodedFrom(facts.wordCommands, SettingOf(small)).events;
      ReplayTimes(es, fs, INCH_TO_MM);
      FinishedTimes(Replay(es), Replay(fs), INCH_TO_MM);
    }
  }

  lemma FinishedTimes(a: Artwork, b: Artwork, k: real)
    requires ArtworkTimes(a, b, k)
    ensures ArtworkTimes(a.Finished(), b.Finished(), k)
  {}

  lemma InputInUnits(facts: FileFacts, file: Table)
    ensures InputTimes(InputOf(InUnits(facts, Inches), file), InputOf(InUnits(facts, Millimetres), file), INCH_TO_MM)
  {
    TableTimes(file, INCH_TO_MM);
  }

  lemma ResultsTimes(view: View)
    ensures var large := view.(facts := InUnits(view.facts, Inches));
            var small := view.(facts := InUnits(view.facts, Millimetres));
            && ResultTimes(ResultOf(large), ResultOf(small), INCH_TO_MM)
            && ResultOf(large).units == Some(Inches) && ResultOf(small).units == Some(Millimetres)
            && ResultOf(small).apertures == view.file
  {
    var facts := view.facts;
    DrawnTimes(facts);
    InputInUnits(facts, view.file);
    TableTimes(view.file, INCH_TO_MM);
    var large, small := InUnits(facts, Inches), InUnits(facts, Millimetres);
    CollectedTimes(InputOf(large, view.file), InputOf(small, view.file), Drawn(large).submissions,
                   Drawn(small).submissions, INCH_TO_MM);
  }

  /** Any text headed as inches gives what it gives headed as millimetres, 25.4 times as large; and
      headed as millimetres its apertures have the sizes it writes. */
  lemma InchesAreLarger(text: string, readers: Readers)
    ensures var large := Shown(Headed(Command.Extended(UnitsWritten(Inches)), text), readers);
            var small := Shown(Headed(Command.Extended(UnitsWritten(Millimetres)), text), readers);
            && ResultTimes(ResultOf(large), ResultOf(small), 25.4)
            && ResultOf(large).units == Some(Inches) && ResultOf(small).units == Some(Millimetres)
            && ResultOf(small).apertures == small.file
  {
    var small := Shown(Headed(Command.Extended(UnitsWritten(Millimetres)), text), readers);
    ViewInUnits(text, readers);
    ResultsTimes(small);
    assert small.(facts := InUnits(small.facts, Millimetres)) == small;
  }
}
