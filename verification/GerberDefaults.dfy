/** What a Gerber file that does not state its units or its format is read in. */
module GerberDefaults {
  // The statement may be written in front of the text without changing anything else: millimetres
  // where a file has no units at all, three places and five with leading zeros omitted where it has
  // no format, absolute where it has no mode (src/multicad/gerber-parser.ts).
  import opened CoordinateFormat
  import opened GerberApertures
  import opened GerberArtwork
  import opened GerberFileState
  import opened GerberGeometry
  import opened GerberHeader
  import opened GerberParser
  import opened GerberReport
  import opened GerberScope
  import opened GerberStatements
  import opened GerberStream
  import opened GerberText
  import opened GerberTokenizer
  import opened Options

  datatype Head = UnitsHead(units: Units) | FormatHead(format: Format, mode: CoordinateMode) {
    predicate IsShort() { FormatHead? ==> format.integerDigits < 10 && format.decimalDigits < 10 }

    function Written(): string
      requires IsShort()
    {
      match this
      case UnitsHead(units) => UnitsWritten(units)
      case FormatHead(format, mode) => FormatWritten(format, mode)
    }

    function Statement(): Command
      requires IsShort()
    {
      Extended(Written())
    }

    /** The facts of a file that had stated this first. */
    function Over(facts: FileFacts): FileFacts {
      match this
      case UnitsHead(units) => facts.(declaredUnits := Some(units))
      case FormatHead(format, mode) => facts.(declaredFormat := Some(DeclaredFormat(format, mode)))
    }
  }

  // ------------------------------------------------------------------ a statement in front

  lemma FactsOver(facts: FileFacts, command: Command, readers: Readers, head: Head)
    ensures WithCommand(head.Over(facts), command, readers) == head.Over(WithCommand(facts, command, readers))
  {}

  lemma StepOver(walk: Walk, command: Command, readers: Readers, head: Head)
    requires !walk.ended
    ensures var over := walk.(facts := head.Over(walk.facts));
            Step(over, command, readers)
            == Step(walk, command, readers).(facts := head.Over(Step(walk, command, readers).facts))
  {
    var over := walk.(facts := head.Over(walk.facts));
    StepFacts(walk, command, readers);
    StepFacts(over, command, readers);
    FactsOver(walk.facts, command, readers, head);
    LedgerOver(walk, command, readers, head);
  }

  lemma LedgerOver(walk: Walk, command: Command, readers: Readers, head: Head)
    ensures var a, b := Step(walk, command, readers), Step(walk.(facts := head.Over(walk.facts)), command, readers);
            a.ledger == b.ledger && a.extended == b.extended && a.word == b.word && a.ended == b.ended
  {}

  lemma {:induction false} WalkedOver(walk: Walk, commands: seq<Command>, readers: Readers, head: Head)
    ensures var walked := Walked(walk, commands, readers);
            Walked(walk.(facts := head.Over(walk.facts)), commands, readers)
            == walked.(facts := head.Over(walked.facts))
    decreases |commands|
  {
    if !walk.ended && commands != [] {
      StepOver(walk, commands[0], readers, head);
      WalkedOver(Step(walk, commands[0], readers), commands[1..], readers, head);
    }
  }

  lemma HeadIsClean(head: Head)
    requires head.IsShort()
    ensures IsWritable(head.Statement()) && Compact(head.Written()) == head.Written()
    ensures StatedUnits(head.Statement()) == (if head.UnitsHead? then Some(head.units) else None)
    ensures StatedFormat(head.Statement())
         == if head.FormatHead? then Some(DeclaredFormat(head.format, head.mode)) else None
    ensures head.Written()[0] in "MF" && head.Written()[1] in "OS"
  {
    match head {
      case UnitsHead(units) => UnitsAreClean(units);
      case FormatHead(format, mode) =>
        FormatIsClean(format, mode);
        FormatIsStated(format, mode);
    }
  }

  lemma HeadSteps(head: Head, readers: Readers)
    requires head.IsShort()
    ensures Step(WALK_START, head.Statement(), readers) == WALK_START.(facts := head.Over(NO_FACTS))
  {
    HeadIsClean(head);
  }

  /** A text shows the same of itself with a statement in front, but for what that states. */
  lemma ShownOver(head: Head, text: string, readers: Readers)
    requires head.IsShort()
    ensures var view := Shown(text, readers);
            Shown(Headed(head.Statement(), text), readers) == view.(facts := head.Over(view.facts))
  {
    HeadIsClean(head);
    HeadIsRead(head.Statement(), text);
    HeadSteps(head, readers);
    WalkedOver(WALK_START, CommandsFrom(text, 0), readers, head);
    assert ([head.Statement()] + CommandsFrom(text, 0))[1..] == CommandsFrom(text, 0);
  }

  // ------------------------------------------------------------------ what a file is read in

  lemma FormatsAreShort(text: string, readers: Readers)
    ensures var declared := Shown(text, readers).facts.declaredFormat;
            declared.Some? ==> FormatHead(declared.value.format, declared.value.mode).IsShort()
  {
    var commands := CommandsFrom(text, 0);
    ShownFacts(text, readers);
    var i := FirstIs(commands, |commands|, StatedFormat);
  }

  lemma UnitsOver(view: View, units: Units)
    requires units == if UnitsOf(view.facts).Some? then UnitsOf(view.facts).value else Millimetres
    ensures ResultOf(view.(facts := UnitsHead(units).Over(view.facts))) == ResultOf(view).(units := Some(units))
  {
    assert ScaleOf(UnitsHead(units).Over(view.facts)) == ScaleOf(view.facts);
  }

  lemma FormatOver(view: View, format: Format, mode: CoordinateMode)
    requires format == SettingOf(view.facts).format && (mode.Incremental? <==> IsIncremental(view.facts))
    ensures ResultOf(view.(facts := FormatHead(format, mode).Over(view.facts)))
         == ResultOf(view).(format := Some(format))
  {
    assert SettingOf(FormatHead(format, mode).Over(view.facts)) == SettingOf(view.facts);
  }

  /** Units stated in front of any text, the same it is read in or millimetres if it has none,
      change nothing but that the result has them. */
  lemma UnitsMayBeStated(text: string, readers: Readers)
    ensures var result := ResultOf(Shown(text, readers));
            var units := if result.units.Some? then result.units.value else Millimetres;
            ResultOf(Shown(Headed(UnitsHead(units).Statement(), text), readers)) == result.(units := Some(units))
  {
    var view := Shown(text, readers);
    var units := if UnitsOf(view.facts).Some? then UnitsOf(view.facts).value else Millimetres;
    ShownOver(UnitsHead(units), text, readers);
    UnitsOver(view, units);
  }

  /** And so does the format, and the mode that says whether coordinates are refused. */
  lemma FormatMayBeStated(text: string, readers: Readers)
    ensures var result := ResultOf(Shown(text, readers));
            var format := if result.format.Some? then result.format.value else Format(3, 5, OmitsLeading);
            var mode := if IncrementalCoordinates in result.geometry.uncertainty then Incremental else Absolute;
            && FormatHead(format, mode).IsShort()
            && ResultOf(Shown(Headed(FormatHead(format, mode).Statement(), text), readers))
               == result.(format := Some(format))
  {
    var view := Shown(text, readers);
    var format := if DeclaredOf(view.facts).Some? then DeclaredOf(view.facts).value else Format(3, 5, OmitsLeading);
    var mode := if IsIncremental(view.facts) then Incremental else Absolute;
    FormatsAreShort(text, readers);
    StatedIsReported(view, IncrementalCoordinates);
    ShownOver(FormatHead(format, mode), text, readers);
    FormatOver(view, format, mode);
  }

  /** A file with incremental coordinates publishes no box and no geometry. */
  lemma IncrementalIsNotPlotted(text: string, readers: Readers)
    ensures var result := ResultOf(Shown(text, readers));
            IncrementalCoordinates in result.geometry.uncertainty ==>
              result.boundingBox.None? && result.geometry.primitives == []
              && !result.hasClosedContour && result.openContourCount == 0
  {
    var view := Shown(text, readers);
    StatedIsReported(view, IncrementalCoordinates);
    FirstObjectsAreKept(InputOf(view.facts, view.file), []);
  }
}
