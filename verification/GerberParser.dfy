/** Reading a whole Gerber file (src/multicad/gerber-parser.ts): the tokenizer, the file state
    and the artwork walk in one, and what block bodies can do to the result. */
module GerberParser {
  import opened Options
  import opened CoordinateFormat
  import opened GerberTokenizer
  import opened GerberApertures
  import opened GerberFileState
  import opened GerberScope
  import opened GerberGeometry
  import opened GerberArtwork

  const INCH_TO_MM: real := 25.4

  const ASSUMED_FORMAT := Format(3, 5, OmitsLeading)

  function ShapeInMillimetres(shape: StandardShape, scale: real): StandardShape {
    match shape
    case Circle(diameter) => Circle(diameter * scale)
    case Rectangle(width, height) => Rectangle(width * scale, height * scale)
    case Obround(width, height) => Obround(width * scale, height * scale)
    case Polygon(diameter, vertices) => Polygon(diameter * scale, vertices)
  }

  function InMillimetres(definition: Definition, scale: real): Definition {
    if definition.Standard? then Standard(ShapeInMillimetres(definition.shape, scale)) else definition
  }

  /** The file's apertures, in the order it declared them. */
  function TableInMillimetres(table: Table, scale: real): Table {
    Table(table.order, map code | code in table.entries :: InMillimetres(table.entries[code], scale))
  }

  datatype Result = Result(
    units: Option<Units>,
    format: Option<Format>,
    fileFunction: Option<string>,
    boundingBox: Option<Box>,
    hasClosedContour: bool,
    openContourCount: nat,
    apertures: Table,
    placements: Placements,
    undefinedInFile: seq<nat>,
    problems: seq<Problem>,
    geometry: Collection,
    unterminatedExtended: Evidence,
    unterminatedWord: Evidence)

  function DeclaredOf(facts: FileFacts): Option<Format> {
    if facts.declaredFormat.Some? then Some(facts.declaredFormat.value.format) else None
  }

  function UnitsOf(facts: FileFacts): Option<Units> { OrElse(facts.declaredUnits, facts.legacyUnits) }

  function ScaleOf(facts: FileFacts): real { if UnitsOf(facts) == Some(Inches) then INCH_TO_MM else 1.0 }

  predicate IsIncremental(facts: FileFacts) {
    if facts.declaredFormat.Some? then facts.declaredFormat.value.mode.Incremental?
    else facts.legacyMode == Some(Incremental)
  }

  function SettingOf(facts: FileFacts): Setting {
    Setting(if DeclaredOf(facts).Some? then DeclaredOf(facts).value else ASSUMED_FORMAT, ScaleOf(facts))
  }

  function InputOf(facts: FileFacts, table: Table): Input {
    Input(TableInMillimetres(table, ScaleOf(facts)).entries, IsIncremental(facts), facts.plottedUnderClearPolarity,
          facts.transforms)
  }

  /** Incremental coordinates are refused: nothing is plotted. */
  function Drawn(facts: FileFacts): Artwork {
    if IsIncremental(facts) then BLANK
    else Replay(DecodedFrom(facts.wordCommands, SettingOf(facts)).events).Finished()
  }

  function ResultOf(view: View): Result {
    var facts := view.facts;
    var drawn := Drawn(facts);
    Result(UnitsOf(facts), DeclaredOf(facts), facts.fileFunction, drawn.BoundingBox(), drawn.hasClosedContour,
           drawn.openContourCount, TableInMillimetres(view.file, ScaleOf(facts)), view.placements,
           view.undefinedInFile, view.problems, Collected(InputOf(facts, view.file), drawn.submissions),
           view.extended, view.word)
  }

  /** What a text shows of itself, through the commands it is read as. */
  function Shown(content: string, readers: Readers): View {
    ViewOf(Walked(WALK_START, CommandsFrom(content, 0), readers))
  }

  // ------------------------------------------------------------------ the program

  method DrawArtwork(facts: FileFacts, file: Table) returns (walk: ArtworkWalk)
    ensures fresh(walk) && fresh(walk.collector)
    ensures var drawn := Drawn(facts);
            && walk.BoundingBox() == drawn.BoundingBox()
            && walk.hasClosedContour == drawn.hasClosedContour && walk.openContourCount == drawn.openContourCount
            && walk.collector.State() == Collected(InputOf(facts, file), drawn.submissions)
  {
    var collector := new GeometryCollector(InputOf(facts, file));
    walk := new ArtworkWalk(SettingOf(facts), collector);
    if !IsIncremental(facts) {
      walk.Walk(facts.wordCommands);
    }
  }

  method ParseGerber(content: string, readers: Readers) returns (result: Result)
    ensures result == ResultOf(Shown(content, readers))
  {
    var commands := TokenizeGerber(content);
    var extended := new UnterminatedEvidence();
    var word := new UnterminatedEvidence();
    var state, apertures := ReadFileState(commands, extended, word, readers);
    var facts, file := state.Facts(), apertures.file;
    var walk := DrawArtwork(facts, file);
    result := Result(UnitsOf(facts), DeclaredOf(facts), facts.fileFunction, walk.BoundingBox(),
                     walk.hasClosedContour, walk.openContourCount, TableInMillimetres(file, ScaleOf(facts)),
                     apertures.placements, apertures.undefinedInFile, FileProblems(apertures.problems),
                     walk.collector.State(), extended.State(), word.State());
  }

  // ------------------------------------------------------------------ scope, end to end

  /** Two texts that differ only inside block bodies show the same of themselves, and the result
      of parsing a text is made of nothing else. */
  lemma BodiesDoNotChangeTheResult(a: string, b: string, readers: Readers)
    requires WithoutBodies(CommandsFrom(a, 0), false) == WithoutBodies(CommandsFrom(b, 0), false)
    ensures Shown(a, readers) == Shown(b, readers)
  {
    BlockScopeNoninterference(CommandsFrom(a, 0), CommandsFrom(b, 0), readers);
  }
}
