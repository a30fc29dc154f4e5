/** The file-level state walk (src/multicad/gerber-parser.ts): what a Gerber file says about
    itself, read off its command stream in the order it wrote it, outside its aperture blocks and
    before its end. */
module GerberFileState {
  import opened GerberTokenizer
  import opened CoordinateFormat
  import opened GerberText
  import opened Options
  import opened GerberApertures

  datatype Units = Millimetres | Inches

  datatype CoordinateMode = Absolute | Incremental

  datatype DeclaredFormat = DeclaredFormat(format: Format, mode: CoordinateMode)

  datatype Transform = Mirror | Rotation | Scale | StepAndRepeat

  datatype Polarity = Dark | Clear

  /** What the text of one definition or of one transform statement amounts to. */
  datatype Readers = Readers(definition: DefinitionReader, transform: string -> Option<Transform>)

  /** How many commands of a shape the file never terminated, and how the first one reads. */
  datatype Evidence = Evidence(count: nat, excerpt: string)

  datatype FileFacts = FileFacts(
    declaredUnits: Option<Units>,
    legacyUnits: Option<Units>,
    declaredFormat: Option<DeclaredFormat>,
    legacyMode: Option<CoordinateMode>,
    fileFunction: Option<string>,
    transforms: seq<Transform>,
    polarity: Polarity,
    plottedUnderClearPolarity: bool,
    wordCommands: seq<string>)

  const NO_FACTS := FileFacts(None, None, None, None, None, [], Dark, false, [])

  // ------------------------------------------------------------------ what an extended command states

  function UnitsStatement(compact: string): Option<Units> {
    if compact == "MOIN*" then Some(Inches) else if compact == "MOMM*" then Some(Millimetres) else None
  }

  function FormatStatement(compact: string): Option<DeclaredFormat> {
    if |compact| == 11 && StartsWith(compact, "FS") && compact[2] in "LT" && compact[3] in "AI"
       && compact[4] == 'X' && IsDigit(compact[5]) && IsDigit(compact[6])
       && compact[7] == 'Y' && IsDigit(compact[8]) && IsDigit(compact[9]) && compact[10] == '*'
    then Some(DeclaredFormat(Format(DigitValue(compact[5]), DigitValue(compact[6]),
                                    if compact[2] == 'T' then OmitsTrailing else OmitsLeading),
                             if compact[3] == 'I' then Incremental else Absolute))
    else None
  }

  const FILE_FUNCTION := "TF.FileFunction,"

  function FileFunctionStatement(body: string): Option<string> {
    var text := Trim(body);
    if StartsWith(text, FILE_FUNCTION) && |text| > |FILE_FUNCTION| && text[|text| - 1] == '*'
       && '*' !in text[|FILE_FUNCTION|..|text| - 1]
    then Some(Trim(text[|FILE_FUNCTION|..|text| - 1]))
    else None
  }

  function PolarityStatement(compact: string): Option<Polarity> {
    if compact == "LPD*" then Some(Dark) else if compact == "LPC*" then Some(Clear) else None
  }

  function OrElse<T>(first: Option<T>, second: Option<T>): Option<T> {
    if first.Some? then first else second
  }

  const MAX_EXCERPT := 80

  function Excerpt(body: string): string {
    var text := TrimEnd(body);
    if |text| <= MAX_EXCERPT then text else text[..MAX_EXCERPT] + "..."
  }

  // ------------------------------------------------------------------ the new facts of each step

  function WithGraphicsState(facts: FileFacts, compact: string, readers: Readers): FileFacts {
    match PolarityStatement(compact)
    case Some(polarity) => facts.(polarity := polarity)
    case None =>
      match readers.transform(compact)
      case Some(t) => if t in facts.transforms then facts else facts.(transforms := facts.transforms + [t])
      case None => facts
  }

  /** A file-level parameter: the first statement of each kind stands. */
  function WithParameter(facts: FileFacts, body: string, readers: Readers): FileFacts {
    var compact := Compact(body);
    if UnitsStatement(compact).Some? then
      facts.(declaredUnits := OrElse(facts.declaredUnits, UnitsStatement(compact)))
    else if FormatStatement(compact).Some? then
      facts.(declaredFormat := OrElse(facts.declaredFormat, FormatStatement(compact)))
    else
      WithGraphicsState(facts.(fileFunction := OrElse(facts.fileFunction, FileFunctionStatement(body))),
                        compact, readers)
  }

  function WithPlottedWord(facts: FileFacts, compact: string): FileFacts {
    var listed := facts.(wordCommands := facts.wordCommands + [compact]);
    var plotted := if facts.polarity.Clear? && PlottedOperation(compact).Some?
                   then listed.(plottedUnderClearPolarity := true) else listed;
    match LeadingGCode(compact)
    case Some(70) => plotted.(legacyUnits := Some(Inches))
    case Some(71) => plotted.(legacyUnits := Some(Millimetres))
    case Some(90) => plotted.(legacyMode := Some(Absolute))
    case Some(91) => plotted.(legacyMode := Some(Incremental))
    case _ => plotted
  }

  /** How far the walk has come: what the file said, its apertures, and what was malformed. */
  datatype Walk = Walk(facts: FileFacts, ledger: Ledger, extended: Evidence, word: Evidence, ended: bool)

  const WALK_START := Walk(NO_FACTS, EMPTY_LEDGER, Evidence(0, ""), Evidence(0, ""), false)

  function WithMalformed(evidence: Evidence, body: string): Evidence {
    Evidence(evidence.count + 1, if evidence.count == 0 then Excerpt(body) else evidence.excerpt)
  }

  function WithUnterminated(walk: Walk, shape: Shape, body: string): Walk {
    match shape
    case ExtendedShape => walk.(extended := WithMalformed(walk.extended, body))
    case WordShape => walk.(word := WithMalformed(walk.word, body))
  }

  function ExtendedLedger(ledger: Ledger, body: string, readers: Readers): Ledger {
    var compact := Compact(body);
    if StartsWith(compact, "AM") then ledger
    else if IsDefinition(compact) then WithDeclaration(ledger, ReadDeclaration(compact), readers.definition)
    else if IsBlockBoundary(compact) then WithBoundary(ledger, compact)
    else ledger
  }

  /** A parameter inside a block belongs to the block. */
  predicate IsFileParameter(ledger: Ledger, compact: string) {
    !StartsWith(compact, "AM") && !IsDefinition(compact) && !IsBlockBoundary(compact) && ledger.block.None?
  }

  function ExtendedFacts(facts: FileFacts, ledger: Ledger, body: string, readers: Readers): FileFacts {
    if IsFileParameter(ledger, Compact(body)) then WithParameter(facts, body, readers) else facts
  }

  /** What the walk takes for a comment. */
  predicate IsComment(compact: string) { LeadingGCode(compact) == Some(4) }

  const END_OF_FILE := "M02"

  predicate EndsFile(ledger: Ledger, body: string) {
    var compact := Compact(body);
    !IsComment(compact) && ledger.block.None? && compact == END_OF_FILE
  }

  function WordLedger(ledger: Ledger, body: string): Ledger {
    var compact := Compact(body);
    if IsComment(compact) || EndsFile(ledger, body) then ledger
    else if ledger.block.Some? then WithBlockWord(ledger, compact)
    else WithWord(ledger, compact)
  }

  function WordFacts(facts: FileFacts, ledger: Ledger, body: string): FileFacts {
    var compact := Compact(body);
    if IsComment(compact) || ledger.block.Some? || EndsFile(ledger, body) then facts
    else WithPlottedWord(facts, compact)
  }

  function Step(walk: Walk, command: Command, readers: Readers): Walk {
    match command
    case Unterminated(shape, body) => WithUnterminated(walk, shape, body)
    case Extended(body) =>
      walk.(facts := ExtendedFacts(walk.facts, walk.ledger, body, readers),
            ledger := ExtendedLedger(walk.ledger, body, readers))
    case Word(body) =>
      walk.(facts := WordFacts(walk.facts, walk.ledger, body), ledger := WordLedger(walk.ledger, body),
            ended := EndsFile(walk.ledger, body))
  }

  /** The walk over some commands; nothing is read past the end of the file. */
  function Walked(walk: Walk, commands: seq<Command>, readers: Readers): Walk
    decreases |commands|
  {
    if walk.ended || commands == [] then walk
    else Walked(Step(walk, commands[0], readers), commands[1..], readers)
  }

  // ------------------------------------------------------------------ the program

  class FileStateAccumulator {
    var declaredUnits: Option<Units>
    var legacyUnits: Option<Units>
    var declaredFormat: Option<DeclaredFormat>
    var legacyMode: Option<CoordinateMode>
    var fileFunction: Option<string>
    var transforms: seq<Transform>
    var polarity: Polarity
    var plottedUnderClearPolarity: bool
    var wordCommands: seq<string>

    constructor ()
      ensures Facts() == NO_FACTS
    {
      declaredUnits, legacyUnits, declaredFormat, legacyMode, fileFunction := None, None, None, None, None;
      transforms, polarity, plottedUnderClearPolarity, wordCommands := [], Dark, false, [];
    }

    function Facts(): FileFacts
      reads this
    {
      FileFacts(declaredUnits, legacyUnits, declaredFormat, legacyMode, fileFunction, transforms, polarity,
                plottedUnderClearPolarity, wordCommands)
    }

    method RecordUnappliedGraphicsState(compact: string, readers: Readers)
      modifies this`polarity, this`transforms
      ensures Facts() == WithGraphicsState(old(Facts()), compact, readers)
    {
      var stated := PolarityStatement(compact);
      if stated.Some? {
        polarity := stated.value;
        return;
      }
      var transform := readers.transform(compact);
      if transform.Some? && transform.value !in transforms {
        transforms := transforms + [transform.value];
      }
    }

    method ApplyExtended(body: string, apertures: ApertureLedger, readers: Readers)
      modifies this, apertures
      ensures Facts() == ExtendedFacts(old(Facts()), old(apertures.State()), body, readers)
      ensures apertures.State() == ExtendedLedger(old(apertures.State()), body, readers)
    {
      var compact := Compact(body);
      if StartsWith(compact, "AM") {
        return;
      }
      var applied := apertures.ApplyExtended(compact, readers.definition);
      if applied {
        return;
      }
      if apertures.IsInsideBlock() {
        return;
      }
      var units := UnitsStatement(compact);
      if units.Some? {
        if declaredUnits.None? {
          declaredUnits := units;
        }
        return;
      }
      var format := FormatStatement(compact);
      if format.Some? {
        if declaredFormat.None? {
          declaredFormat := format;
        }
        return;
      }
      if fileFunction.None? {
        fileFunction := FileFunctionStatement(body);
      }
      RecordUnappliedGraphicsState(compact, readers);
    }

    /** Whether the command ends the file. */
    method ApplyWord(body: string, apertures: ApertureLedger) returns (ended: bool)
      modifies this, apertures
      ensures Facts() == WordFacts(old(Facts()), old(apertures.State()), body)
      ensures apertures.State() == WordLedger(old(apertures.State()), body)
      ensures ended == EndsFile(old(apertures.State()), body)
    {
      var compact := Compact(body);
      var gCode := LeadingGCode(compact);
      if gCode == Some(4) {
        return false;
      }
      if apertures.IsInsideBlock() {
        apertures.ApplyBlockWord(compact);
        return false;
      }
      if compact == "M02" {
        return true;
      }
      apertures.ApplyWord(compact);
      ListWord(compact);
      return false;
    }

    method ListWord(compact: string)
      modifies this
      ensures Facts() == WithPlottedWord(old(Facts()), compact)
    {
      var gCode := LeadingGCode(compact);
      wordCommands := wordCommands + [compact];
      if polarity == Clear && PlottedOperation(compact).Some? {
        plottedUnderClearPolarity := true;
      }
      if gCode == Some(70) {
        legacyUnits := Some(Inches);
      } else if gCode == Some(71) {
        legacyUnits := Some(Millimetres);
      } else if gCode == Some(90) {
        legacyMode := Some(Absolute);
      } else if gCode == Some(91) {
        legacyMode := Some(Incremental);
      }
    }
  }

  class UnterminatedEvidence {
    var count: nat
    var excerpt: string

    constructor ()
      ensures State() == Evidence(0, "")
    {
      count, excerpt := 0, "";
    }

    function State(): Evidence
      reads this
    {
      Evidence(count, excerpt)
    }

    method Record(body: string)
      modifies this
      ensures State() == WithMalformed(old(State()), body)
    {
      if count == 0 {
        excerpt := Excerpt(body);
      }
      count := count + 1;
    }
  }

  /** The file state and the apertures; the evidence objects are the caller's. */
  method ReadFileState(commands: seq<Command>, extended: UnterminatedEvidence, word: UnterminatedEvidence,
                       readers: Readers)
      returns (state: FileStateAccumulator, apertures: ApertureLedger)
    requires extended != word && extended.State() == word.State() == Evidence(0, "")
    modifies extended, word
    ensures fresh(state) && fresh(apertures)
    ensures var walk := Walked(WALK_START, commands, readers);
            && state.Facts() == walk.facts && apertures.State() == walk.ledger
            && extended.State() == walk.extended && word.State() == walk.word
  {
    state := new FileStateAccumulator();
    apertures := new ApertureLedger();
    ghost var walk := WALK_START;
    for i := 0 to |commands|
      invariant fresh(state) && fresh(apertures)
      invariant walk == Walk(state.Facts(), apertures.State(), extended.State(), word.State(), false)
      invariant Walked(WALK_START, commands, readers) == Walked(walk, commands[i..], readers)
    {
      var command := commands[i];
      walk := Step(walk, command, readers);
      assert commands[i..][1..] == commands[i + 1..];
      if command.Unterminated? {
        if command.shape.ExtendedShape? {
          extended.Record(command.body);
        } else {
          word.Record(command.body);
        }
      } else if command.Extended? {
        state.ApplyExtended(command.body, apertures, readers);
      } else {
        var ended := state.ApplyWord(command.body, apertures);
        if ended {
          break;
        }
      }
    }
  }
}
