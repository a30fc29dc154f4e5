/** The aperture ledger (src/multicad/gerber-apertures.ts): what a file defined, selected and
    placed, kept per scope. A definition lands in the table of the scope that is open where it is
    written, a block that closes becomes an aperture of the file, and evidence about what could not
    be read is kept once for each code and scope. What the numbers of one definition amount to is a
    parameter: the ledger only needs to know whether a definition could be read, and whether it is
    a block. */
module GerberApertures {
  import opened CoordinateFormat
  import opened GerberText
  import opened Options

  datatype StandardShape = Circle(diameter: real) | Rectangle(width: real, height: real)
                           | Obround(width: real, height: real)
                 | Polygon(diameter: real, vertices: nat)

  datatype Definition = Standard(shape: StandardShape) | Macro(name: string) | Block | Unmodelled

  datatype ProblemKind = Malformed | Unsupported

  datatype Reading = Read(definition: Definition) | Unread(kind: ProblemKind)

  /** Reads a definition's code, template letter, rest of the name and parameters. */
  type DefinitionReader = (nat, char, string, Option<string>) -> Reading

  /** Definitions in the order their codes were first declared. */
  datatype Table = Table(order: seq<nat>, entries: map<nat, Definition>) {
    function Set(code: nat, definition: Definition): Table {
      Table(if code in entries then order else order + [code], entries[code := definition])
    }
  }

  const EMPTY_TABLE := Table([], map[])

  datatype OpenBlock = OpenBlock(code: Option<nat>, apertures: Table, selected: Option<nat>)

  datatype Placements = Placements(count: nat, codes: seq<nat>)

  datatype Problem = Problem(code: nat, kind: ProblemKind, inBlock: bool, blockCode: Option<nat>) {
    predicate SameScope(other: Problem) {
      code == other.code && inBlock == other.inBlock && blockCode == other.blockCode
    }
  }

  datatype BlockReference = BlockReference(blockCode: Option<nat>, code: nat)

  datatype Ledger = Ledger(file: Table, block: Option<OpenBlock>, selected: Option<nat>, placements: Placements,
                           undefinedInFile: seq<nat>, undefinedInBlock: seq<BlockReference>, problems: seq<Problem>)
  {
    function BlockCode(): Option<nat> { if block.Some? then block.value.code else None }
  }

  const EMPTY_LEDGER := Ledger(EMPTY_TABLE, None, None, Placements(0, []), [], [], [])

  // ------------------------------------------------------------------ what a definition says

  datatype Declaration =
    | NoCode
    | Unreadable(code: nat)
    | Declared(code: nat, template: char, name: string, parameters: Option<string>)

  predicate IsLetter(c: char) { 'a' <= c <= 'z' || 'A' <= c <= 'Z' }

  function NameEnd(text: string, i: nat): (end: nat)
    requires i <= |text|
    ensures i <= end <= |text|
    decreases |text| - i
  {
    if i < |text| && (IsLetter(text[i]) || IsDigit(text[i]) || text[i] == '_') then NameEnd(text, i + 1) else i
  }

  /** `ADD`, digits, a name, optional parameters and one closing star. */
  function ReadDeclaration(compact: string): Declaration {
    if !StartsWith(compact, "ADD") || DigitsEnd(compact, 3) == 3 then NoCode
    else
      var at := DigitsEnd(compact, 3);
      var code := WholeNumber(compact[3..at]);
      if at == |compact| || !IsLetter(compact[at]) then Unreadable(code)
      else
        var end := NameEnd(compact, at + 1);
        var name := compact[at + 1..end];
        if compact[end..] == "*" then Declared(code, compact[at], name, None)
        else if |compact| >= end + 2 && compact[end] == ',' && compact[|compact| - 1] == '*'
                && '*' !in compact[end + 1..|compact| - 1]
        then Declared(code, compact[at], name, Some(compact[end + 1..|compact| - 1]))
        else Unreadable(code)
  }

  /** `AB`, a D-code and one closing star. */
  function BlockNamed(compact: string): Option<nat> {
    if StartsWith(compact, "ABD") && |compact| > 4 && DigitsEnd(compact, 3) == |compact| - 1
       && compact[|compact| - 1] == '*'
    then Some(WholeNumber(compact[3..|compact| - 1]))
    else None
  }

  predicate IsDefinition(compact: string) { StartsWith(compact, "AD") }

  predicate IsBlockBoundary(compact: string) { StartsWith(compact, "AB") }

  const BLOCK_END := "AB*"

  // ------------------------------------------------------------------ the new ledger of each step

  /** A problem of the same code was reported in the same scope. */
  predicate Reported(problems: seq<Problem>, problem: Problem) {
    exists p :: p in problems && p.SameScope(problem)
  }

  function WithProblem(ledger: Ledger, code: nat, kind: ProblemKind): Ledger {
    var problem := Problem(code, kind, ledger.block.Some?, ledger.BlockCode());
    if Reported(ledger.problems, problem) then ledger
    else ledger.(problems := ledger.problems + [problem])
  }

  /** A definition lands in the table of the scope that is open, and in no other. */
  function WithDefinition(ledger: Ledger, code: nat, definition: Definition): Ledger {
    match ledger.block
    case None => ledger.(file := ledger.file.Set(code, definition))
    case Some(block) => ledger.(block := Some(block.(apertures := block.apertures.Set(code, definition))))
  }

  function WithDeclaration(ledger: Ledger, declaration: Declaration, read: DefinitionReader): Ledger {
    match declaration
    case NoCode => ledger
    case Unreadable(code) =>
      var reported := WithProblem(ledger, code, Malformed);
      if code >= FIRST_APERTURE_CODE then WithDefinition(reported, code, Unmodelled) else reported
    case Declared(code, template, name, parameters) =>
      if code < FIRST_APERTURE_CODE then WithProblem(ledger, code, Malformed)
      else
        match read(code, template, name, parameters)
        case Unread(kind) => WithDefinition(WithProblem(ledger, code, kind), code, Unmodelled)
        case Read(definition) => WithDefinition(ledger, code, definition)
  }

  function WithBlockClosed(ledger: Ledger): Ledger {
    var closed := ledger.(block := None);
    match ledger.BlockCode()
    case None => closed
    case Some(code) =>
      if code < FIRST_APERTURE_CODE then WithProblem(closed, code, Malformed)
      else closed.(file := closed.file.Set(code, Block))
  }

  function WithBoundary(ledger: Ledger, compact: string): Ledger {
    if compact == BLOCK_END then WithBlockClosed(ledger)
    else ledger.(block := Some(OpenBlock(BlockNamed(compact), EMPTY_TABLE, None)))
  }

  function WithSelection(ledger: Ledger, code: nat): Ledger {
    var selected := ledger.(selected := Some(code));
    if code in ledger.file.entries || code in ledger.undefinedInFile then selected
    else selected.(undefinedInFile := ledger.undefinedInFile + [code])
  }

  function WithFlash(ledger: Ledger): Ledger {
    match ledger.selected
    case None => ledger
    case Some(code) =>
      if code !in ledger.file.entries || !ledger.file.entries[code].Block? then ledger
      else
        var codes := ledger.placements.codes;
        ledger.(placements := Placements(ledger.placements.count + 1, if code in codes then codes else codes + [code]))
  }

  function WithWord(ledger: Ledger, compact: string): Ledger {
    match ApertureSelection(compact)
    case Some(code) => WithSelection(ledger, code)
    case None => if EndsInFlash(compact) then WithFlash(ledger) else ledger
  }

  function WithBlockReference(ledger: Ledger, code: nat): Ledger {
    var reference := BlockReference(ledger.BlockCode(), code);
    if (ledger.block.Some? && code in ledger.block.value.apertures.entries) || code in ledger.file.entries
       || reference in ledger.undefinedInBlock
    then ledger
    else ledger.(undefinedInBlock := ledger.undefinedInBlock + [reference])
  }

  function WithBlockWord(ledger: Ledger, compact: string): Ledger {
    match ApertureSelection(compact)
    case None => ledger
    case Some(code) =>
      var selected := match ledger.block
        case None => ledger
        case Some(block) => ledger.(block := Some(block.(selected := Some(code))));
      WithBlockReference(selected, code)
  }

  // ------------------------------------------------------------------ the program

  class ApertureLedger {
    var file: Table
    var block: Option<OpenBlock>
    var selected: Option<nat>
    var placements: Placements
    var undefinedInFile: seq<nat>
    var undefinedInBlock: seq<BlockReference>
    var problems: seq<Problem>

    constructor ()
      ensures State() == EMPTY_LEDGER
    {
      file, block, selected := EMPTY_TABLE, None, None;
      placements, undefinedInFile, undefinedInBlock, problems := Placements(0, []), [], [], [];
    }

    function State(): Ledger
      reads this
    {
      Ledger(file, block, selected, placements, undefinedInFile, undefinedInBlock, problems)
    }

    predicate IsInsideBlock()
      reads this
    {
      block.Some?
    }

    method RecordProblem(code: nat, kind: ProblemKind)
      modifies this`problems
      ensures State() == WithProblem(old(State()), code, kind)
    {
      var blockCode := if block.Some? then block.value.code else None;
      var problem := Problem(code, kind, block.Some?, blockCode);
      if !Reported(problems, problem) {
        problems := problems + [problem];
      }
    }

    /** Sets a definition in the open scope's table. */
    method SetInScope(code: nat, definition: Definition)
      modifies this`file, this`block
      ensures State() == WithDefinition(old(State()), code, definition)
    {
      if block.Some? {
        var open := block.value;
        block := Some(open.(apertures := open.apertures.Set(code, definition)));
      } else {
        file := file.Set(code, definition);
      }
    }

    method DefineAperture(compact: string, read: DefinitionReader)
      modifies this
      ensures State() == WithDeclaration(old(State()), ReadDeclaration(compact), read)
    {
      match ReadDeclaration(compact) {
        case NoCode =>
        case Unreadable(code) =>
          RecordProblem(code, Malformed);
          if code >= FIRST_APERTURE_CODE {
            SetInScope(code, Unmodelled);
          }
        case Declared(code, template, name, parameters) =>
          if code < FIRST_APERTURE_CODE {
            RecordProblem(code, Malformed);
            return;
          }
          var reading := read(code, template, name, parameters);
          if reading.Unread? {
            RecordProblem(code, reading.kind);
            SetInScope(code, Unmodelled);
            return;
          }
          SetInScope(code, reading.definition);
      }
    }

    method CloseBlock()
      modifies this
      ensures State() == WithBlockClosed(old(State()))
    {
      var code := if block.Some? then block.value.code else None;
      block := None;
      if code.None? {
        return;
      }
      if code.value < FIRST_APERTURE_CODE {
        RecordProblem(code.value, Malformed);
        return;
      }
      file := file.Set(code.value, Block);
    }

    /** False for a command that is neither a definition nor a block boundary. */
    method ApplyExtended(compact: string, read: DefinitionReader) returns (applied: bool)
      modifies this
      ensures applied == (IsDefinition(compact) || IsBlockBoundary(compact))
      ensures State() == if IsDefinition(compact) then WithDeclaration(old(State()), ReadDeclaration(compact), read)
                         else if IsBlockBoundary(compact) then WithBoundary(old(State()), compact)
                         else old(State())
    {
      if StartsWith(compact, "AD") {
        DefineAperture(compact, read);
        return true;
      }
      if !StartsWith(compact, "AB") {
        return false;
      }
      if compact == "AB*" {
        CloseBlock();
        return true;
      }
      block := Some(OpenBlock(BlockNamed(compact), EMPTY_TABLE, None));
      return true;
    }

    method SelectAperture(code: nat)
      modifies this`selected, this`undefinedInFile
      ensures State() == WithSelection(old(State()), code)
    {
      selected := Some(code);
      if code !in file.entries && code !in undefinedInFile {
        undefinedInFile := undefinedInFile + [code];
      }
    }

    method NoteFlash()
      modifies this`placements
      ensures State() == WithFlash(old(State()))
    {
      if selected.None? || selected.value !in file.entries {
        return;
      }
      if !file.entries[selected.value].Block? {
        return;
      }
      var codes := placements.codes;
      if selected.value !in codes {
        codes := codes + [selected.value];
      }
      placements := Placements(placements.count + 1, codes);
    }

    method ApplyWord(compact: string)
      modifies this`selected, this`undefinedInFile, this`placements
      ensures State() == WithWord(old(State()), compact)
    {
      var selection := ApertureSelection(compact);
      if selection.Some? {
        SelectAperture(selection.value);
        return;
      }
      if EndsInFlash(compact) {
        NoteFlash();
      }
    }

    method ReferenceBlockAperture(code: nat)
      modifies this`undefinedInBlock
      ensures State() == WithBlockReference(old(State()), code)
    {
      if (block.Some? && code in block.value.apertures.entries) || code in file.entries {
        return;
      }
      var blockCode := if block.Some? then block.value.code else None;
      if BlockReference(blockCode, code) !in undefinedInBlock {
        undefinedInBlock := undefinedInBlock + [BlockReference(blockCode, code)];
      }
    }

    method ApplyBlockWord(compact: string)
      modifies this`block, this`undefinedInBlock
      ensures State() == WithBlockWord(old(State()), compact)
    {
      var code := ApertureSelection(compact);
      if code.None? {
        return;
      }
      if block.Some? {
        block := Some(block.value.(selected := Some(code.value)));
      }
      ReferenceBlockAperture(code.value);
    }
  }
}
