/** Which aperture is in force, and which placements a file makes. */
module GerberPlacements {
  // The ledger's table, selection and placements are stated by looking back over the stream: a code
  // means the last definition the file made of it, the aperture in force is the last one selected in
  // file scope, and a placement is a flash made while that aperture is a block.
  import opened GerberTokenizer
  import opened CoordinateFormat
  import opened GerberText
  import opened Options
  import opened GerberApertures
  import opened GerberFileState
  import opened GerberScope
  import opened GerberReport

  datatype Defined = Defined(code: nat, definition: Definition)

  /** What a declaration puts in its scope's table. */
  function DeclaredAs(declaration: Declaration, read: DefinitionReader): Option<Defined> {
    match declaration
    case NoCode => None
    case Unreadable(code) => if code >= FIRST_APERTURE_CODE then Some(Defined(code, Unmodelled)) else None
    case Declared(code, template, name, parameters) =>
      if code < FIRST_APERTURE_CODE then None
      else
        match read(code, template, name, parameters)
        case Read(definition) => Some(Defined(code, definition))
        case Unread(_) => Some(Defined(code, Unmodelled))
  }

  /** The file-scope definition a command makes, given the block it stands in. */
  function DefinitionIn(block: Option<Option<nat>>, command: Command, readers: Readers): Option<Defined> {
    if !command.Extended? then None
    else
      var compact := Compact(command.body);
      match block
      case None => if IsDefinition(compact) then DeclaredAs(ReadDeclaration(compact), readers.definition) else None
      case Some(None) => None
      case Some(Some(code)) =>
        if compact == BLOCK_END && code >= FIRST_APERTURE_CODE then Some(Defined(code, Block)) else None
  }

  function DefinitionAt(commands: seq<Command>, i: nat, readers: Readers): Option<Defined>
    requires i < |commands|
  {
    if EndedBefore(commands, i) then None else DefinitionIn(BlockBefore(commands, i), commands[i], readers)
  }

  /** The last definition the file made of a code. */
  function LastDefinition(commands: seq<Command>, n: nat, readers: Readers, code: nat): Option<Definition>
    requires n <= |commands|
  {
    if n == 0 then None
    else
      match DefinitionAt(commands, n - 1, readers)
      case Some(defined) =>
        if defined.code == code then Some(defined.definition) else LastDefinition(commands, n - 1, readers, code)
      case None => LastDefinition(commands, n - 1, readers, code)
  }

  function SelectionAt(commands: seq<Command>, i: nat): Option<nat>
    requires i < |commands|
  {
    if IsFileWord(commands, i) then ApertureSelection(Compact(commands[i].body)) else None
  }

  /** The aperture the file selected last. */
  function LastSelection(commands: seq<Command>, n: nat): Option<nat>
    requires n <= |commands|
  {
    if n == 0 then None
    else if SelectionAt(commands, n - 1).Some? then SelectionAt(commands, n - 1)
    else LastSelection(commands, n - 1)
  }

  predicate FlashesAt(commands: seq<Command>, i: nat)
    requires i < |commands|
  {
    IsFileWord(commands, i) && SelectionAt(commands, i).None? && EndsInFlash(Compact(commands[i].body))
  }

  /** The block a command places: a flash in file scope, with the block selected. */
  function PlacedAt(commands: seq<Command>, i: nat, readers: Readers): Option<nat>
    requires i < |commands|
  {
    if !FlashesAt(commands, i) then None
    else
      match LastSelection(commands, i)
      case None => None
      case Some(code) => if LastDefinition(commands, i, readers, code) == Some(Block) then Some(code) else None
  }

  function PlacementCount(commands: seq<Command>, n: nat, readers: Readers): nat
    requires n <= |commands|
  {
    if n == 0 then 0
    else PlacementCount(commands, n - 1, readers) + (if PlacedAt(commands, n - 1, readers).Some? then 1 else 0)
  }

  predicate IsPlaced(commands: seq<Command>, n: nat, readers: Readers, code: nat)
    requires n <= |commands|
  {
    exists i :: 0 <= i < n && PlacedAt(commands, i, readers) == Some(code)
  }

  // ------------------------------------------------------------------ the table

  function Put(entries: map<nat, Definition>, defined: Option<Defined>): map<nat, Definition> {
    match defined
    case None => entries
    case Some(d) => entries[d.code := d.definition]
  }

  lemma DeclarationPuts(ledger: Ledger, declaration: Declaration, read: DefinitionReader)
    ensures WithDeclaration(ledger, declaration, read).file.entries
         == Put(ledger.file.entries, if ledger.block.None? then DeclaredAs(declaration, read) else None)
  {}

  lemma BoundaryPuts(ledger: Ledger, compact: string)
    ensures WithBoundary(ledger, compact).file.entries
         == Put(ledger.file.entries,
                if compact == BLOCK_END && ledger.BlockCode().Some? && ledger.BlockCode().value >= FIRST_APERTURE_CODE
                then Some(Defined(ledger.BlockCode().value, Block)) else None)
  {}

  lemma StepPuts(walk: Walk, command: Command, readers: Readers)
    ensures Step(walk, command, readers).ledger.file.entries
         == Put(walk.ledger.file.entries, DefinitionIn(Insides(walk.ledger), command, readers))
  {
    if command.Extended? {
      var compact := Compact(command.body);
      DeclarationPuts(walk.ledger, ReadDeclaration(compact), readers.definition);
      BoundaryPuts(walk.ledger, compact);
      assert IsBlockBoundary(compact) ==> compact[1] == 'B';
      assert IsDefinition(compact) ==> compact[1] == 'D';
      assert StartsWith(compact, "AM") ==> compact[1] == 'M';
    }
  }

  function Entry(walk: Walk, code: nat): Option<Definition> {
    if code in walk.ledger.file.entries then Some(walk.ledger.file.entries[code]) else None
  }

  lemma EntryOneMore(walks: seq<Walk>, commands: seq<Command>, n: nat, readers: Readers, code: nat)
    requires IsRun(walks, commands, readers) && n < |commands|
    ensures var defined := DefinitionAt(commands, n, readers);
            Entry(walks[n + 1], code)
            == if defined.Some? && defined.value.code == code then Some(defined.value.definition)
               else Entry(walks[n], code)
  {
    WalkIsWhereTheBoundariesSay(walks, commands, n, readers);
    assert Steps(walks, commands, readers, n);
    StepPuts(walks[n], commands[n], readers);
  }

  /** The file's table holds, for each code, the last definition the file made of it. */
  lemma {:induction false} TableHoldsLastDefinitions(walks: seq<Walk>, commands: seq<Command>, n: nat, readers: Readers,
                                                     code: nat)
    requires IsRun(walks, commands, readers) && n <= |commands|
    ensures Entry(walks[n], code) == LastDefinition(commands, n, readers, code)
  {
    if n > 0 {
      TableHoldsLastDefinitions(walks, commands, n - 1, readers, code);
      EntryOneMore(walks, commands, n - 1, readers, code);
    }
  }

  /** The file had defined one code, and not the other, somewhere before. */
  predicate DefinedEarlier(commands: seq<Command>, n: nat, code: nat, other: nat)
    requires n <= |commands|
  {
    exists k: nat :: k <= n && DefinedBefore(commands, k, code) && !DefinedBefore(commands, k, other)
  }

  /** A table lists its codes, each once, in the order they were first defined. */
  ghost predicate IsInOrder(table: Table, commands: seq<Command>, n: nat)
    requires n <= |commands|
  {
    && (forall code: nat :: code in table.order <==> code in table.entries)
    && forall i, j :: 0 <= i < j < |table.order| ==> DefinedEarlier(commands, n, table.order[i], table.order[j])
  }

  lemma DeclarationSets(ledger: Ledger, declaration: Declaration, read: DefinitionReader)
    ensures var defined := if ledger.block.None? then DeclaredAs(declaration, read) else None;
            WithDeclaration(ledger, declaration, read).file
            == if defined.None? then ledger.file else ledger.file.Set(defined.value.code, defined.value.definition)
  {}

  lemma StepSets(walk: Walk, command: Command, readers: Readers)
    ensures var defined := DefinitionIn(Insides(walk.ledger), command, readers);
            Step(walk, command, readers).ledger.file
            == if defined.None? then walk.ledger.file
               else walk.ledger.file.Set(defined.value.code, defined.value.definition)
  {
    if command.Extended? {
      var compact := Compact(command.body);
      DeclarationSets(walk.ledger, ReadDeclaration(compact), readers.definition);
      assert IsBlockBoundary(compact) ==> compact[1] == 'B';
      assert IsDefinition(compact) ==> compact[1] == 'D';
      assert StartsWith(compact, "AM") ==> compact[1] == 'M';
    }
  }

  lemma SetKeepsOrder(table: Table, commands: seq<Command>, n: nat, code: nat, definition: Definition)
    requires n < |commands| && IsInOrder(table, commands, n) && DefinesAt(commands, n, code)
    requires forall c: nat :: c in table.entries <==> DefinedBefore(commands, n, c)
    ensures IsInOrder(table.Set(code, definition), commands, n + 1)
  {
    var order := table.Set(code, definition).order;
    forall i, j | 0 <= i < j < |order| ensures DefinedEarlier(commands, n + 1, order[i], order[j]) {
      if j < |table.order| {
        assert DefinedEarlier(commands, n, order[i], order[j]);
      } else {
        assert table.order[i] in table.order;
        assert DefinedBefore(commands, n, order[i]) && !DefinedBefore(commands, n, order[j]);
      }
    }
  }

  /** The file's table lists what the file defined in the order it first did. */
  lemma {:induction false} TableIsInOrder(walks: seq<Walk>, commands: seq<Command>, n: nat, readers: Readers)
    requires IsRun(walks, commands, readers) && n <= |commands|
    ensures IsInOrder(walks[n].ledger.file, commands, n)
  {
    if n > 0 {
      TableIsInOrder(walks, commands, n - 1, readers);
      TableSets(walks, commands, n - 1, readers);
      var table, defined := walks[n - 1].ledger.file, DefinitionAt(commands, n - 1, readers);
      if defined.Some? {
        forall c: nat ensures c in table.entries <==> DefinedBefore(commands, n - 1, c) {
          TableIsWhatTheFileDefined(walks, commands, n - 1, readers, c);
        }
        SetKeepsOrder(table, commands, n - 1, defined.value.code, defined.value.definition);
      } else {
        OrderStands(table, commands, n - 1);
      }
    }
  }

  lemma TableSets(walks: seq<Walk>, commands: seq<Command>, n: nat, readers: Readers)
    requires IsRun(walks, commands, readers) && n < |commands|
    ensures var table, defined := walks[n].ledger.file, DefinitionAt(commands, n, readers);
            && (defined.Some? ==> DefinesAt(commands, n, defined.value.code))
            && walks[n + 1].ledger.file
               == if defined.None? then table else table.Set(defined.value.code, defined.value.definition)
  {
    WalkIsWhereTheBoundariesSay(walks, commands, n, readers);
    assert Steps(walks, commands, readers, n);
    StepSets(walks[n], commands[n], readers);
  }

  lemma OrderStands(table: Table, commands: seq<Command>, n: nat)
    requires n < |commands| && IsInOrder(table, commands, n)
    ensures IsInOrder(table, commands, n + 1)
  {
    forall i, j | 0 <= i < j < |table.order|
      ensures DefinedEarlier(commands, n + 1, table.order[i], table.order[j])
    {
      assert DefinedEarlier(commands, n, table.order[i], table.order[j]);
    }
  }

  // ------------------------------------------------------------------ the selection and the placements

  /** A word the file reads, given the block it stands in. */
  function WordIn(block: Option<Option<nat>>, command: Command): Option<string> {
    if block.None? then WordOf(command) else None
  }

  lemma StepLedger(walk: Walk, command: Command, readers: Readers)
    ensures var after, word := Step(walk, command, readers).ledger, WordIn(Insides(walk.ledger), command);
            && after.selected
               == (if word.Some? then WithWord(walk.ledger, word.value).selected else walk.ledger.selected)
            && after.placements
               == (if word.Some? then WithWord(walk.ledger, word.value).placements else walk.ledger.placements)
  {
    if command.Extended? {
      DeclarationPlacesNothing(walk.ledger, ReadDeclaration(Compact(command.body)), readers.definition);
    }
  }

  lemma DeclarationPlacesNothing(ledger: Ledger, declaration: Declaration, read: DefinitionReader)
    ensures WithDeclaration(ledger, declaration, read).selected == ledger.selected
    ensures WithDeclaration(ledger, declaration, read).placements == ledger.placements
  {}

  lemma LedgerOneMore(walks: seq<Walk>, commands: seq<Command>, n: nat, readers: Readers)
    requires IsRun(walks, commands, readers) && n < |commands|
    ensures walks[n + 1].ledger.selected
         == (if SelectionAt(commands, n).Some? then SelectionAt(commands, n) else walks[n].ledger.selected)
    ensures walks[n + 1].ledger.placements
         == (if FlashesAt(commands, n) then WithFlash(walks[n].ledger).placements else walks[n].ledger.placements)
  {
    WalkIsWhereTheBoundariesSay(walks, commands, n, readers);
    assert Steps(walks, commands, readers, n);
    StepLedger(walks[n], commands[n], readers);
  }

  /** The aperture in force is the one the file selected last. */
  lemma {:induction false} SelectionIsTheLast(walks: seq<Walk>, commands: seq<Command>, n: nat, readers: Readers)
    requires IsRun(walks, commands, readers) && n <= |commands|
    ensures walks[n].ledger.selected == LastSelection(commands, n)
  {
    if n > 0 {
      SelectionIsTheLast(walks, commands, n - 1, readers);
      LedgerOneMore(walks, commands, n - 1, readers);
    }
  }

  lemma FlashPlaces(walk: Walk)
    ensures var code, after := walk.ledger.selected, WithFlash(walk.ledger).placements;
            var places := code.Some? && Entry(walk, code.value) == Some(Block);
            && after.count == walk.ledger.placements.count + (if places then 1 else 0)
            && forall c: nat :: c in after.codes <==> c in walk.ledger.placements.codes || (places && c == code.value)
  {}

  lemma PlacementOneMore(walks: seq<Walk>, commands: seq<Command>, n: nat, readers: Readers)
    requires IsRun(walks, commands, readers) && n < |commands|
    ensures var before, after, placed :=
              walks[n].ledger.placements, walks[n + 1].ledger.placements, PlacedAt(commands, n, readers);
            && after.count == before.count + (if placed.Some? then 1 else 0)
            && forall c: nat :: c in after.codes <==> c in before.codes || placed == Some(c)
  {
    LedgerOneMore(walks, commands, n, readers);
    SelectionIsTheLast(walks, commands, n, readers);
    FlashPlaces(walks[n]);
    var code := LastSelection(commands, n);
    if code.Some? {
      TableHoldsLastDefinitions(walks, commands, n, readers, code.value);
    }
  }

  lemma IsPlacedOneMore(commands: seq<Command>, n: nat, readers: Readers)
    requires n < |commands|
    ensures forall c: nat :: IsPlaced(commands, n + 1, readers, c)
                <==> IsPlaced(commands, n, readers, c) || PlacedAt(commands, n, readers) == Some(c)
  {}

  /** Placements are counted exactly: one for each flash in file scope with a block selected. */
  lemma {:induction false} PlacementsAreCounted(walks: seq<Walk>, commands: seq<Command>, n: nat, readers: Readers)
    requires IsRun(walks, commands, readers) && n <= |commands|
    ensures walks[n].ledger.placements.count == PlacementCount(commands, n, readers)
    ensures forall c: nat :: c in walks[n].ledger.placements.codes <==> IsPlaced(commands, n, readers, c)
  {
    if n > 0 {
      PlacementsAreCounted(walks, commands, n - 1, readers);
      PlacementOneMore(walks, commands, n - 1, readers);
      IsPlacedOneMore(commands, n - 1, readers);
    }
  }

  // ------------------------------------------------------------------ one problem for each code and scope

  predicate OneEach(problems: seq<Problem>) {
    forall i, j :: 0 <= i < j < |problems| ==> !problems[i].SameScope(problems[j])
  }

  lemma ProblemOnce(ledger: Ledger, code: nat, kind: ProblemKind)
    requires OneEach(ledger.problems)
    ensures OneEach(WithProblem(ledger, code, kind).problems)
  {}

  lemma StepProblems(walk: Walk, command: Command, readers: Readers)
    requires OneEach(walk.ledger.problems)
    ensures OneEach(Step(walk, command, readers).ledger.problems)
  {
    if command.Extended? {
      var compact, ledger := Compact(command.body), walk.ledger;
      DeclarationProblems(ledger, ReadDeclaration(compact), readers.definition);
      if ledger.BlockCode().Some? {
        ProblemOnce(ledger.(block := None), ledger.BlockCode().value, Malformed);
      }
    }
  }

  lemma DeclarationProblems(ledger: Ledger, declaration: Declaration, read: DefinitionReader)
    requires OneEach(ledger.problems)
    ensures OneEach(WithDeclaration(ledger, declaration, read).problems)
  {
    if !declaration.NoCode? {
      ProblemOnce(ledger, declaration.code, Malformed);
      ProblemOnce(ledger, declaration.code, Unsupported);
    }
  }

  /** At most one problem is reported for a code in a scope. */
  lemma {:induction false} ProblemsAreReportedOnce(walks: seq<Walk>, commands: seq<Command>, n: nat, readers: Readers)
    requires IsRun(walks, commands, readers) && n <= |commands|
    ensures OneEach(walks[n].ledger.problems)
  {
    if n > 0 {
      ProblemsAreReportedOnce(walks, commands, n - 1, readers);
      assert Steps(walks, commands, readers, n - 1);
      StepProblems(walks[n - 1], commands[n - 1], readers);
    }
  }
}
