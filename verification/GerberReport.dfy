/** What the file-level state walk reports, stated without the walk. */
module GerberReport {
  // A command counts for the file exactly when a look back over the stream finds no open block and
  // no end of file. The results are about every state of a run, one before each command and one at
  // the end.
  import opened GerberTokenizer
  import opened CoordinateFormat
  import opened GerberText
  import opened Options
  import opened GerberApertures
  import opened GerberFileState
  import opened GerberScope

  // ------------------------------------------------------------------ looking back

  predicate IsWord(command: Command, compact: string) {
    command.Word? && Compact(command.body) == compact && !IsComment(compact)
  }

  predicate EndsAt(commands: seq<Command>, i: nat)
    requires i < |commands|
  {
    BlockBefore(commands, i).None? && IsWord(commands[i], END_OF_FILE)
  }

  predicate EndedBefore(commands: seq<Command>, n: nat)
    requires n <= |commands|
  {
    exists i :: 0 <= i < n && EndsAt(commands, i)
  }

  /** A command the file reads in its own scope. */
  predicate InFileScope(commands: seq<Command>, i: nat)
    requires i < |commands|
  {
    BlockBefore(commands, i).None? && !EndedBefore(commands, i)
  }

  /** A word that is neither recognised as a comment nor the end of the file. */
  function WordOf(command: Command): Option<string> {
    if command.Word? && !IsComment(Compact(command.body)) && Compact(command.body) != END_OF_FILE
    then Some(Compact(command.body)) else None
  }

  predicate IsFileWord(commands: seq<Command>, i: nat)
    requires i < |commands|
  {
    InFileScope(commands, i) && WordOf(commands[i]).Some?
  }

  function FileWords(commands: seq<Command>, n: nat): seq<string>
    requires n <= |commands|
  {
    if n == 0 then []
    else FileWords(commands, n - 1) + (if IsFileWord(commands, n - 1) then [WordOf(commands[n - 1]).value] else [])
  }

  /** The code a declaration puts in its scope's table. */
  function DeclaredCode(declaration: Declaration): Option<nat> {
    match declaration
    case NoCode => None
    case Unreadable(code) => if code >= FIRST_APERTURE_CODE then Some(code) else None
    case Declared(code, _, _, _) => if code >= FIRST_APERTURE_CODE then Some(code) else None
  }

  /** The file-scope aperture a command defines, given the block it stands in: one it declares
      outside any, or the block it closes. */
  function DefinedIn(block: Option<Option<nat>>, command: Command): Option<nat> {
    if !command.Extended? then None
    else
      var compact := Compact(command.body);
      match block
      case None => if IsDefinition(compact) then DeclaredCode(ReadDeclaration(compact)) else None
      case Some(None) => None
      case Some(Some(code)) => if compact == BLOCK_END && code >= FIRST_APERTURE_CODE then Some(code) else None
  }

  predicate DefinesAt(commands: seq<Command>, i: nat, code: nat)
    requires i < |commands|
  {
    !EndedBefore(commands, i) && DefinedIn(BlockBefore(commands, i), commands[i]) == Some(code)
  }

  predicate DefinedBefore(commands: seq<Command>, n: nat, code: nat)
    requires n <= |commands|
  {
    exists i :: 0 <= i < n && DefinesAt(commands, i, code)
  }

  predicate SelectsAt(commands: seq<Command>, i: nat, code: nat)
    requires i < |commands|
  {
    IsFileWord(commands, i) && ApertureSelection(Compact(commands[i].body)) == Some(code)
  }

  /** Some file-scope command selected the code when the file had not defined it. */
  predicate SelectedUndefined(commands: seq<Command>, n: nat, code: nat)
    requires n <= |commands|
  {
    exists i :: 0 <= i < n && SelectsAt(commands, i, code) && !DefinedBefore(commands, i, code)
  }

  // ------------------------------------------------------------------ one more command

  lemma {:induction false} WalkedOneMore(walk: Walk, commands: seq<Command>, last: Command, readers: Readers)
    ensures var before := Walked(walk, commands, readers);
            Walked(walk, commands + [last], readers) == if before.ended then before else Step(before, last, readers)
    decreases |commands|
  {
    if commands == [] {
      assert commands + [last] == [last] && [last][1..] == [];
    } else {
      assert (commands + [last])[1..] == commands[1..] + [last];
      if !walk.ended {
        WalkedOneMore(Step(walk, commands[0], readers), commands[1..], last, readers);
      }
    }
  }

  ghost predicate Steps(walks: seq<Walk>, commands: seq<Command>, readers: Readers, i: nat)
    requires |walks| == |commands| + 1 && i < |commands|
  {
    walks[i + 1] == if walks[i].ended then walks[i] else Step(walks[i], commands[i], readers)
  }

  /** The states of the walk, one before each command and one at the end. */
  ghost predicate IsRun(walks: seq<Walk>, commands: seq<Command>, readers: Readers) {
    && |walks| == |commands| + 1 && walks[0] == WALK_START
    && forall i :: 0 <= i < |commands| ==> Steps(walks, commands, readers, i)
  }

  /** Every stream has a run, and it ends where the walk does. */
  lemma {:induction false} RunOf(commands: seq<Command>, readers: Readers) returns (walks: seq<Walk>)
    ensures IsRun(walks, commands, readers)
    ensures walks[|commands|] == Walked(WALK_START, commands, readers)
    decreases |commands|
  {
    if commands == [] {
      walks := [WALK_START];
    } else {
      var front, last := commands[..|commands| - 1], commands[|commands| - 1];
      var before := RunOf(front, readers);
      assert commands == front + [last];
      WalkedOneMore(WALK_START, front, last, readers);
      walks := LongerRun(before, front, last, Walked(WALK_START, commands, readers), readers);
    }
  }

  lemma LongerRun(before: seq<Walk>, front: seq<Command>, last: Command, end: Walk, readers: Readers)
      returns (walks: seq<Walk>)
    requires IsRun(before, front, readers)
    requires end == if before[|front|].ended then before[|front|] else Step(before[|front|], last, readers)
    ensures IsRun(walks, front + [last], readers) && walks[|front| + 1] == end
  {
    walks := before + [end];
    var commands := front + [last];
    forall i | 0 <= i < |commands| ensures Steps(walks, commands, readers, i) {
      if i < |front| {
        assert Steps(before, front, readers, i);
        assert walks[i] == before[i] && walks[i + 1] == before[i + 1] && commands[i] == front[i];
      }
    }
  }

  lemma EndedOneMore(commands: seq<Command>, n: nat)
    requires n < |commands|
    ensures EndedBefore(commands, n + 1) == (EndedBefore(commands, n) || EndsAt(commands, n))
  {}

  // ------------------------------------------------------------------ the walk agrees

  /** The walk is in the block a look back finds, and has ended where a look back finds the end. */
  lemma {:induction false} WalkIsWhereTheBoundariesSay(walks: seq<Walk>, commands: seq<Command>, n: nat,
                                                       readers: Readers)
    requires IsRun(walks, commands, readers) && n <= |commands|
    ensures var walk := walks[n];
            walk.ended == EndedBefore(commands, n) && (!walk.ended ==> Insides(walk.ledger) == BlockBefore(commands, n))
  {
    if n > 0 {
      WalkIsWhereTheBoundariesSay(walks, commands, n - 1, readers);
      EndedOneMore(commands, n - 1);
      PlaceOneMore(walks, commands, n - 1, readers);
    }
  }

  lemma PlaceOneMore(walks: seq<Walk>, commands: seq<Command>, n: nat, readers: Readers)
    requires IsRun(walks, commands, readers) && n < |commands|
    ensures var before, after := walks[n], walks[n + 1];
            && after.ended == (before.ended || (Insides(before.ledger).None? && IsWord(commands[n], END_OF_FILE)))
            && (!before.ended ==> Insides(after.ledger) == BlockAfter(Insides(before.ledger), commands[n]))
  {
    var before := walks[n];
    assert Steps(walks, commands, readers, n);
    StepBlock(before, commands[n], readers);
    if !before.ended {
      StepEnds(before, commands[n], readers);
    }
  }

  lemma StepEnds(walk: Walk, command: Command, readers: Readers)
    requires !walk.ended
    ensures Step(walk, command, readers).ended == (Insides(walk.ledger).None? && IsWord(command, END_OF_FILE))
  {}

  // ------------------------------------------------------------------ the aperture report is exact

  function WithCode(codes: set<nat>, code: Option<nat>): set<nat> {
    match code
    case None => codes
    case Some(c) => codes + {c}
  }

  lemma DeclarationDefines(ledger: Ledger, declaration: Declaration, read: DefinitionReader)
    ensures WithDeclaration(ledger, declaration, read).file.entries.Keys
         == WithCode(ledger.file.entries.Keys, if ledger.block.None? then DeclaredCode(declaration) else None)
  {}

  lemma BoundaryDefines(ledger: Ledger, compact: string)
    ensures WithBoundary(ledger, compact).file.entries.Keys
         == WithCode(ledger.file.entries.Keys,
                     if compact == BLOCK_END && ledger.BlockCode().Some?
                        && ledger.BlockCode().value >= FIRST_APERTURE_CODE
                     then ledger.BlockCode() else None)
  {}

  lemma StepDefines(walk: Walk, command: Command, readers: Readers)
    ensures Step(walk, command, readers).ledger.file.entries.Keys
         == WithCode(walk.ledger.file.entries.Keys, DefinedIn(Insides(walk.ledger), command))
  {
    if command.Extended? {
      var compact := Compact(command.body);
      DeclarationDefines(walk.ledger, ReadDeclaration(compact), readers.definition);
      BoundaryDefines(walk.ledger, compact);
      assert IsBlockBoundary(compact) ==> compact[1] == 'B';
      assert IsDefinition(compact) ==> compact[1] == 'D';
      assert StartsWith(compact, "AM") ==> compact[1] == 'M';
    }
  }

  predicate InTable(walk: Walk, code: nat) { code in walk.ledger.file.entries }

  /** A code is in the file's table exactly when a file-scope command defined it. */
  lemma {:induction false} TableIsWhatTheFileDefined(walks: seq<Walk>, commands: seq<Command>, n: nat, readers: Readers,
                                                     code: nat)
    requires IsRun(walks, commands, readers) && n <= |commands|
    ensures InTable(walks[n], code) <==> DefinedBefore(commands, n, code)
  {
    if n > 0 {
      TableIsWhatTheFileDefined(walks, commands, n - 1, readers, code);
      TableOneMore(walks, commands, n - 1, readers, code);
      DefinedOneMore(commands, n - 1, code);
    }
  }

  lemma TableOneMore(walks: seq<Walk>, commands: seq<Command>, n: nat, readers: Readers, code: nat)
    requires IsRun(walks, commands, readers) && n < |commands|
    ensures InTable(walks[n + 1], code)
        <==> InTable(walks[n], code) || DefinesAt(commands, n, code)
  {
    WalkIsWhereTheBoundariesSay(walks, commands, n, readers);
    assert Steps(walks, commands, readers, n);
    StepDefines(walks[n], commands[n], readers);
  }

  lemma DefinedOneMore(commands: seq<Command>, n: nat, code: nat)
    requires n < |commands|
    ensures DefinedBefore(commands, n + 1, code)
        <==> DefinedBefore(commands, n, code) || DefinesAt(commands, n, code)
  {}

  predicate SelectsIn(block: Option<Option<nat>>, command: Command, code: nat) {
    && block.None? && command.Word? && !IsComment(Compact(command.body))
    && Compact(command.body) != END_OF_FILE && ApertureSelection(Compact(command.body)) == Some(code)
  }

  lemma DeclarationSelects(ledger: Ledger, declaration: Declaration, read: DefinitionReader)
    ensures WithDeclaration(ledger, declaration, read).undefinedInFile == ledger.undefinedInFile
  {}

  lemma StepSelects(walk: Walk, command: Command, readers: Readers, code: nat)
    ensures code in Step(walk, command, readers).ledger.undefinedInFile
        <==> code in walk.ledger.undefinedInFile
             || (SelectsIn(Insides(walk.ledger), command, code) && code !in walk.ledger.file.entries)
  {
    if command.Extended? {
      DeclarationSelects(walk.ledger, ReadDeclaration(Compact(command.body)), readers.definition);
    }
  }

  /** An aperture is reported undefined exactly when the file selected it before defining it. */
  lemma {:induction false} UndefinedReportIsExact(walks: seq<Walk>, commands: seq<Command>, n: nat,
                                                  readers: Readers, code: nat)
    requires IsRun(walks, commands, readers) && n <= |commands|
    ensures code in walks[n].ledger.undefinedInFile <==> SelectedUndefined(commands, n, code)
  {
    if n > 0 {
      UndefinedReportIsExact(walks, commands, n - 1, readers, code);
      WalkIsWhereTheBoundariesSay(walks, commands, n - 1, readers);
      TableIsWhatTheFileDefined(walks, commands, n - 1, readers, code);
      ReportOneMore(walks, commands, n - 1, readers, code);
      SelectedOneMore(commands, n - 1, code);
    }
  }

  lemma ReportOneMore(walks: seq<Walk>, commands: seq<Command>, n: nat, readers: Readers, code: nat)
    requires IsRun(walks, commands, readers) && n < |commands|
    ensures var before := walks[n];
            code in walks[n + 1].ledger.undefinedInFile
            <==> code in before.ledger.undefinedInFile
                 || (!before.ended && SelectsIn(Insides(before.ledger), commands[n], code)
                     && code !in before.ledger.file.entries)
  {
    var before := walks[n];
    assert Steps(walks, commands, readers, n);
    StepSelects(before, commands[n], readers, code);
  }

  lemma SelectedOneMore(commands: seq<Command>, n: nat, code: nat)
    requires n < |commands|
    ensures SelectedUndefined(commands, n + 1, code)
        <==> SelectedUndefined(commands, n, code)
             || (SelectsAt(commands, n, code) && !DefinedBefore(commands, n, code))
  {}
}
