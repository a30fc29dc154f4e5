/** What the file-level walk reports as wrong (src/multicad/gerber-apertures.ts). */
module GerberEvidence {
  // The first problem of each code in each scope, the block words that select what neither their
  // block nor the file has defined, and the commands that were never terminated, each by looking
  // back over the stream.
  import opened GerberTokenizer
  import opened GerberText
  import opened Options
  import opened GerberApertures
  import opened GerberFileState
  import opened GerberScope
  import opened GerberReport

  // ------------------------------------------------------------------ problems

  /** What is wrong with a declaration: it cannot be read, its code is an operation's, or its
      parameters are refused. */
  function DeclarationProblem(declaration: Declaration, read: DefinitionReader): Option<ProblemKind> {
    match declaration
    case NoCode => None
    case Unreadable(_) => Some(Malformed)
    case Declared(code, template, name, parameters) =>
      if code < FIRST_APERTURE_CODE then Some(Malformed)
      else
        match read(code, template, name, parameters)
        case Read(_) => None
        case Unread(kind) => Some(kind)
  }

  /** The problem a command causes, given the block it stands in: that of the definition it makes
      there, or of the code of a block it closes, which is the file's. */
  function ProblemIn(block: Option<Option<nat>>, command: Command, readers: Readers): Option<Problem> {
    if !command.Extended? then None
    else
      var compact := Compact(command.body);
      if IsDefinition(compact) then
        var declaration := ReadDeclaration(compact);
        match DeclarationProblem(declaration, readers.definition)
        case None => None
        case Some(kind) =>
          Some(Problem(declaration.code, kind, block.Some?, if block.Some? then block.value else None))
      else
        match block
        case Some(Some(code)) =>
          if compact == BLOCK_END && code < FIRST_APERTURE_CODE then Some(Problem(code, Malformed, false, None))
          else None
        case _ => None
  }

  function ProblemAt(commands: seq<Command>, i: nat, readers: Readers): Option<Problem>
    requires i < |commands|
  {
    if EndedBefore(commands, i) then None else ProblemIn(BlockBefore(commands, i), commands[i], readers)
  }

  /** A problem of the same code was caused in the same scope before. */
  predicate CausedBefore(commands: seq<Command>, n: nat, readers: Readers, problem: Problem)
    requires n <= |commands|
  {
    exists i :: 0 <= i < n && CausesAt(commands, i, readers, problem)
  }

  predicate CausesAt(commands: seq<Command>, i: nat, readers: Readers, problem: Problem)
    requires i < |commands|
  {
    ProblemAt(commands, i, readers).Some? && ProblemAt(commands, i, readers).value.SameScope(problem)
  }

  /** A command causes the problem, and none before it one of the same code in the same scope. */
  predicate IsFirstCause(commands: seq<Command>, i: nat, readers: Readers, problem: Problem)
    requires i < |commands|
  {
    ProblemAt(commands, i, readers) == Some(problem) && !CausedBefore(commands, i, readers, problem)
  }

  predicate IsCaused(commands: seq<Command>, n: nat, readers: Readers, problem: Problem)
    requires n <= |commands|
  {
    exists i :: 0 <= i < n && IsFirstCause(commands, i, readers, problem)
  }

  /** The problems with one more, unless its code has one in its scope. */
  function Added(problems: seq<Problem>, problem: Option<Problem>): seq<Problem> {
    if problem.None? || Reported(problems, problem.value) then problems else problems + [problem.value]
  }

  lemma DeclarationAdds(ledger: Ledger, declaration: Declaration, read: DefinitionReader)
    ensures var kind := DeclarationProblem(declaration, read);
            WithDeclaration(ledger, declaration, read).problems
            == if kind.None? then ledger.problems
               else Added(ledger.problems,
                          Some(Problem(declaration.code, kind.value, ledger.block.Some?, ledger.BlockCode())))
  {}

  lemma BoundaryAdds(ledger: Ledger, compact: string)
    ensures WithBoundary(ledger, compact).problems
         == if compact == BLOCK_END && ledger.BlockCode().Some? && ledger.BlockCode().value < FIRST_APERTURE_CODE
            then Added(ledger.problems, Some(Problem(ledger.BlockCode().value, Malformed, false, None)))
            else ledger.problems
  {}

  lemma WordAdds(ledger: Ledger, body: string)
    ensures WordLedger(ledger, body).problems == ledger.problems
  {}

  lemma StepAdds(walk: Walk, command: Command, readers: Readers)
    ensures Step(walk, command, readers).ledger.problems
         == Added(walk.ledger.problems, ProblemIn(Insides(walk.ledger), command, readers))
  {
    if command.Extended? {
      var compact := Compact(command.body);
      DeclarationAdds(walk.ledger, ReadDeclaration(compact), readers.definition);
      BoundaryAdds(walk.ledger, compact);
      assert IsBlockBoundary(compact) ==> compact[1] == 'B';
      assert IsDefinition(compact) ==> compact[1] == 'D';
      assert StartsWith(compact, "AM") ==> compact[1] == 'M';
    } else if command.Word? {
      WordAdds(walk.ledger, command.body);
    }
  }

  lemma ProblemsOneMore(walks: seq<Walk>, commands: seq<Command>, n: nat, readers: Readers)
    requires IsRun(walks, commands, readers) && n < |commands|
    ensures walks[n + 1].ledger.problems == Added(walks[n].ledger.problems, ProblemAt(commands, n, readers))
  {
    WalkIsWhereTheBoundariesSay(walks, commands, n, readers);
    assert Steps(walks, commands, readers, n);
    if !walks[n].ended {
      StepAdds(walks[n], commands[n], readers);
    }
  }

  lemma CausedOneMore(commands: seq<Command>, n: nat, readers: Readers, problem: Problem)
    requires n < |commands|
    ensures CausedBefore(commands, n + 1, readers, problem)
        <==> CausedBefore(commands, n, readers, problem) || CausesAt(commands, n, readers, problem)
    ensures IsCaused(commands, n + 1, readers, problem)
        <==> IsCaused(commands, n, readers, problem) || IsFirstCause(commands, n, readers, problem)
  {}

  lemma AddedIsReported(problems: seq<Problem>, added: Option<Problem>, problem: Problem)
    ensures Reported(Added(problems, added), problem)
        <==> Reported(problems, problem) || (added.Some? && added.value.SameScope(problem))
  {
    if added.Some? {
      assert forall p :: p in problems + [added.value] <==> p in problems || p == added.value;
      if Reported(problems, added.value) && added.value.SameScope(problem) {
        var p :| p in problems && p.SameScope(added.value);
        assert p.SameScope(problem);
      }
    }
  }

  lemma {:induction false} ReportedIsCaused(walks: seq<Walk>, commands: seq<Command>, n: nat, readers: Readers,
                                            problem: Problem)
    requires IsRun(walks, commands, readers) && n <= |commands|
    ensures Reported(walks[n].ledger.problems, problem) <==> CausedBefore(commands, n, readers, problem)
  {
    if n > 0 {
      ReportedIsCaused(walks, commands, n - 1, readers, problem);
      ProblemsOneMore(walks, commands, n - 1, readers);
      AddedIsReported(walks[n - 1].ledger.problems, ProblemAt(commands, n - 1, readers), problem);
      CausedOneMore(commands, n - 1, readers, problem);
    }
  }

  /** A problem is reported if and only if some command causes it, and none before it one of the same
      code in the same scope. */
  lemma {:induction false} ProblemsAreTheFirst(walks: seq<Walk>, commands: seq<Command>, n: nat, readers: Readers,
                                               problem: Problem)
    requires IsRun(walks, commands, readers) && n <= |commands|
    ensures problem in walks[n].ledger.problems <==> IsCaused(commands, n, readers, problem)
  {
    if n > 0 {
      ProblemsAreTheFirst(walks, commands, n - 1, readers, problem);
      ReportedIsCaused(walks, commands, n - 1, readers, problem);
      ProblemsOneMore(walks, commands, n - 1, readers);
      CausedOneMore(commands, n - 1, readers, problem);
    }
  }

  // ------------------------------------------------------------------ what a block selects

  predicate DeclaresIn(command: Command, code: nat) {
    && command.Extended? && IsDefinition(Compact(command.body))
    && DeclaredCode(ReadDeclaration(Compact(command.body))) == Some(code)
  }

  /** The open block has declared the code since it was opened. */
  predicate DeclaredInside(commands: seq<Command>, n: nat, code: nat)
    requires n <= |commands|
  {
    exists i :: 0 <= i < n && DeclaresIn(commands[i], code) && NoBoundary(commands, i, n)
  }

  predicate NoBoundary(commands: seq<Command>, i: nat, n: nat)
    requires i <= n <= |commands|
  {
    forall k :: i <= k < n ==> !IsBoundary(commands[k])
  }

  /** The code a block word selects, and the block it stands in. */
  function ReferenceAt(commands: seq<Command>, i: nat): Option<BlockReference>
    requires i < |commands|
  {
    if EndedBefore(commands, i) || !commands[i].Word? || IsComment(Compact(commands[i].body)) then None
    else
      match BlockBefore(commands, i)
      case None => None
      case Some(block) =>
        match ApertureSelection(Compact(commands[i].body))
        case None => None
        case Some(code) => Some(BlockReference(block, code))
  }

  /** A block word selects the code when neither its block nor the file has defined it. */
  predicate RefersToNothing(commands: seq<Command>, i: nat, reference: BlockReference)
    requires i < |commands|
  {
    && ReferenceAt(commands, i) == Some(reference)
    && !DeclaredInside(commands, i, reference.code) && !DefinedBefore(commands, i, reference.code)
  }

  predicate SomeRefersToNothing(commands: seq<Command>, n: nat, reference: BlockReference)
    requires n <= |commands|
  {
    exists i :: 0 <= i < n && RefersToNothing(commands, i, reference)
  }

  predicate InBlockTable(walk: Walk, code: nat) {
    walk.ledger.block.Some? && code in walk.ledger.block.value.apertures.entries
  }

  lemma DeclarationDeclares(ledger: Ledger, declaration: Declaration, read: DefinitionReader)
    requires ledger.block.Some?
    ensures var after := WithDeclaration(ledger, declaration, read);
            && after.block.Some?
            && after.block.value.apertures.entries.Keys
               == WithCode(ledger.block.value.apertures.entries.Keys, DeclaredCode(declaration))
  {}

  lemma StepBlockTable(walk: Walk, command: Command, readers: Readers, code: nat)
    requires walk.ledger.block.Some?
    ensures InBlockTable(Step(walk, command, readers), code)
        <==> !IsBoundary(command) && (InBlockTable(walk, code) || DeclaresIn(command, code))
  {
    if command.Extended? {
      var compact := Compact(command.body);
      DeclarationDeclares(walk.ledger, ReadDeclaration(compact), readers.definition);
      assert IsBlockBoundary(compact) ==> compact[1] == 'B';
      assert IsDefinition(compact) ==> compact[1] == 'D';
      assert StartsWith(compact, "AM") ==> compact[1] == 'M';
    }
  }

  lemma StepOpens(walk: Walk, command: Command, readers: Readers, code: nat)
    requires walk.ledger.block.None?
    ensures !InBlockTable(Step(walk, command, readers), code)
  {}

  lemma StillDeclared(commands: seq<Command>, n: nat, code: nat)
    requires n < |commands| && !IsBoundary(commands[n])
    requires DeclaredInside(commands, n, code) || DeclaresIn(commands[n], code)
    ensures DeclaredInside(commands, n + 1, code)
  {
    if DeclaredInside(commands, n, code) {
      var i :| 0 <= i < n && DeclaresIn(commands[i], code) && NoBoundary(commands, i, n);
      assert NoBoundary(commands, i, n + 1);
    } else {
      assert NoBoundary(commands, n, n + 1);
    }
  }

  lemma WasDeclared(commands: seq<Command>, n: nat, code: nat)
    requires n < |commands| && DeclaredInside(commands, n + 1, code)
    ensures !IsBoundary(commands[n]) && (DeclaredInside(commands, n, code) || DeclaresIn(commands[n], code))
  {
    var i :| 0 <= i < n + 1 && DeclaresIn(commands[i], code) && NoBoundary(commands, i, n + 1);
    assert i < n ==> NoBoundary(commands, i, n);
  }

  lemma DeclaredOneMore(commands: seq<Command>, n: nat, code: nat)
    requires n < |commands|
    ensures DeclaredInside(commands, n + 1, code)
        <==> !IsBoundary(commands[n]) && (DeclaredInside(commands, n, code) || DeclaresIn(commands[n], code))
  {
    if DeclaredInside(commands, n + 1, code) {
      WasDeclared(commands, n, code);
    } else if !IsBoundary(commands[n]) && (DeclaredInside(commands, n, code) || DeclaresIn(commands[n], code)) {
      StillDeclared(commands, n, code);
    }
  }

  /** The open block's table holds what it has declared. */
  lemma {:induction false} BlockTableIsItsOwn(walks: seq<Walk>, commands: seq<Command>, n: nat, readers: Readers,
                                              code: nat)
    requires IsRun(walks, commands, readers) && n <= |commands|
    ensures !walks[n].ended && walks[n].ledger.block.Some?
            ==> (InBlockTable(walks[n], code) <==> DeclaredInside(commands, n, code))
  {
    if n > 0 {
      var before := walks[n - 1];
      BlockTableIsItsOwn(walks, commands, n - 1, readers, code);
      assert Steps(walks, commands, readers, n - 1);
      DeclaredOneMore(commands, n - 1, code);
      StepBlock(before, commands[n - 1], readers);
      if before.ledger.block.Some? {
        StepBlockTable(before, commands[n - 1], readers, code);
      } else {
        StepOpens(before, commands[n - 1], readers, code);
      }
    }
  }

  function ReferenceIn(block: Option<Option<nat>>, command: Command): Option<BlockReference> {
    if !command.Word? || IsComment(Compact(command.body)) || block.None? then None
    else
      var code := ApertureSelection(Compact(command.body));
      if code.None? then None else Some(BlockReference(block.value, code.value))
  }

  lemma DeclarationRefersNothing(ledger: Ledger, declaration: Declaration, read: DefinitionReader)
    ensures WithDeclaration(ledger, declaration, read).undefinedInBlock == ledger.undefinedInBlock
  {}

  lemma StepRefers(walk: Walk, command: Command, readers: Readers, reference: BlockReference)
    ensures reference in Step(walk, command, readers).ledger.undefinedInBlock
        <==> reference in walk.ledger.undefinedInBlock
             || (ReferenceIn(Insides(walk.ledger), command) == Some(reference)
                 && !InBlockTable(walk, reference.code) && !InTable(walk, reference.code))
  {
    if command.Extended? {
      DeclarationRefersNothing(walk.ledger, ReadDeclaration(Compact(command.body)), readers.definition);
    }
  }

  lemma RefersOneMore(commands: seq<Command>, n: nat, reference: BlockReference)
    requires n < |commands|
    ensures SomeRefersToNothing(commands, n + 1, reference)
        <==> SomeRefersToNothing(commands, n, reference) || RefersToNothing(commands, n, reference)
  {}

  /** A selection inside a block is reported if and only if, where it stands, neither its block nor
      the file had defined the code. */
  lemma {:induction false} BlockReportIsExact(walks: seq<Walk>, commands: seq<Command>, n: nat, readers: Readers,
                                              reference: BlockReference)
    requires IsRun(walks, commands, readers) && n <= |commands|
    ensures reference in walks[n].ledger.undefinedInBlock <==> SomeRefersToNothing(commands, n, reference)
  {
    if n > 0 {
      BlockReportIsExact(walks, commands, n - 1, readers, reference);
      BlockReportOneMore(walks, commands, n - 1, readers, reference);
      RefersOneMore(commands, n - 1, reference);
    }
  }

  lemma BlockReportOneMore(walks: seq<Walk>, commands: seq<Command>, n: nat, readers: Readers,
                           reference: BlockReference)
    requires IsRun(walks, commands, readers) && n < |commands|
    ensures reference in walks[n + 1].ledger.undefinedInBlock
        <==> reference in walks[n].ledger.undefinedInBlock || RefersToNothing(commands, n, reference)
  {
    WalkIsWhereTheBoundariesSay(walks, commands, n, readers);
    BlockTableIsItsOwn(walks, commands, n, readers, reference.code);
    TableIsWhatTheFileDefined(walks, commands, n, readers, reference.code);
    assert Steps(walks, commands, readers, n);
    if !walks[n].ended {
      StepRefers(walks[n], commands[n], readers, reference);
    }
  }

  // ------------------------------------------------------------------ commands without their end

  /** The text of a command of a shape that was never terminated, before the end of the file. */
  function UnterminatedAt(commands: seq<Command>, i: nat, shape: Shape): Option<string>
    requires i < |commands|
  {
    if commands[i] == Unterminated(shape, commands[i].body) && !EndedBefore(commands, i) then Some(commands[i].body)
    else None
  }

  function UnterminatedCount(commands: seq<Command>, n: nat, shape: Shape): nat
    requires n <= |commands|
  {
    if n == 0 then 0
    else UnterminatedCount(commands, n - 1, shape) + (if UnterminatedAt(commands, n - 1, shape).Some? then 1 else 0)
  }

  function FirstUnterminated(commands: seq<Command>, n: nat, shape: Shape): Option<string>
    requires n <= |commands|
  {
    if n == 0 then None
    else OrElse(FirstUnterminated(commands, n - 1, shape), UnterminatedAt(commands, n - 1, shape))
  }

  /** The first is one with none before it. */
  lemma {:induction false} FirstUnterminatedIs(commands: seq<Command>, n: nat, shape: Shape) returns (i: nat)
    requires n <= |commands|
    ensures i <= n && forall j :: 0 <= j < i ==> UnterminatedAt(commands, j, shape).None?
    ensures FirstUnterminated(commands, n, shape) == if i < n then UnterminatedAt(commands, i, shape) else None
    ensures i < n ==> UnterminatedAt(commands, i, shape).Some?
    ensures UnterminatedCount(commands, n, shape) == 0 <==> i == n
  {
    i := 0;
    if n > 0 {
      i := FirstUnterminatedIs(commands, n - 1, shape);
      if i == n - 1 && UnterminatedAt(commands, i, shape).None? {
        i := n;
      }
    }
  }

  function EvidenceOf(walk: Walk, shape: Shape): Evidence { if shape.ExtendedShape? then walk.extended else walk.word }

  lemma EvidenceOneMore(walks: seq<Walk>, commands: seq<Command>, n: nat, readers: Readers, shape: Shape)
    requires IsRun(walks, commands, readers) && n < |commands|
    ensures var before, body := EvidenceOf(walks[n], shape), UnterminatedAt(commands, n, shape);
            EvidenceOf(walks[n + 1], shape)
            == if body.None? then before
               else Evidence(before.count + 1, if before.count == 0 then Excerpt(body.value) else before.excerpt)
  {
    WalkIsWhereTheBoundariesSay(walks, commands, n, readers);
    assert Steps(walks, commands, readers, n);
  }

  /** What is shown of unterminated commands is their number before the end of the file, and the first
      of them. */
  lemma {:induction false} EvidenceIsExact(walks: seq<Walk>, commands: seq<Command>, n: nat, readers: Readers,
                                           shape: Shape)
    requires IsRun(walks, commands, readers) && n <= |commands|
    ensures var first := FirstUnterminated(commands, n, shape);
            && EvidenceOf(walks[n], shape).count == UnterminatedCount(commands, n, shape)
            && EvidenceOf(walks[n], shape).excerpt == if first.Some? then Excerpt(first.value) else ""
  {
    if n > 0 {
      EvidenceIsExact(walks, commands, n - 1, readers, shape);
      EvidenceOneMore(walks, commands, n - 1, readers, shape);
      var i := FirstUnterminatedIs(commands, n - 1, shape);
    }
  }
}
