/** Scope in the file-level state walk: what is written inside an aperture block stays there,
    so a stream shows the same of itself with or without the bodies of its blocks, whatever
    evidence about the blocks themselves those bodies leave behind. */
module GerberScope {
  import opened GerberTokenizer
  import opened CoordinateFormat
  import opened GerberText
  import opened Options
  import opened GerberApertures
  import opened GerberFileState

  // ------------------------------------------------------------------ block boundaries

  predicate IsBoundary(command: Command) {
    command.Extended? && IsBlockBoundary(Compact(command.body))
  }

  predicate ClosesBlock(command: Command) {
    command.Extended? && Compact(command.body) == BLOCK_END
  }

  /** The last boundary among the first `n` commands, if it opened a block: the block's code. */
  function BlockBefore(commands: seq<Command>, n: nat): Option<Option<nat>>
    requires n <= |commands|
  {
    if n == 0 then None else BlockAfter(BlockBefore(commands, n - 1), commands[n - 1])
  }

  function Insides(ledger: Ledger): Option<Option<nat>> {
    match ledger.block
    case None => None
    case Some(block) => Some(block.code)
  }

  /** A terminated command of a block body. */
  predicate IsBodyCommand(command: Command) { !command.Unterminated? && !IsBoundary(command) }

  /** The stream without its block bodies. */
  function WithoutBodies(commands: seq<Command>, inside: bool): seq<Command> {
    if commands == [] then []
    else
      var first := commands[0];
      var after := if IsBoundary(first) then !ClosesBlock(first) else inside;
      (if inside && IsBodyCommand(first) then [] else [first]) + WithoutBodies(commands[1..], after)
  }

  // ------------------------------------------------------------------ what a file shows of itself

  function FileProblems(problems: seq<Problem>): seq<Problem> {
    if problems == [] then []
    else
      var last := problems[|problems| - 1];
      FileProblems(problems[..|problems| - 1]) + (if last.inBlock then [] else [last])
  }

  /** Everything but the open block's own contents and the evidence about block bodies. */
  datatype View = View(facts: FileFacts, file: Table, block: Option<Option<nat>>, selected: Option<nat>,
                       placements: Placements, undefinedInFile: seq<nat>, problems: seq<Problem>,
                       extended: Evidence, word: Evidence, ended: bool)

  function LedgerView(facts: FileFacts, ledger: Ledger, extended: Evidence, word: Evidence, ended: bool): View {
    View(facts, ledger.file, Insides(ledger), ledger.selected, ledger.placements, ledger.undefinedInFile,
         FileProblems(ledger.problems), extended, word, ended)
  }

  function ViewOf(walk: Walk): View { LedgerView(walk.facts, walk.ledger, walk.extended, walk.word, walk.ended) }

  predicate SameLedgerView(a: Ledger, b: Ledger) {
    && a.file == b.file && Insides(a) == Insides(b) && a.selected == b.selected && a.placements == b.placements
    && a.undefinedInFile == b.undefinedInFile && FileProblems(a.problems) == FileProblems(b.problems)
  }

  lemma FileProblemsAppend(problems: seq<Problem>, problem: Problem)
    ensures FileProblems(problems + [problem]) == FileProblems(problems) + if problem.inBlock then [] else [problem]
  {
    assert (problems + [problem])[..|problems|] == problems;
  }

  lemma {:induction false} ReportedOfFile(problems: seq<Problem>, problem: Problem)
    requires !problem.inBlock
    ensures Reported(problems, problem) == Reported(FileProblems(problems), problem)
    decreases |problems|
  {
    if problems != [] {
      var front, last := problems[..|problems| - 1], problems[|problems| - 1];
      ReportedOfFile(front, problem);
      assert problems == front + [last];
      FileProblemsAppend(front, last);
      assert Reported(problems, problem) == (Reported(front, problem) || last.SameScope(problem));
      assert Reported(FileProblems(problems), problem)
          == (Reported(FileProblems(front), problem) || last.SameScope(problem));
    }
  }

  lemma ProblemView(a: Ledger, b: Ledger, code: nat, kind: ProblemKind)
    requires SameLedgerView(a, b)
    ensures SameLedgerView(WithProblem(a, code, kind), WithProblem(b, code, kind))
    ensures WithProblem(a, code, kind).block == a.block
  {
    var problem := Problem(code, kind, a.block.Some?, a.BlockCode());
    FileProblemsAppend(a.problems, problem);
    FileProblemsAppend(b.problems, problem);
    if a.block.None? {
      ReportedOfFile(a.problems, problem);
      ReportedOfFile(b.problems, problem);
      assert Reported(a.problems, problem) == Reported(b.problems, problem);
    }
  }

  lemma DeclarationView(a: Ledger, b: Ledger, declaration: Declaration, read: DefinitionReader)
    requires SameLedgerView(a, b)
    ensures SameLedgerView(WithDeclaration(a, declaration, read), WithDeclaration(b, declaration, read))
  {
    match declaration {
      case NoCode =>
      case Unreadable(code) => ProblemView(a, b, code, Malformed);
      case Declared(code, template, name, parameters) =>
        if code < FIRST_APERTURE_CODE {
          ProblemView(a, b, code, Malformed);
        } else {
          var reading := read(code, template, name, parameters);
          if reading.Unread? {
            ProblemView(a, b, code, reading.kind);
          }
        }
    }
  }

  lemma BoundaryView(a: Ledger, b: Ledger, compact: string)
    requires SameLedgerView(a, b)
    ensures SameLedgerView(WithBoundary(a, compact), WithBoundary(b, compact))
  {
    if compact == BLOCK_END && a.BlockCode().Some? && a.BlockCode().value < FIRST_APERTURE_CODE {
      ProblemView(a.(block := None), b.(block := None), a.BlockCode().value, Malformed);
    }
  }

  /** A command does the same to what two walks show, whatever they keep of block bodies. */
  lemma StepView(a: Walk, b: Walk, command: Command, readers: Readers)
    requires ViewOf(a) == ViewOf(b)
    ensures ViewOf(Step(a, command, readers)) == ViewOf(Step(b, command, readers))
  {
    match command {
      case Unterminated(shape, body) =>
      case Extended(body) => ExtendedView(a.ledger, b.ledger, body, readers);
      case Word(body) => WordView(a.ledger, b.ledger, body);
    }
  }

  lemma ExtendedView(a: Ledger, b: Ledger, body: string, readers: Readers)
    requires SameLedgerView(a, b)
    ensures SameLedgerView(ExtendedLedger(a, body, readers), ExtendedLedger(b, body, readers))
  {
    var compact := Compact(body);
    if IsDefinition(compact) {
      DeclarationView(a, b, ReadDeclaration(compact), readers.definition);
    } else if IsBlockBoundary(compact) {
      BoundaryView(a, b, compact);
    }
  }

  lemma WordView(a: Ledger, b: Ledger, body: string)
    requires SameLedgerView(a, b)
    ensures EndsFile(a, body) == EndsFile(b, body)
    ensures SameLedgerView(WordLedger(a, body), WordLedger(b, body))
  {}

  /** A body command changes nothing the file shows. */
  lemma BodyStep(walk: Walk, command: Command, readers: Readers)
    requires walk.ledger.block.Some? && IsBodyCommand(command) && !walk.ended
    ensures ViewOf(Step(walk, command, readers)) == ViewOf(walk)
  {
    if command.Extended? && IsDefinition(Compact(command.body)) {
      BlockDeclaration(walk.ledger, ReadDeclaration(Compact(command.body)), readers.definition);
    }
  }

  lemma BlockProblem(ledger: Ledger, code: nat, kind: ProblemKind)
    requires ledger.block.Some?
    ensures SameLedgerView(WithProblem(ledger, code, kind), ledger)
  {
    FileProblemsAppend(ledger.problems, Problem(code, kind, true, ledger.BlockCode()));
  }

  lemma BlockDeclaration(ledger: Ledger, declaration: Declaration, read: DefinitionReader)
    requires ledger.block.Some?
    ensures SameLedgerView(WithDeclaration(ledger, declaration, read), ledger)
  {
    match declaration {
      case NoCode =>
      case Unreadable(code) => BlockProblem(ledger, code, Malformed);
      case Declared(code, template, name, parameters) =>
        BlockProblem(ledger, code, Malformed);
        BlockProblem(ledger, code, Unsupported);
    }
  }

  // ------------------------------------------------------------------ noninterference

  function BlockAfter(block: Option<Option<nat>>, command: Command): Option<Option<nat>> {
    if !IsBoundary(command) then block
    else if ClosesBlock(command) then None
    else Some(BlockNamed(Compact(command.body)))
  }

  lemma DeclarationKeepsBlock(ledger: Ledger, declaration: Declaration, read: DefinitionReader)
    ensures Insides(WithDeclaration(ledger, declaration, read)) == Insides(ledger)
  {}

  lemma BoundaryBlock(ledger: Ledger, compact: string)
    ensures Insides(WithBoundary(ledger, compact)) == if compact == BLOCK_END then None else Some(BlockNamed(compact))
  {}

  /** The block the walk is in is the one the boundaries say. */
  lemma StepBlock(walk: Walk, command: Command, readers: Readers)
    ensures Insides(Step(walk, command, readers).ledger) == BlockAfter(Insides(walk.ledger), command)
  {
    match command {
      case Unterminated(shape, body) =>
      case Extended(body) =>
        var compact := Compact(body);
        DeclarationKeepsBlock(walk.ledger, ReadDeclaration(compact), readers.definition);
        BoundaryBlock(walk.ledger, compact);
        assert IsBlockBoundary(compact) ==> compact[1] == 'B';
        assert IsDefinition(compact) ==> compact[1] == 'D';
        assert StartsWith(compact, "AM") ==> compact[1] == 'M';
      case Word(body) =>
    }
  }

  /** Dropping every block body changes nothing a file shows of itself. */
  lemma {:induction false} BodiesDoNotShow(a: Walk, b: Walk, commands: seq<Command>, readers: Readers)
    requires ViewOf(a) == ViewOf(b)
    ensures ViewOf(Walked(a, commands, readers))
         == ViewOf(Walked(b, WithoutBodies(commands, a.ledger.block.Some?), readers))
    decreases |commands|
  {
    if commands != [] && !a.ended {
      var first, rest := commands[0], commands[1..];
      var inside := a.ledger.block.Some?;
      var next := Step(a, first, readers);
      StepBlock(a, first, readers);
      var kept := WithoutBodies(rest, next.ledger.block.Some?);
      if inside && IsBodyCommand(first) {
        BodyStep(a, first, readers);
        BodiesDoNotShow(next, b, rest, readers);
        assert WithoutBodies(commands, inside) == [] + kept == kept;
      } else {
        StepView(a, b, first, readers);
        BodiesDoNotShow(next, Step(b, first, readers), rest, readers);
        OneMore(b, first, kept, readers);
      }
    }
  }

  lemma OneMore(walk: Walk, first: Command, rest: seq<Command>, readers: Readers)
    requires !walk.ended
    ensures Walked(walk, [first] + rest, readers) == Walked(Step(walk, first, readers), rest, readers)
  {
    assert ([first] + rest)[1..] == rest;
  }

  /** Two streams that differ only inside block bodies give the same units, format, mode, file
      function, transforms, polarity flag, word commands, file apertures, selection,
      placements, file-scope problems and malformed-command evidence. */
  lemma BlockScopeNoninterference(a: seq<Command>, b: seq<Command>, readers: Readers)
    requires WithoutBodies(a, false) == WithoutBodies(b, false)
    ensures ViewOf(Walked(WALK_START, a, readers)) == ViewOf(Walked(WALK_START, b, readers))
  {
    BodiesDoNotShow(WALK_START, WALK_START, a, readers);
    BodiesDoNotShow(WALK_START, WALK_START, b, readers);
  }

  predicate IsBody(commands: seq<Command>) { forall c :: c in commands ==> IsBodyCommand(c) }

  lemma {:induction false} BodyIsDropped(body: seq<Command>, rest: seq<Command>)
    requires IsBody(body)
    ensures WithoutBodies(body + rest, true) == WithoutBodies(rest, true)
    decreases |body|
  {
    if body != [] {
      assert body[0] in body;
      assert (body + rest)[1..] == body[1..] + rest;
      BodyIsDropped(body[1..], rest);
    } else {
      assert body + rest == rest;
    }
  }

  lemma {:induction false} SamePrefixSkeleton(before: seq<Command>, a: seq<Command>, b: seq<Command>, inside: bool)
    requires forall i :: WithoutBodies(a, i) == WithoutBodies(b, i)
    ensures WithoutBodies(before + a, inside) == WithoutBodies(before + b, inside)
    decreases |before|
  {
    if before == [] {
      assert before + a == a && before + b == b;
    } else {
      var first := before[0];
      assert (before + a)[1..] == before[1..] + a && (before + b)[1..] == before[1..] + b;
      SamePrefixSkeleton(before[1..], a, b, if IsBoundary(first) then !ClosesBlock(first) else inside);
    }
  }

  /** In particular, one block's body may be replaced by any other, wherever the block is. */
  lemma BodyMayBeReplaced(before: seq<Command>, open: Command, body: seq<Command>, other: seq<Command>,
                          after: seq<Command>, readers: Readers)
    requires IsBoundary(open) && !ClosesBlock(open) && IsBody(body) && IsBody(other)
    ensures ViewOf(Walked(WALK_START, before + ([open] + (body + after)), readers))
         == ViewOf(Walked(WALK_START, before + ([open] + (other + after)), readers))
  {
    BodyIsDropped(body, after);
    BodyIsDropped(other, after);
    assert ([open] + (body + after))[1..] == body + after && ([open] + (other + after))[1..] == other + after;
    SamePrefixSkeleton(before, [open] + (body + after), [open] + (other + after), false);
    BlockScopeNoninterference(before + ([open] + (body + after)), before + ([open] + (other + after)), readers);
  }
}
