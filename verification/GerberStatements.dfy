/** What a Gerber file states about itself (src/multicad/gerber-parser.ts). */
module GerberStatements {
  // Every fact the file-level walk accumulates is a look back over the stream: the first statement
  // of a kind in file scope, or the last one, or all of them.
  import opened Characters
  import opened Collections
  import opened CoordinateFormat
  import opened GerberTokenizer
  import opened GerberText
  import opened GerberApertures
  import opened GerberFileState
  import opened GerberReport
  import opened GerberScope
  import opened Options

  // ------------------------------------------------------------------ what one command states

  function StatedUnits(command: Command): Option<Units> {
    if command.Extended? then UnitsStatement(Compact(command.body)) else None
  }

  function StatedFormat(command: Command): Option<DeclaredFormat> {
    if command.Extended? then FormatStatement(Compact(command.body)) else None
  }

  function StatedFunction(command: Command): Option<string> {
    if command.Extended? then FileFunctionStatement(command.body) else None
  }

  function StatedPolarity(command: Command): Option<Polarity> {
    if command.Extended? then PolarityStatement(Compact(command.body)) else None
  }

  /** A transform, in a command that says none of the other things. */
  function StatedTransform(command: Command, readers: Readers): Option<Transform> {
    if !command.Extended? then None
    else
      var compact := Compact(command.body);
      if StartsWith(compact, "AM") || IsDefinition(compact) || IsBlockBoundary(compact) then None
      else if UnitsStatement(compact).Some? || FormatStatement(compact).Some? then None
      else if PolarityStatement(compact).Some? then None
      else readers.transform(compact)
  }

  function CodeOfWord(command: Command): Option<nat> {
    match WordOf(command)
    case None => None
    case Some(compact) => LeadingGCode(compact)
  }

  function LegacyUnitsIn(command: Command): Option<Units> {
    match CodeOfWord(command)
    case Some(70) => Some(Inches)
    case Some(71) => Some(Millimetres)
    case _ => None
  }

  function LegacyModeIn(command: Command): Option<CoordinateMode> {
    match CodeOfWord(command)
    case Some(90) => Some(Absolute)
    case Some(91) => Some(Incremental)
    case _ => None
  }

  predicate Plots(command: Command) {
    WordOf(command).Some? && PlottedOperation(WordOf(command).value).Some?
  }

  // ------------------------------------------------------------------ looking back

  function At<T>(commands: seq<Command>, i: nat, stated: Command -> Option<T>): Option<T>
    requires i < |commands|
  {
    if InFileScope(commands, i) then stated(commands[i]) else None
  }

  /** The first statement in file scope. */
  function First<T>(commands: seq<Command>, n: nat, stated: Command -> Option<T>): Option<T>
    requires n <= |commands|
  {
    if n == 0 then None else OrElse(First(commands, n - 1, stated), At(commands, n - 1, stated))
  }

  /** The last statement in file scope. */
  function Last<T>(commands: seq<Command>, n: nat, stated: Command -> Option<T>): Option<T>
    requires n <= |commands|
  {
    if n == 0 then None else OrElse(At(commands, n - 1, stated), Last(commands, n - 1, stated))
  }

  predicate Silent<T>(commands: seq<Command>, from: nat, to: nat, stated: Command -> Option<T>)
    requires from <= to <= |commands|
  {
    forall i :: from <= i < to ==> At(commands, i, stated).None?
  }

  /** The first statement is one before which there is none. */
  lemma {:induction false} FirstIs<T>(commands: seq<Command>, n: nat, stated: Command -> Option<T>) returns (i: nat)
    requires n <= |commands|
    ensures i <= n && Silent(commands, 0, i, stated)
    ensures First(commands, n, stated) == if i < n then At(commands, i, stated) else None
    ensures i < n ==> At(commands, i, stated).Some?
  {
    i := 0;
    if n > 0 {
      i := FirstIs(commands, n - 1, stated);
      if i == n - 1 && At(commands, i, stated).None? {
        i := n;
      }
    }
  }

  /** The last statement is one after which there is none. */
  lemma {:induction false} LastIs<T>(commands: seq<Command>, n: nat, stated: Command -> Option<T>) returns (i: nat)
    requires n <= |commands|
    ensures i <= n && Silent(commands, i, n, stated)
    ensures Last(commands, n, stated) == if i > 0 then At(commands, i - 1, stated) else None
    ensures i > 0 ==> At(commands, i - 1, stated).Some?
  {
    i := n;
    if n > 0 && At(commands, n - 1, stated).None? {
      i := LastIs(commands, n - 1, stated);
    }
  }

  function TransformReading(readers: Readers): Command -> Option<Transform> {
    (command: Command) => StatedTransform(command, readers)
  }

  function WithTransform(transforms: seq<Transform>, stated: Option<Transform>): seq<Transform> {
    if stated.Some? && stated.value !in transforms then transforms + [stated.value] else transforms
  }

  /** The transforms stated in file scope, each where it was first. */
  function Transforms(commands: seq<Command>, n: nat, readers: Readers): seq<Transform>
    requires n <= |commands|
  {
    if n == 0 then []
    else WithTransform(Transforms(commands, n - 1, readers), At(commands, n - 1, TransformReading(readers)))
  }

  /** Exactly those stated in file scope, each once. */
  lemma {:induction false} TransformsAreThoseStated(commands: seq<Command>, n: nat, readers: Readers)
    requires n <= |commands|
    ensures NoDuplicates(Transforms(commands, n, readers))
    ensures forall t :: t in Transforms(commands, n, readers)
                        <==> exists i :: 0 <= i < n && At(commands, i, TransformReading(readers)) == Some(t)
  {
    if n > 0 {
      TransformsAreThoseStated(commands, n - 1, readers);
    }
  }

  function PolarityBefore(commands: seq<Command>, n: nat): Polarity
    requires n <= |commands|
  {
    var last := Last(commands, n, StatedPolarity);
    if last.Some? then last.value else Dark
  }

  /** An operation in file scope under clear polarity. */
  predicate ErasesAt(commands: seq<Command>, i: nat)
    requires i < |commands|
  {
    InFileScope(commands, i) && Plots(commands[i]) && PolarityBefore(commands, i).Clear?
  }

  predicate ErasesBefore(commands: seq<Command>, n: nat)
    requires n <= |commands|
  {
    exists i :: 0 <= i < n && ErasesAt(commands, i)
  }

  /** All a file states about itself, by looking back. */
  function FactsStated(commands: seq<Command>, n: nat, readers: Readers): FileFacts
    requires n <= |commands|
  {
    FileFacts(First(commands, n, StatedUnits), Last(commands, n, LegacyUnitsIn),
              First(commands, n, StatedFormat), Last(commands, n, LegacyModeIn),
              First(commands, n, StatedFunction), Transforms(commands, n, readers), PolarityBefore(commands, n),
              ErasesBefore(commands, n), FileWords(commands, n))
  }

  // ------------------------------------------------------------------ one more command

  /** What a command in file scope adds to the facts. */
  function WithCommand(facts: FileFacts, command: Command, readers: Readers): FileFacts {
    FileFacts(OrElse(facts.declaredUnits, StatedUnits(command)), OrElse(LegacyUnitsIn(command), facts.legacyUnits),
              OrElse(facts.declaredFormat, StatedFormat(command)), OrElse(LegacyModeIn(command), facts.legacyMode),
              OrElse(facts.fileFunction, StatedFunction(command)),
              WithTransform(facts.transforms, StatedTransform(command, readers)),
              if StatedPolarity(command).Some? then StatedPolarity(command).value else facts.polarity,
              facts.plottedUnderClearPolarity || (facts.polarity.Clear? && Plots(command)),
              facts.wordCommands + if WordOf(command).Some? then [WordOf(command).value] else [])
  }

  lemma {:induction false} TrimStartKeepsFirst(text: string)
    ensures TrimStart(text) != "" ==> Compact(text) != "" && Compact(text)[0] == TrimStart(text)[0]
  {
    if text != "" && IsSpace(text[0]) {
      TrimStartKeepsFirst(text[1..]);
    }
  }

  lemma {:induction false} TrimEndIsPrefix(text: string)
    ensures TrimEnd(text) <= text
  {
    if text != "" && IsSpace(text[|text| - 1]) {
      TrimEndIsPrefix(text[..|text| - 1]);
    }
  }

  /** A file function is stated by a command that says nothing else. */
  lemma FunctionStatementStarts(body: string)
    requires FileFunctionStatement(body).Some?
    ensures Compact(body) != "" && Compact(body)[0] == 'T'
  {
    TrimStartKeepsFirst(body);
    TrimEndIsPrefix(TrimStart(body));
    assert Trim(body)[0] == FILE_FUNCTION[0] == 'T';
  }

  lemma StatementStarts(compact: string)
    ensures UnitsStatement(compact).Some? ==> compact[0] == 'M'
    ensures FormatStatement(compact).Some? ==> compact[0] == 'F'
    ensures PolarityStatement(compact).Some? ==> compact[0] == 'L'
    ensures IsDefinition(compact) || IsBlockBoundary(compact) || StartsWith(compact, "AM") ==> compact[0] == 'A'
  {}

  lemma ParameterFacts(facts: FileFacts, body: string, readers: Readers)
    requires var compact := Compact(body);
             !StartsWith(compact, "AM") && !IsDefinition(compact) && !IsBlockBoundary(compact)
    ensures WithParameter(facts, body, readers) == WithCommand(facts, Command.Extended(body), readers)
  {
    StatementStarts(Compact(body));
    if FileFunctionStatement(body).Some? {
      FunctionStatementStarts(body);
    }
    assert facts.wordCommands + [] == facts.wordCommands;
  }

  lemma ApertureFacts(facts: FileFacts, body: string, readers: Readers)
    requires var compact := Compact(body);
             StartsWith(compact, "AM") || IsDefinition(compact) || IsBlockBoundary(compact)
    ensures WithCommand(facts, Command.Extended(body), readers) == facts
  {
    StatementStarts(Compact(body));
    if FileFunctionStatement(body).Some? {
      FunctionStatementStarts(body);
    }
    assert facts.wordCommands + [] == facts.wordCommands;
  }

  lemma OtherFacts(facts: FileFacts, command: Command, readers: Readers)
    requires !command.Extended? && WordOf(command).None?
    ensures WithCommand(facts, command, readers) == facts
  {
    assert facts.wordCommands + [] == facts.wordCommands;
  }

  lemma PlottedWordFacts(facts: FileFacts, command: Command, readers: Readers)
    requires WordOf(command).Some?
    ensures WithPlottedWord(facts, WordOf(command).value) == WithCommand(facts, command, readers)
  {}

  /** A step adds to the facts what its command states, in file scope, and nothing else. */
  lemma StepFacts(walk: Walk, command: Command, readers: Readers)
    requires !walk.ended
    ensures Step(walk, command, readers).facts
         == if Insides(walk.ledger).None? then WithCommand(walk.facts, command, readers) else walk.facts
  {
    match command {
      case Unterminated(shape, body) => OtherFacts(walk.facts, command, readers);
      case Extended(body) =>
        var compact := Compact(body);
        if StartsWith(compact, "AM") || IsDefinition(compact) || IsBlockBoundary(compact) {
          ApertureFacts(walk.facts, body, readers);
        } else {
          ParameterFacts(walk.facts, body, readers);
        }
      case Word(body) =>
        if WordOf(command).Some? {
          PlottedWordFacts(walk.facts, command, readers);
        } else {
          OtherFacts(walk.facts, command, readers);
        }
    }
  }

  lemma StatedOneMore(commands: seq<Command>, n: nat, readers: Readers)
    requires n < |commands|
    ensures FactsStated(commands, n + 1, readers)
         == if InFileScope(commands, n) then WithCommand(FactsStated(commands, n, readers), commands[n], readers)
            else FactsStated(commands, n, readers)
  {
    ErasesOneMore(commands, n);
    WordsStatedOneMore(commands, n);
    var here := InFileScope(commands, n);
    assert At(commands, n, TransformReading(readers))
      == if here then StatedTransform(commands[n], readers) else None;
  }

  lemma ErasesOneMore(commands: seq<Command>, n: nat)
    requires n < |commands|
    ensures ErasesBefore(commands, n + 1) == (ErasesBefore(commands, n) || ErasesAt(commands, n))
  {}

  lemma WordsStatedOneMore(commands: seq<Command>, n: nat)
    requires n < |commands|
    ensures FileWords(commands, n + 1)
         == FileWords(commands, n) + if InFileScope(commands, n) && WordOf(commands[n]).Some?
                                     then [WordOf(commands[n]).value] else []
  {}

  /** The facts of a run are what the file states in its own scope: units, format and file function
      as first stated; the legacy units and mode, and the polarity, as last stated; each transform
      stated; whether anything was plotted while the last polarity was clear; and the words. */
  lemma {:induction false} FactsAreWhatTheFileStates(
    walks: seq<Walk>, commands: seq<Command>, n: nat, readers: Readers)
    requires IsRun(walks, commands, readers) && n <= |commands|
    ensures walks[n].facts == FactsStated(commands, n, readers)
  {
    if n > 0 {
      FactsAreWhatTheFileStates(walks, commands, n - 1, readers);
      FactsOneMore(walks, commands, n - 1, readers);
      StatedOneMore(commands, n - 1, readers);
    }
  }

  /** In particular the artwork is read from exactly the file's own words, in order. */
  lemma WordsAreTheFilesOwn(walks: seq<Walk>, commands: seq<Command>, n: nat, readers: Readers)
    requires IsRun(walks, commands, readers) && n <= |commands|
    ensures walks[n].facts.wordCommands == FileWords(commands, n)
  {
    FactsAreWhatTheFileStates(walks, commands, n, readers);
  }

  /** And the declared units are the first the file states, and none only if it states none. */
  lemma UnitsAreTheFirstStated(walks: seq<Walk>, commands: seq<Command>, n: nat, readers: Readers)
    requires IsRun(walks, commands, readers) && n <= |commands|
    ensures match walks[n].facts.declaredUnits
            case Some(units) =>
              exists i :: 0 <= i < n && At(commands, i, StatedUnits) == Some(units)
                          && Silent(commands, 0, i, StatedUnits)
            case None => Silent(commands, 0, n, StatedUnits)
  {
    FactsAreWhatTheFileStates(walks, commands, n, readers);
    var i := FirstIs(commands, n, StatedUnits);
  }

  lemma FactsOneMore(walks: seq<Walk>, commands: seq<Command>, n: nat, readers: Readers)
    requires IsRun(walks, commands, readers) && n < |commands|
    ensures walks[n + 1].facts
         == if InFileScope(commands, n) then WithCommand(walks[n].facts, commands[n], readers) else walks[n].facts
  {
    WalkIsWhereTheBoundariesSay(walks, commands, n, readers);
    assert Steps(walks, commands, readers, n);
    if !walks[n].ended {
      StepFacts(walks[n], commands[n], readers);
    }
  }
}
