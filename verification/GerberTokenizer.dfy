/** The Gerber tokenizer (src/multicad/gerber-parser.ts), with recovery at line breaks. */
module GerberTokenizer {
  // A file is `%...%` extended commands and the `*`-terminated words between them. The scanners are
  // index loops; what they compute is stated by the functions before them.

  datatype Shape = ExtendedShape | WordShape

  /** A command without its terminator, or the text of one that was never terminated. */
  datatype Command =
    | Extended(body: string)
    | Word(body: string)
    | Unterminated(shape: Shape, body: string)

  datatype CommandEnd = Terminated(end: nat) | StoppedAt(at: nat)

  predicate IsLineBreak(c: char) { c == '\r' || c == '\n' }

  predicate IsBlank(c: char) { c == ' ' || c == '\t' || c == '\U{0C}' || c == '\U{0B}' || IsLineBreak(c) }

  // ------------------------------------------------------------------ the scanners' results

  /** The next line break at or after an index, or the end of the text. */
  function LineBreakFrom(content: string, i: nat): (at: nat)
    requires i <= |content|
    ensures i <= at <= |content|
    ensures at < |content| ==> IsLineBreak(content[at])
    decreases |content| - i
  {
    if i == |content| || IsLineBreak(content[i]) then i else LineBreakFrom(content, i + 1)
  }

  /** The first index at or after `i` whose character ends the scan, or the end of the text. */
  function ExtendedStop(content: string, i: nat, spansLines: bool): (at: nat)
    requires i <= |content|
    ensures i <= at <= |content|
    ensures at < |content| ==> content[at] == '%' || (!spansLines && IsLineBreak(content[at]))
    decreases |content| - i
  {
    if i == |content| || content[i] == '%' || (!spansLines && IsLineBreak(content[i])) then i
    else ExtendedStop(content, i + 1, spansLines)
  }

  function ExtendedEnd(content: string, start: nat, spansLines: bool): CommandEnd
    requires start < |content|
  {
    var at := ExtendedStop(content, start + 1, spansLines);
    if at == |content| then StoppedAt(LineBreakFrom(content, start))
    else if content[at] == '%' then Terminated(at)
    else StoppedAt(at)
  }

  function WordStop(content: string, i: nat): (at: nat)
    requires i <= |content|
    ensures i <= at <= |content|
    ensures at < |content| ==> content[at] == '*' || content[at] == '%' || IsLineBreak(content[at])
    decreases |content| - i
  {
    if i == |content| || content[i] == '*' || content[i] == '%' || IsLineBreak(content[i]) then i
    else WordStop(content, i + 1)
  }

  function WordEnd(content: string, start: nat): CommandEnd
    requires start <= |content|
  {
    var at := WordStop(content, start);
    if at < |content| && content[at] == '*' then Terminated(at) else StoppedAt(at)
  }

  /** Where the white space from an index on ends. */
  function BlankEnd(content: string, i: nat): (at: nat)
    requires i <= |content|
    ensures i <= at <= |content|
    ensures at < |content| ==> !IsBlank(content[at])
    decreases |content| - i
  {
    if i == |content| || !IsBlank(content[i]) then i else BlankEnd(content, i + 1)
  }

  /** An aperture macro, whose body may span lines. */
  predicate IsMacroAt(content: string, index: nat) {
    && index + 2 < |content|
    && (content[index + 1] == 'A' || content[index + 1] == 'a')
    && (content[index + 2] == 'M' || content[index + 2] == 'm')
  }

  /** A command and the index after it. */
  datatype Scanned = Scanned(command: Command, next: nat)

  function CommandAt(content: string, index: nat): (scanned: Scanned)
    requires index < |content| && !IsBlank(content[index])
    ensures index < scanned.next <= |content|
  {
    if content[index] == '%' then
      match ExtendedEnd(content, index, IsMacroAt(content, index))
      case Terminated(end) => Scanned(Extended(content[index + 1..end]), end + 1)
      case StoppedAt(at) => Scanned(Unterminated(ExtendedShape, content[index..at]), at)
    else
      match WordEnd(content, index)
      case Terminated(end) => Scanned(Word(content[index..end]), end + 1)
      case StoppedAt(at) => Scanned(Unterminated(WordShape, content[index..at]), at)
  }

  /** The commands from an index on. */
  function CommandsFrom(content: string, index: nat): seq<Command>
    requires index <= |content|
    decreases |content| - index
  {
    var start := BlankEnd(content, index);
    if start == |content| then []
    else
      var scanned := CommandAt(content, start);
      [scanned.command] + CommandsFrom(content, scanned.next)
  }

  // ------------------------------------------------------------------ the program

  method NextLineBreak(content: string, start: nat) returns (at: nat)
    requires start <= |content|
    ensures at == LineBreakFrom(content, start)
  {
    for index := start to |content|
      invariant LineBreakFrom(content, index) == LineBreakFrom(content, start)
    {
      if IsLineBreak(content[index]) {
        return index;
      }
    }
    return |content|;
  }

  method EndOfExtendedCommand(content: string, start: nat, spansLines: bool) returns (end: CommandEnd)
    requires start < |content|
    ensures end == ExtendedEnd(content, start, spansLines)
  {
    for index := start + 1 to |content|
      invariant ExtendedStop(content, index, spansLines) == ExtendedStop(content, start + 1, spansLines)
    {
      var c := content[index];
      if c == '%' {
        return Terminated(index);
      }
      if !spansLines && IsLineBreak(c) {
        return StoppedAt(index);
      }
    }
    var at := NextLineBreak(content, start);
    return StoppedAt(at);
  }

  method EndOfWordCommand(content: string, start: nat) returns (end: CommandEnd)
    requires start <= |content|
    ensures end == WordEnd(content, start)
  {
    for index := start to |content|
      invariant WordStop(content, index) == WordStop(content, start)
    {
      var c := content[index];
      if c == '*' {
        return Terminated(index);
      }
      if c == '%' || IsLineBreak(c) {
        return StoppedAt(index);
      }
    }
    return StoppedAt(|content|);
  }

  /** One command, which the source reads in the body of its main loop. */
  method ScanCommand(content: string, start: nat) returns (command: Command, next: nat)
    requires start < |content| && !IsBlank(content[start])
    ensures Scanned(command, next) == CommandAt(content, start)
  {
    if content[start] == '%' {
      var spansLines := IsMacroAt(content, start);
      var end := EndOfExtendedCommand(content, start, spansLines);
      if end.Terminated? {
        return Extended(content[start + 1..end.end]), end.end + 1;
      }
      return Unterminated(ExtendedShape, content[start..end.at]), end.at;
    }
    var end := EndOfWordCommand(content, start);
    if end.Terminated? {
      return Word(content[start..end.end]), end.end + 1;
    }
    return Unterminated(WordShape, content[start..end.at]), end.at;
  }

  method TokenizeGerber(content: string) returns (commands: seq<Command>)
    ensures commands == CommandsFrom(content, 0)
  {
    commands := [];
    var index: nat := 0;
    while index < |content|
      invariant index <= |content|
      invariant CommandsFrom(content, 0) == commands + CommandsFrom(content, index)
    {
      ghost var from := index;
      while index < |content| && IsBlank(content[index])
        invariant from <= index <= |content|
        invariant BlankEnd(content, index) == BlankEnd(content, from)
      {
        index := index + 1;
      }
      if index >= |content| {
        break;
      }
      var command, next := ScanCommand(content, index);
      assert CommandsFrom(content, from) == [command] + CommandsFrom(content, next);
      assert commands + ([command] + CommandsFrom(content, next)) == commands + [command] + CommandsFrom(content, next);
      commands := commands + [command];
      index := next;
    }
    assert commands + [] == commands;
  }
}
