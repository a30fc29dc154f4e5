/** What the Gerber tokenizer promises of a whole text: nothing is lost or invented, a
    missing delimiter costs one command and not a later line, and writing commands out and
    reading them back is the identity. */
module GerberStream {
  import opened GerberTokenizer

  // ------------------------------------------------------------------ what a scan passes over

  lemma {:induction false} BlankEndPasses(content: string, i: nat)
    requires i <= |content|
    ensures AllBlank(content[i..BlankEnd(content, i)])
    decreases |content| - i
  {
    var end := BlankEnd(content, i);
    if i < end {
      BlankEndPasses(content, i + 1);
      assert content[i..end] == [content[i]] + content[i + 1..end];
    }
  }

  lemma {:induction false} LineBreakPasses(content: string, i: nat)
    requires i <= |content|
    ensures forall k :: i <= k < LineBreakFrom(content, i) ==> !IsLineBreak(content[k])
    decreases |content| - i
  {
    if i < LineBreakFrom(content, i) {
      LineBreakPasses(content, i + 1);
    }
  }

  lemma {:induction false} ExtendedStopPasses(content: string, i: nat, spansLines: bool)
    requires i <= |content|
    ensures forall k :: i <= k < ExtendedStop(content, i, spansLines) ==>
              content[k] != '%' && (spansLines || !IsLineBreak(content[k]))
    decreases |content| - i
  {
    if i < ExtendedStop(content, i, spansLines) {
      ExtendedStopPasses(content, i + 1, spansLines);
    }
  }

  lemma {:induction false} WordStopPasses(content: string, i: nat)
    requires i <= |content|
    ensures forall k :: i <= k < WordStop(content, i) ==>
              content[k] != '*' && content[k] != '%' && !IsLineBreak(content[k])
    decreases |content| - i
  {
    if i < WordStop(content, i) {
      WordStopPasses(content, i + 1);
    }
  }

  // ------------------------------------------------------------------ nothing is lost

  /** A command as the file wrote it. */
  function Raw(command: Command): string {
    match command
    case Extended(body) => "%" + body + "%"
    case Word(body) => body + "*"
    case Unterminated(_, body) => body
  }

  predicate AllBlank(text: string) { forall c :: c in text ==> IsBlank(c) }

  /** White space and commands by turns. */
  function Interleaved(gaps: seq<string>, commands: seq<Command>): string
    requires |gaps| == |commands| + 1
  {
    if commands == [] then gaps[0] else gaps[0] + Raw(commands[0]) + Interleaved(gaps[1..], commands[1..])
  }

  /** The white space the tokenizer skips. */
  function GapsFrom(content: string, index: nat): (gaps: seq<string>)
    requires index <= |content|
    ensures |gaps| == |CommandsFrom(content, index)| + 1
    ensures forall g :: g in gaps ==> AllBlank(g)
    decreases |content| - index
  {
    BlankEndPasses(content, index);
    var start := BlankEnd(content, index);
    if start == |content| then [content[index..start]]
    else [content[index..start]] + GapsFrom(content, CommandAt(content, start).next)
  }

  lemma CommandIsItsText(content: string, start: nat)
    requires start < |content| && !IsBlank(content[start])
    ensures var scanned := CommandAt(content, start); Raw(scanned.command) == content[start..scanned.next]
  {
    var scanned := CommandAt(content, start);
    match scanned.command {
      case Extended(body) => BetweenEnds(content, start, scanned.next);
      case Word(body) => BeforeEnd(content, start, scanned.next);
      case Unterminated(shape, body) =>
    }
  }

  lemma BetweenEnds(content: string, i: nat, j: nat)
    requires i + 1 < j <= |content|
    ensures content[i..j] == [content[i]] + content[i + 1..j - 1] + [content[j - 1]]
  {}

  lemma BeforeEnd(content: string, i: nat, j: nat)
    requires i < j <= |content|
    ensures content[i..j] == content[i..j - 1] + [content[j - 1]]
  {}

  /** Nothing is lost: bodies, delimiters and skipped white space are the text again. */
  lemma {:induction false} StreamReassembles(content: string, index: nat)
    requires index <= |content|
    ensures Interleaved(GapsFrom(content, index), CommandsFrom(content, index)) == content[index..]
    decreases |content| - index
  {
    var start := BlankEnd(content, index);
    if start < |content| {
      var scanned := CommandAt(content, start);
      CommandIsItsText(content, start);
      StreamReassembles(content, scanned.next);
      InterleavedOneMore(content[index..start], GapsFrom(content, scanned.next), scanned.command,
                         CommandsFrom(content, scanned.next));
      ThreeParts(content, index, start, scanned.next);
    }
  }

  lemma InterleavedOneMore(gap: string, gaps: seq<string>, command: Command, commands: seq<Command>)
    requires |gaps| == |commands| + 1
    ensures Interleaved([gap] + gaps, [command] + commands) == gap + Raw(command) + Interleaved(gaps, commands)
  {
    assert ([gap] + gaps)[1..] == gaps && ([command] + commands)[1..] == commands;
  }

  lemma ThreeParts(content: string, i: nat, j: nat, k: nat)
    requires i <= j <= k <= |content|
    ensures content[i..] == content[i..j] + content[j..k] + content[k..]
  {}

  // ------------------------------------------------------------------ what a command can hold

  predicate IsMacroBody(body: string) {
    |body| >= 2 && (body[0] == 'A' || body[0] == 'a') && (body[1] == 'M' || body[1] == 'm')
  }

  predicate WithoutLineBreak(text: string) { forall c :: c in text ==> !IsLineBreak(c) }

  /** Only a terminated aperture macro spans lines, and no command holds a delimiter that
      would have ended it. */
  predicate IsClean(command: Command) {
    match command
    case Extended(body) => '%' !in body && (IsMacroBody(body) || WithoutLineBreak(body))
    case Word(body) => '*' !in body && '%' !in body && WithoutLineBreak(body)
    case Unterminated(ExtendedShape, body) => body != "" && body[0] == '%' && WithoutLineBreak(body)
    case Unterminated(WordShape, body) => body != "" && '*' !in body && '%' !in body && WithoutLineBreak(body)
  }

  lemma CommandIsClean(content: string, start: nat)
    requires start < |content| && !IsBlank(content[start])
    ensures IsClean(CommandAt(content, start).command)
  {
    if content[start] == '%' {
      ExtendedIsClean(content, start);
    } else {
      WordStopPasses(content, start);
    }
  }

  lemma ExtendedIsClean(content: string, start: nat)
    requires start < |content| && content[start] == '%'
    ensures IsClean(CommandAt(content, start).command)
  {
    var spansLines := IsMacroAt(content, start);
    var at := ExtendedStop(content, start + 1, spansLines);
    ExtendedStopPasses(content, start + 1, spansLines);
    LineBreakPasses(content, start);
    match ExtendedEnd(content, start, spansLines) {
      case Terminated(end) =>
        var body := content[start + 1..end];
        assert end == at && forall k :: 0 <= k < |body| ==> body[k] == content[start + 1 + k];
        if spansLines {
          assert IsMacroBody(body);
        }
      case StoppedAt(stop) =>
        var body := content[start..stop];
        assert forall k :: 0 <= k < |body| ==> body[k] == content[start + k];
        assert forall k :: start <= k < stop ==> !IsLineBreak(content[k]);
    }
  }

  /** A missing delimiter never swallows a later line. */
  lemma {:induction false} StreamIsClean(content: string, index: nat)
    requires index <= |content|
    ensures forall c :: c in CommandsFrom(content, index) ==> IsClean(c)
    decreases |content| - index
  {
    var start := BlankEnd(content, index);
    if start < |content| {
      CommandIsClean(content, start);
      StreamIsClean(content, CommandAt(content, start).next);
    }
  }

  // ------------------------------------------------------------------ reading back what was written

  /** A terminated command that can stand in a file. */
  predicate IsWritable(command: Command) {
    && !command.Unterminated? && IsClean(command)
    && (command.Word? && command.body != "" ==> !IsBlank(command.body[0]))
  }

  lemma {:induction false} BlankEndIs(content: string, index: nat, end: nat)
    requires index <= end <= |content|
    requires forall k :: index <= k < end ==> IsBlank(content[k])
    requires end < |content| ==> !IsBlank(content[end])
    ensures BlankEnd(content, index) == end
    decreases end - index
  {
    if index < end {
      BlankEndIs(content, index + 1, end);
    }
  }

  lemma {:induction false} ExtendedStopIs(content: string, i: nat, spansLines: bool, end: nat)
    requires i <= end < |content| && content[end] == '%'
    requires forall k :: i <= k < end ==> content[k] != '%' && (spansLines || !IsLineBreak(content[k]))
    ensures ExtendedStop(content, i, spansLines) == end
    decreases end - i
  {
    if i < end {
      ExtendedStopIs(content, i + 1, spansLines, end);
    }
  }

  lemma {:induction false} WordStopIs(content: string, i: nat, end: nat)
    requires i <= end < |content| && content[end] == '*'
    requires forall k :: i <= k < end ==> content[k] != '*' && content[k] != '%' && !IsLineBreak(content[k])
    ensures WordStop(content, i) == end
    decreases end - i
  {
    if i < end {
      WordStopIs(content, i + 1, end);
    }
  }

  /** A written command is read as itself, whatever follows it. */
  lemma WrittenIsRead(content: string, start: nat, command: Command)
    requires IsWritable(command) && start + |Raw(command)| <= |content|
    requires content[start..start + |Raw(command)|] == Raw(command)
    ensures start < |content| && !IsBlank(content[start])
    ensures CommandAt(content, start) == Scanned(command, start + |Raw(command)|)
  {
    var raw := Raw(command);
    forall k | 0 <= k < |raw| ensures content[start + k] == raw[k] {
      assert content[start..start + |raw|][k] == content[start + k];
    }
    var end := start + |raw| - 1;
    match command {
      case Extended(body) =>
        assert forall k :: 0 <= k < |body| ==> content[start + 1 + k] == body[k] by {
          assert forall k :: 0 <= k < |body| ==> raw[1 + k] == body[k];
        }
        assert content[start] == raw[0] == '%' && content[end] == raw[|raw| - 1] == '%';
        assert content[start + 1..end] == body;
        WrittenExtendedIsRead(content, start, body, end);
      case Word(body) =>
        assert forall k :: 0 <= k < |body| ==> content[start + k] == body[k] by {
          assert forall k :: 0 <= k < |body| ==> raw[k] == body[k];
        }
        assert content[end] == raw[|raw| - 1] == '*';
        assert content[start..end] == body;
        WrittenWordIsRead(content, start, body, end);
    }
  }

  lemma WrittenExtendedIsRead(content: string, start: nat, body: string, end: nat)
    requires start < end == start + 1 + |body| < |content|
    requires content[start] == content[end] == '%' && content[start + 1..end] == body
    requires IsClean(Extended(body))
    ensures CommandAt(content, start) == Scanned(Extended(body), end + 1)
  {
    assert forall k :: start + 1 <= k < end ==> content[k] == body[k - start - 1];
    assert IsMacroAt(content, start) <==> IsMacroBody(body);
    forall k | start + 1 <= k < end
      ensures content[k] != '%' && (IsMacroAt(content, start) || !IsLineBreak(content[k]))
    {
      assert content[k] == body[k - start - 1] && body[k - start - 1] in body;
    }
    ExtendedStopIs(content, start + 1, IsMacroAt(content, start), end);
  }

  lemma WrittenWordIsRead(content: string, start: nat, body: string, end: nat)
    requires start <= end == start + |body| < |content|
    requires content[end] == '*' && content[start..end] == body
    requires IsWritable(Word(body))
    ensures !IsBlank(content[start])
    ensures CommandAt(content, start) == Scanned(Word(body), end + 1)
  {
    forall k | start <= k < end ensures content[k] != '*' && content[k] != '%' && !IsLineBreak(content[k]) {
      assert content[k] == body[k - start] && body[k - start] in body;
    }
    WordStopIs(content, start, end);
  }

  /** The text from an index on is these commands, with white space around them. */
  ghost predicate Writes(content: string, index: nat, gaps: seq<string>, commands: seq<Command>) {
    && index <= |content| && |gaps| == |commands| + 1
    && content[index..] == Interleaved(gaps, commands)
    && (forall g :: g in gaps ==> AllBlank(g))
    && (forall c :: c in commands ==> IsWritable(c))
  }

  /** Reading undoes writing: terminated commands with any white space around them are read
      back as they were written. */
  lemma {:induction false} ReadingUndoesWriting(content: string, index: nat, gaps: seq<string>, commands: seq<Command>)
    requires Writes(content, index, gaps, commands)
    ensures CommandsFrom(content, index) == commands
    decreases |commands|
  {
    if commands != [] {
      var start, next := FirstIsWritten(content, index, gaps, commands);
      ReadingUndoesWriting(content, next, gaps[1..], commands[1..]);
      FirstIsRead(content, index, start, commands[0], next, commands[1..]);
    } else {
      GapIsSkipped(content, index, gaps, commands);
      BlankEndIs(content, index, |content|);
    }
  }

  lemma FirstIsRead(content: string, index: nat, start: nat, first: Command, next: nat, rest: seq<Command>)
    requires index <= start < next == start + |Raw(first)| <= |content|
    requires forall k :: index <= k < start ==> IsBlank(content[k])
    requires IsWritable(first) && content[start..next] == Raw(first)
    requires CommandsFrom(content, next) == rest
    ensures CommandsFrom(content, index) == [first] + rest
  {
    WrittenIsRead(content, start, first);
    BlankEndIs(content, index, start);
    CommandsUnfold(content, index, start, first, next);
  }

  lemma FirstIsWritten(content: string, index: nat, gaps: seq<string>, commands: seq<Command>)
      returns (start: nat, next: nat)
    requires Writes(content, index, gaps, commands) && commands != []
    ensures index <= start < next == start + |Raw(commands[0])| <= |content|
    ensures forall k :: index <= k < start ==> IsBlank(content[k])
    ensures IsWritable(commands[0]) && content[start..next] == Raw(commands[0])
    ensures Writes(content, next, gaps[1..], commands[1..])
  {
    var gap, raw, rest := gaps[0], Raw(commands[0]), Interleaved(gaps[1..], commands[1..]);
    start := index + |gap|;
    next := start + |raw|;
    GapIsSkipped(content, index, gaps, commands);
    Cut(content, index, gap, raw, rest);
    assert commands[0] in commands;
  }

  lemma Cut(content: string, index: nat, gap: string, raw: string, rest: string)
    requires index <= |content| && content[index..] == gap + raw + rest
    ensures var next := index + |gap| + |raw|;
            next <= |content| && content[index + |gap|..next] == raw && content[next..] == rest
  {
    var start, next := index + |gap|, index + |gap| + |raw|;
    assert content[start..next] == content[index..][|gap|..|gap| + |raw|] == raw;
    assert content[next..] == content[index..][|gap| + |raw|..] == rest;
  }

  lemma GapIsSkipped(content: string, index: nat, gaps: seq<string>, commands: seq<Command>)
    requires Writes(content, index, gaps, commands)
    ensures index + |gaps[0]| <= |content|
    ensures forall k :: index <= k < index + |gaps[0]| ==> IsBlank(content[k])
    ensures commands == [] ==> index + |gaps[0]| == |content|
  {
    assert gaps[0] in gaps;
    forall k | index <= k < index + |gaps[0]| ensures k < |content| && IsBlank(content[k]) {
      assert content[index..][k - index] == gaps[0][k - index] && gaps[0][k - index] in gaps[0];
    }
  }

  // ------------------------------------------------------------------ lines are independent

  /** The commands from an index on, given where the first one starts and what it is. */
  lemma CommandsUnfold(content: string, index: nat, start: nat, command: Command, next: nat)
    requires index <= start < |content| && BlankEnd(content, index) == start
    requires CommandAt(content, start) == Scanned(command, next)
    ensures CommandsFrom(content, index) == [command] + CommandsFrom(content, next)
  {}

  /** `whole` is `b` after other text. */
  ghost predicate EndsWith(whole: string, shift: nat, b: string) {
    |whole| == shift + |b| && whole[shift..] == b
  }

  lemma SameChar(whole: string, shift: nat, b: string, i: nat)
    requires EndsWith(whole, shift, b) && i < |b|
    ensures whole[shift + i] == b[i]
  {
    assert whole[shift..][i] == b[i];
  }

  lemma SameSlice(whole: string, shift: nat, b: string, i: nat, j: nat)
    requires EndsWith(whole, shift, b) && i <= j <= |b|
    ensures whole[shift + i..shift + j] == b[i..j]
  {
    assert whole == whole[..shift] + b;
    assert (whole[..shift] + b)[shift + i..shift + j] == b[i..j];
  }

  lemma {:induction false} BlankEndShift(whole: string, shift: nat, b: string, i: nat)
    requires EndsWith(whole, shift, b) && i <= |b|
    ensures BlankEnd(whole, shift + i) == shift + BlankEnd(b, i)
    decreases |b| - i
  {
    if i < |b| {
      SameChar(whole, shift, b, i);
      BlankEndShift(whole, shift, b, i + 1);
    }
  }

  lemma {:induction false} LineBreakShift(whole: string, shift: nat, b: string, i: nat)
    requires EndsWith(whole, shift, b) && i <= |b|
    ensures LineBreakFrom(whole, shift + i) == shift + LineBreakFrom(b, i)
    decreases |b| - i
  {
    if i < |b| {
      SameChar(whole, shift, b, i);
      LineBreakShift(whole, shift, b, i + 1);
    }
  }

  lemma {:induction false} ExtendedStopShift(whole: string, shift: nat, b: string, i: nat, spansLines: bool)
    requires EndsWith(whole, shift, b) && i <= |b|
    ensures ExtendedStop(whole, shift + i, spansLines) == shift + ExtendedStop(b, i, spansLines)
    decreases |b| - i
  {
    if i < |b| {
      SameChar(whole, shift, b, i);
      ExtendedStopShift(whole, shift, b, i + 1, spansLines);
    }
  }

  lemma {:induction false} WordStopShift(whole: string, shift: nat, b: string, i: nat)
    requires EndsWith(whole, shift, b) && i <= |b|
    ensures WordStop(whole, shift + i) == shift + WordStop(b, i)
    decreases |b| - i
  {
    if i < |b| {
      SameChar(whole, shift, b, i);
      WordStopShift(whole, shift, b, i + 1);
    }
  }

  lemma MacroShift(whole: string, shift: nat, b: string, i: nat)
    requires EndsWith(whole, shift, b) && i < |b|
    ensures IsMacroAt(whole, shift + i) == IsMacroAt(b, i)
  {
    if i + 2 < |b| {
      SameChar(whole, shift, b, i + 1);
      SameChar(whole, shift, b, i + 2);
    }
  }

  lemma ExtendedCommandIs(content: string, i: nat, at: nat, next: nat)
    requires i < at <= |content| && content[i] == '%'
    requires ExtendedStop(content, i + 1, IsMacroAt(content, i)) == at
    requires next == if at == |content| then LineBreakFrom(content, i) else at
    ensures i < next
    ensures CommandAt(content, i) == if at < |content| && content[at] == '%'
                                   then Scanned(Extended(content[i + 1..at]), at + 1)
                                     else Scanned(Unterminated(ExtendedShape, content[i..next]), next)
  {}

  /** Where the scan of an extended command stops, and where the walk resumes if it must. */
  ghost predicate StopsAt(content: string, i: nat, at: nat, stop: nat) {
    && i < at <= |content| && content[i] == '%'
    && ExtendedStop(content, i + 1, IsMacroAt(content, i)) == at
    && stop == (if at == |content| then LineBreakFrom(content, i) else at)
    && i < stop <= |content|
  }

  lemma StopsShift(whole: string, shift: nat, b: string, i: nat) returns (at: nat, stop: nat)
    requires EndsWith(whole, shift, b) && i < |b| && b[i] == '%'
    ensures StopsAt(b, i, at, stop) && StopsAt(whole, shift + i, shift + at, shift + stop)
    ensures at < |b| ==> whole[shift + at] == b[at]
    ensures |whole| == shift + |b|
  {
    var spansLines := IsMacroAt(b, i);
    at := ExtendedStop(b, i + 1, spansLines);
    stop := if at == |b| then LineBreakFrom(b, i) else at;
    SameChar(whole, shift, b, i);
    MacroShift(whole, shift, b, i);
    ExtendedStopShift(whole, shift, b, i + 1, spansLines);
    LineBreakShift(whole, shift, b, i);
    if at < |b| {
      SameChar(whole, shift, b, at);
    }
  }

  lemma ExtendedShift(whole: string, shift: nat, b: string, i: nat) returns (command: Command, next: nat)
    requires EndsWith(whole, shift, b) && i < |b| && b[i] == '%'
    ensures i < next <= |b| && CommandAt(b, i) == Scanned(command, next)
    ensures !IsBlank(whole[shift + i]) && CommandAt(whole, shift + i) == Scanned(command, shift + next)
  {
    var at, stop := StopsShift(whole, shift, b, i);
    SameSlice(whole, shift, b, i + 1, at);
    SameSlice(whole, shift, b, i, stop);
    command, next := SameExtended(whole, shift, b, i, at, stop);
  }

  lemma SameExtended(whole: string, shift: nat, b: string, i: nat, at: nat, stop: nat)
      returns (command: Command, next: nat)
    requires StopsAt(b, i, at, stop) && StopsAt(whole, shift + i, shift + at, shift + stop)
    requires |whole| == shift + |b| && (at < |b| ==> whole[shift + at] == b[at])
    requires whole[shift + i + 1..shift + at] == b[i + 1..at] && whole[shift + i..shift + stop] == b[i..stop]
    ensures i < next <= |b| && CommandAt(b, i) == Scanned(command, next)
    ensures !IsBlank(whole[shift + i]) && CommandAt(whole, shift + i) == Scanned(command, shift + next)
  {
    ExtendedCommandIs(b, i, at, stop);
    ExtendedCommandIs(whole, shift + i, shift + at, shift + stop);
    if at < |b| && b[at] == '%' {
      command, next := Extended(b[i + 1..at]), at + 1;
    } else {
      command, next := Unterminated(ExtendedShape, b[i..stop]), stop;
    }
  }

  lemma WordShift(whole: string, shift: nat, b: string, i: nat)
    requires EndsWith(whole, shift, b) && i < |b| && b[i] != '%' && !IsBlank(b[i])
    ensures !IsBlank(whole[shift + i])
    ensures var alone := CommandAt(b, i); CommandAt(whole, shift + i) == Scanned(alone.command, shift + alone.next)
  {
    var at := WordStop(b, i);
    SameChar(whole, shift, b, i);
    WordStopShift(whole, shift, b, i);
    SameSlice(whole, shift, b, i, at);
    if at < |b| {
      SameChar(whole, shift, b, at);
    }
  }

  /** The first command, read alone and after other text, or that there is none. */
  lemma FirstCommandShift(whole: string, shift: nat, b: string, i: nat)
      returns (first: seq<Command>, next: nat)
    requires EndsWith(whole, shift, b) && i <= |b|
    ensures first != [] ==> i < next <= |b|
    ensures CommandsFrom(b, i) == if first == [] then [] else first + CommandsFrom(b, next)
    ensures CommandsFrom(whole, shift + i) == if first == [] then [] else first + CommandsFrom(whole, shift + next)
  {
    var start := BlanksShift(whole, shift, b, i);
    if start < |b| {
      var command, after := CommandShift(whole, shift, b, start);
      CommandsUnfold(whole, shift + i, shift + start, command, shift + after);
      CommandsUnfold(b, i, start, command, after);
      first, next := [command], after;
    } else {
      NoCommandsLeft(whole, shift + i);
      NoCommandsLeft(b, i);
      first, next := [], 0;
    }
  }

  /** Commands read after other text are the commands read alone. */
  lemma {:induction false} CommandsShift(whole: string, shift: nat, b: string, i: nat)
    requires EndsWith(whole, shift, b) && i <= |b|
    ensures CommandsFrom(whole, shift + i) == CommandsFrom(b, i)
    decreases |b| - i
  {
    var first, next := FirstCommandShift(whole, shift, b, i);
    if first != [] {
      CommandsShift(whole, shift, b, next);
    }
  }

  lemma NoCommandsLeft(content: string, i: nat)
    requires i <= |content| && BlankEnd(content, i) == |content|
    ensures CommandsFrom(content, i) == []
  {}

  lemma BlanksShift(whole: string, shift: nat, b: string, i: nat) returns (start: nat)
    requires EndsWith(whole, shift, b) && i <= |b|
    ensures i <= start <= |b| && BlankEnd(b, i) == start && BlankEnd(whole, shift + i) == shift + start
    ensures |whole| == shift + |b| && (start < |b| ==> !IsBlank(b[start]))
  {
    BlankEndShift(whole, shift, b, i);
    start := BlankEnd(b, i);
  }

  lemma CommandShift(whole: string, shift: nat, b: string, start: nat) returns (command: Command, next: nat)
    requires EndsWith(whole, shift, b) && start < |b| && !IsBlank(b[start])
    ensures start < next <= |b| && CommandAt(b, start) == Scanned(command, next)
    ensures !IsBlank(whole[shift + start]) && CommandAt(whole, shift + start) == Scanned(command, shift + next)
  {
    if b[start] == '%' {
      command, next := ExtendedShift(whole, shift, b, start);
    } else {
      var Scanned(c, n) := CommandAt(b, start);
      command, next := c, n;
      WordShift(whole, shift, b, start);
    }
  }

  /** Whole lines in which no aperture macro begins. */
  ghost predicate IsWholeLines(a: string) {
    && a != "" && IsLineBreak(a[|a| - 1])
    && forall i :: 0 <= i < |a| && a[i] == '%' ==> !IsMacroAt(a, i)
  }

  lemma MacroInLines(a: string, whole: string, start: nat)
    requires IsWholeLines(a) && a <= whole && start < |a| && a[start] == '%'
    ensures !IsMacroAt(whole, start)
  {
    if start + 2 < |a| {
      assert whole[start + 1] == a[start + 1] && whole[start + 2] == a[start + 2];
    } else {
      assert whole[start + 1] == a[|a| - 1];
    }
  }

  /** A command that starts in whole lines ends in them, and is read the same whatever
      follows. */
  lemma CommandInLines(a: string, whole: string, start: nat) returns (command: Command, next: nat)
    requires IsWholeLines(a) && a <= whole && start < |a| && !IsBlank(a[start])
    ensures start < next <= |a|
    ensures CommandAt(whole, start) == CommandAt(a, start) == Scanned(command, next)
  {
    var Scanned(c, n) := CommandAt(a, start);
    command, next := c, n;
    assert start < |a| - 1;
    if a[start] == '%' {
      MacroInLines(a, whole, start);
      ExtendedStopInLines(a, whole, start + 1);
      PrefixSlices(a, whole, start, ExtendedStop(a, start + 1, false));
    } else {
      WordStopInLines(a, whole, start);
      PrefixSlices(a, whole, start, WordStop(a, start));
    }
  }

  lemma PrefixSlices(a: string, whole: string, i: nat, j: nat)
    requires a <= whole && i <= j < |a|
    ensures whole[i..j] == a[i..j] && whole[j] == a[j]
    ensures i < j ==> whole[i + 1..j] == a[i + 1..j]
  {
    assert whole[..|a|][i..j] == whole[i..j];
    assert i < j ==> whole[..|a|][i + 1..j] == whole[i + 1..j];
  }

  lemma {:induction false} ExtendedStopInLines(a: string, whole: string, i: nat)
    requires a != "" && IsLineBreak(a[|a| - 1]) && i < |a| && a <= whole
    ensures ExtendedStop(whole, i, false) == ExtendedStop(a, i, false) < |a|
    decreases |a| - i
  {
    assert whole[i] == a[i];
    if a[i] != '%' && !IsLineBreak(a[i]) {
      ExtendedStopInLines(a, whole, i + 1);
    }
  }

  lemma {:induction false} WordStopInLines(a: string, whole: string, i: nat)
    requires a != "" && IsLineBreak(a[|a| - 1]) && i < |a| && a <= whole
    ensures WordStop(whole, i) == WordStop(a, i) < |a|
    decreases |a| - i
  {
    assert whole[i] == a[i];
    if a[i] != '*' && a[i] != '%' && !IsLineBreak(a[i]) {
      WordStopInLines(a, whole, i + 1);
    }
  }

  lemma {:induction false} BlankEndInLines(a: string, whole: string, i: nat)
    requires i <= |a| && a <= whole
    ensures BlankEnd(a, i) < |a| ==> BlankEnd(whole, i) == BlankEnd(a, i)
    ensures BlankEnd(a, i) == |a| ==> BlankEnd(whole, i) == BlankEnd(whole, |a|)
    decreases |a| - i
  {
    if i < |a| && IsBlank(a[i]) {
      assert whole[i] == a[i];
      BlankEndInLines(a, whole, i + 1);
    }
  }

  lemma SameBlankEnd(content: string, i: nat, j: nat)
    requires i <= |content| && j <= |content| && BlankEnd(content, i) == BlankEnd(content, j)
    ensures CommandsFrom(content, i) == CommandsFrom(content, j)
  {}

  /** The commands from `index` on, of the lines alone and of the whole text. */
  ghost predicate ReadApart(a: string, whole: string, index: nat, alone: seq<Command>, later: seq<Command>) {
    && index <= |a| <= |whole|
    && CommandsFrom(a, index) == alone
    && CommandsFrom(whole, index) == alone + later
  }

  lemma {:induction false} ReadApartStep(a: string, whole: string, index: nat, start: nat, command: Command, next: nat,
                      alone: seq<Command>, later: seq<Command>)
    requires index <= start < |a| && BlankEnd(a, index) == start && CommandAt(a, start) == Scanned(command, next)
    requires start < |whole| && BlankEnd(whole, index) == start && CommandAt(whole, start) == Scanned(command, next)
    requires ReadApart(a, whole, next, alone, later)
    ensures ReadApart(a, whole, index, [command] + alone, later)
  {
    CommandsUnfold(a, index, start, command, next);
    CommandsUnfold(whole, index, start, command, next);
    Regrouped(command, alone, later);
  }

  lemma Regrouped(command: Command, alone: seq<Command>, later: seq<Command>)
    ensures [command] + (alone + later) == [command] + alone + later
  {}

  lemma {:induction false} LinesAreIndependentFrom(a: string, whole: string, index: nat, later: seq<Command>)
      returns (alone: seq<Command>)
    requires IsWholeLines(a) && a <= whole && index <= |a| && CommandsFrom(whole, |a|) == later
    ensures ReadApart(a, whole, index, alone, later)
    decreases |a| - index
  {
    BlankEndInLines(a, whole, index);
    var start := BlankEnd(a, index);
    if start == |a| {
      SameBlankEnd(whole, index, |a|);
      alone := [];
      assert [] + later == later;
    } else {
      var command, next := CommandInLines(a, whole, start);
      var rest := LinesAreIndependentFrom(a, whole, next, later);
      alone := [command] + rest;
      ReadApartStep(a, whole, index, start, command, next, rest, later);
    }
  }

  /** Whole lines without a macro are read on their own, however malformed they are: what
      follows them is read as if it stood alone. */
  lemma LinesAreIndependent(a: string, b: string)
    requires IsWholeLines(a)
    ensures CommandsFrom(a + b, 0) == CommandsFrom(a, 0) + CommandsFrom(b, 0)
  {
    var alone := LinesAreIndependentFrom(a, a + b, 0, CommandsFrom(a + b, |a|));
    assert (a + b)[|a|..] == b;
    CommandsShift(a + b, |a|, b, 0);
  }
}
