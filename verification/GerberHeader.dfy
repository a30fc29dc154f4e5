/** What a statement at the head of a Gerber file says (src/multicad/gerber-parser.ts). */
module GerberHeader {
  // Units, format and polarity as they are written, in front of any text whatever.
  import opened Characters
  import opened CoordinateFormat
  import opened GerberArtwork
  import opened GerberComments
  import opened GerberFileState
  import opened GerberGeometry
  import opened GerberParser
  import opened GerberPublished
  import opened GerberReport
  import opened GerberScope
  import opened GerberStatements
  import opened GerberStream
  import opened GerberText
  import opened GerberTokenizer
  import opened Options

  // ------------------------------------------------------------------ a statement in front of a text

  /** A text with a command in front of it. */
  function Headed(command: Command, text: string): string { Raw(command) + text }

  lemma HeadIsRead(head: Command, text: string)
    requires IsWritable(head)
    ensures CommandsFrom(Headed(head, text), 0) == [head] + CommandsFrom(text, 0)
  {
    var whole, next := Headed(head, text), |Raw(head)|;
    assert GerberStream.EndsWith(whole, next, text);
    CommandsShift(whole, next, text, 0);
    FirstIsRead(whole, 0, 0, head, next, CommandsFrom(text, 0));
  }

  lemma ShownFacts(text: string, readers: Readers)
    ensures var commands := CommandsFrom(text, 0);
            Shown(text, readers).facts == FactsStated(commands, |commands|, readers)
  {
    var commands := CommandsFrom(text, 0);
    var walks := RunOf(commands, readers);
    FactsAreWhatTheFileStates(walks, commands, |commands|, readers);
  }

  lemma {:induction false} FirstOfAll<T>(commands: seq<Command>, n: nat, stated: Command -> Option<T>)
    requires 0 < n <= |commands| && stated(commands[0]).Some?
    ensures First(commands, n, stated) == stated(commands[0])
  {
    if n > 1 {
      FirstOfAll(commands, n - 1, stated);
    } else {
      assert InFileScope(commands, 0);
    }
  }

  /** The facts of a text with a command in front of it. */
  lemma HeadedFacts(head: Command, text: string, readers: Readers) returns (commands: seq<Command>)
    requires IsWritable(head)
    ensures commands == [head] + CommandsFrom(text, 0)
    ensures Shown(Headed(head, text), readers).facts == FactsStated(commands, |commands|, readers)
  {
    HeadIsRead(head, text);
    commands := CommandsFrom(Headed(head, text), 0);
    ShownFacts(Headed(head, text), readers);
  }

  // ------------------------------------------------------------------ plain statements

  predicate IsPlain(c: char) { 'A' <= c <= 'Z' || IsDigit(c) || c == '*' }

  lemma PlainIsClean(text: string)
    requires forall c :: c in text ==> IsPlain(c)
    ensures IsWritable(Command.Extended(text)) && Compact(text) == text
  {
    forall c | c in text ensures !IsSpace(c) {
      assert IsPlain(c);
    }
    NothingToDrop(text);
  }

  // ------------------------------------------------------------------ units

  function UnitsWritten(units: Units): string {
    match units
    case Inches => "MOIN*"
    case Millimetres => "MOMM*"
  }

  lemma UnitsAreClean(units: Units)
    ensures IsWritable(Command.Extended(UnitsWritten(units))) && Compact(UnitsWritten(units)) == UnitsWritten(units)
  {
    PlainIsClean(UnitsWritten(units));
  }

  /** The units in front of any text are the units of the result. */
  lemma UnitsAreRead(units: Units, text: string, readers: Readers)
    ensures ResultOf(Shown(Headed(Command.Extended(UnitsWritten(units)), text), readers)).units == Some(units)
  {
    UnitsAreClean(units);
    var commands := HeadedFacts(Command.Extended(UnitsWritten(units)), text, readers);
    assert StatedUnits(commands[0]) == Some(units);
    FirstOfAll(commands, |commands|, StatedUnits);
  }

  // ------------------------------------------------------------------ the format

  function DigitWritten(n: nat): char
    requires n < 10
  {
    ('0' as int + n) as char
  }

  function FormatWritten(format: Format, mode: CoordinateMode): string
    requires format.integerDigits < 10 && format.decimalDigits < 10
  {
    var i, d := DigitWritten(format.integerDigits), DigitWritten(format.decimalDigits);
    ['F', 'S', if format.omission.OmitsTrailing? then 'T' else 'L', if mode.Incremental? then 'I' else 'A',
     'X', i, d, 'Y', i, d, '*']
  }

  lemma DigitIsRead(n: nat)
    requires n < 10
    ensures IsDigit(DigitWritten(n)) && DigitValue(DigitWritten(n)) == n
  {}

  lemma FormatIsClean(format: Format, mode: CoordinateMode)
    requires format.integerDigits < 10 && format.decimalDigits < 10
    ensures IsWritable(Command.Extended(FormatWritten(format, mode)))
    ensures Compact(FormatWritten(format, mode)) == FormatWritten(format, mode)
  {
    var written := FormatWritten(format, mode);
    DigitIsRead(format.integerDigits);
    DigitIsRead(format.decimalDigits);
    PlainIsClean(written);
  }

  lemma FormatIsStated(format: Format, mode: CoordinateMode)
    requires format.integerDigits < 10 && format.decimalDigits < 10
    ensures FormatStatement(FormatWritten(format, mode)) == Some(DeclaredFormat(format, mode))
  {
    DigitIsRead(format.integerDigits);
    DigitIsRead(format.decimalDigits);
    var written := FormatWritten(format, mode);
    assert written[..2] == "FS";
    assert DigitValue(written[5]) == format.integerDigits && DigitValue(written[6]) == format.decimalDigits;
  }

  /** The format and the mode in front of any text are those of the result, and incremental
      coordinates are reported exactly when they are declared. */
  lemma FormatIsRead(format: Format, mode: CoordinateMode, text: string, readers: Readers)
    requires format.integerDigits < 10 && format.decimalDigits < 10
    ensures var view := Shown(Headed(Command.Extended(FormatWritten(format, mode)), text), readers);
            && view.facts.declaredFormat == Some(DeclaredFormat(format, mode))
            && ResultOf(view).format == Some(format)
            && (IncrementalCoordinates in ResultOf(view).geometry.uncertainty <==> mode.Incremental?)
  {
    FormatIsClean(format, mode);
    FormatIsStated(format, mode);
    var commands := HeadedFacts(Command.Extended(FormatWritten(format, mode)), text, readers);
    assert StatedFormat(commands[0]) == Some(DeclaredFormat(format, mode));
    FirstOfAll(commands, |commands|, StatedFormat);
    var view := Shown(Headed(Command.Extended(FormatWritten(format, mode)), text), readers);
    StatedIsReported(view, IncrementalCoordinates);
  }

  /** A reason that only the file can state is reported if and only if it does. */
  lemma StatedIsReported(view: View, reason: Reason)
    requires reason in {IncrementalCoordinates, ClearPolarity, ObjectTransform, StepAndRepeated}
    ensures reason in ResultOf(view).geometry.uncertainty <==> IsStated(InputOf(view.facts, view.file), reason)
  {
    var facts := view.facts;
    var events := if IsIncremental(facts) then [] else DecodedFrom(facts.wordCommands, SettingOf(facts)).events;
    ReasonsAreTheEvents(InputOf(facts, view.file), events, reason);
    assert Drawn(facts).submissions == Replay(events).submissions;
  }

  // ------------------------------------------------------------------ polarity

  function PolarityWritten(polarity: Polarity): string {
    match polarity
    case Dark => "LPD*"
    case Clear => "LPC*"
  }

  lemma PolarityIsClean(polarity: Polarity)
    ensures var written := PolarityWritten(polarity);
            IsWritable(Command.Extended(written)) && Compact(written) == written
  {
    PlainIsClean(PolarityWritten(polarity));
  }

  lemma {:induction false} OnlyStated<T>(commands: seq<Command>, n: nat, stated: Command -> Option<T>)
    requires 0 < n <= |commands| && stated(commands[0]).Some? && Silent(commands, 1, |commands|, stated)
    ensures Last(commands, n, stated) == stated(commands[0])
  {
    if n > 1 {
      OnlyStated(commands, n - 1, stated);
    } else {
      assert InFileScope(commands, 0);
    }
  }

  /** Some command of the text plots something in file scope. */
  predicate SomePlots(commands: seq<Command>) {
    exists i :: 0 < i < |commands| && InFileScope(commands, i) && GerberStatements.Plots(commands[i])
  }

  lemma ErasesExactly(commands: seq<Command>, polarity: Polarity)
    requires commands != [] && StatedPolarity(commands[0]) == Some(polarity)
    requires Silent(commands, 1, |commands|, StatedPolarity)
    ensures ErasesBefore(commands, |commands|) <==> polarity.Clear? && SomePlots(commands)
  {
    forall i | 0 < i <= |commands| ensures PolarityBefore(commands, i) == polarity {
      OnlyStated(commands, i, StatedPolarity);
    }
    assert !GerberStatements.Plots(commands[0]);
    forall i | 0 <= i < |commands|
      ensures ErasesAt(commands, i)
        <==> 0 < i && polarity.Clear? && InFileScope(commands, i) && GerberStatements.Plots(commands[i])
    {}
  }

  lemma PolarityFacts(polarity: Polarity, text: string, readers: Readers, commands: seq<Command>)
    requires commands == [Command.Extended(PolarityWritten(polarity))] + CommandsFrom(text, 0)
    requires Silent(commands, 1, |commands|, StatedPolarity)
    ensures var view := Shown(Headed(Command.Extended(PolarityWritten(polarity)), text), readers);
            view.facts.plottedUnderClearPolarity <==> polarity.Clear? && SomePlots(commands)
  {
    PolarityIsClean(polarity);
    var read := HeadedFacts(Command.Extended(PolarityWritten(polarity)), text, readers);
    assert StatedPolarity(commands[0]) == Some(polarity);
    ErasesExactly(commands, polarity);
  }

  /** Clear polarity in front of a text that states none is reported if and only if the text plots
      something in file scope; dark polarity never is. */
  lemma PolarityIsRead(polarity: Polarity, text: string, readers: Readers, commands: seq<Command>)
    requires commands == [Command.Extended(PolarityWritten(polarity))] + CommandsFrom(text, 0)
    requires Silent(commands, 1, |commands|, StatedPolarity)
    ensures var view := Shown(Headed(Command.Extended(PolarityWritten(polarity)), text), readers);
            ClearPolarity in ResultOf(view).geometry.uncertainty <==> polarity.Clear? && SomePlots(commands)
  {
    PolarityFacts(polarity, text, readers, commands);
    StatedIsReported(Shown(Headed(Command.Extended(PolarityWritten(polarity)), text), readers), ClearPolarity);
  }

  // ------------------------------------------------------------------ the file function

  /** The file function in front of any text is that of the result, without the white space around
      it. */
  lemma FunctionIsRead(name: string, text: string, readers: Readers)
    requires forall c :: c in name ==> c != '*' && c != '%' && !IsLineBreak(c)
    ensures var head := Command.Extended("TF.FileFunction," + name + "*");
            ResultOf(Shown(Headed(head, text), readers)).fileFunction == Some(Trim(name))
  {
    var body := "TF.FileFunction," + name + "*";
    FunctionIsStated(name);
    var commands := HeadedFacts(Command.Extended(body), text, readers);
    assert StatedFunction(commands[0]) == Some(Trim(name));
    FirstOfAll(commands, |commands|, StatedFunction);
  }

  lemma FunctionIsStated(name: string)
    requires forall c :: c in name ==> c != '*' && c != '%' && !IsLineBreak(c)
    ensures var body := "TF.FileFunction," + name + "*";
            IsWritable(Command.Extended(body)) && FileFunctionStatement(body) == Some(Trim(name))
  {
    var body := "TF.FileFunction," + name + "*";
    FunctionBody(body, name);
    TrimsToItself(body);
  }

  lemma FunctionBody(body: string, name: string)
    requires body == FILE_FUNCTION + name + "*" && forall c :: c in name ==> c != '*' && c != '%' && !IsLineBreak(c)
    ensures StartsWith(body, FILE_FUNCTION) && body[|FILE_FUNCTION|..|body| - 1] == name
    ensures body[0] == 'T' && body[|body| - 1] == '*' && '%' !in body && WithoutLineBreak(body)
  {}

  lemma TrimsToItself(text: string)
    requires text != "" && !IsSpace(text[0]) && !IsSpace(text[|text| - 1])
    ensures Trim(text) == text
  {}

  // ------------------------------------------------------------------ legacy codes

  function LegacyUnitsWritten(units: Units): string {
    match units
    case Inches => "G70"
    case Millimetres => "G71"
  }

  function LegacyModeWritten(mode: CoordinateMode): string {
    match mode
    case Absolute => "G90"
    case Incremental => "G91"
  }

  lemma TwoDigitCode(word: string, tens: nat, ones: nat)
    requires tens < 10 && ones < 10 && word == ['G', DigitWritten(tens), DigitWritten(ones)]
    ensures IsWritable(Command.Word(word)) && Compact(word) == word && LeadingGCode(word) == Some(10 * tens + ones)
  {
    var digits := [DigitWritten(tens), DigitWritten(ones)];
    DigitIsRead(tens);
    DigitIsRead(ones);
    PlainIsClean(word);
    assert word == "G" + digits + "";
    CodeEndsWithDigits(digits, "");
    assert digits[..1] == [DigitWritten(tens)] && [DigitWritten(tens)][..0] == "";
    assert WholeNumber([DigitWritten(tens)]) == tens;
  }

  lemma LegacyUnitsAreStated(units: Units)
    ensures var head := Command.Word(LegacyUnitsWritten(units));
            IsWritable(head) && LegacyUnitsIn(head) == Some(units)
  {
    TwoDigitCode(LegacyUnitsWritten(units), 7, if units.Inches? then 0 else 1);
  }

  lemma LegacyModeIsStated(mode: CoordinateMode)
    ensures var head := Command.Word(LegacyModeWritten(mode));
            IsWritable(head) && LegacyModeIn(head) == Some(mode)
  {
    TwoDigitCode(LegacyModeWritten(mode), 9, if mode.Absolute? then 0 else 1);
  }

  /** A legacy code in front of a text that states no units otherwise gives the units. */
  lemma LegacyUnitsAreRead(units: Units, text: string, readers: Readers, commands: seq<Command>)
    requires commands == [Command.Word(LegacyUnitsWritten(units))] + CommandsFrom(text, 0)
    requires Silent(commands, 1, |commands|, StatedUnits) && Silent(commands, 1, |commands|, LegacyUnitsIn)
    ensures ResultOf(Shown(Headed(Command.Word(LegacyUnitsWritten(units)), text), readers)).units == Some(units)
  {
    LegacyUnitsAreStated(units);
    var read := HeadedFacts(Command.Word(LegacyUnitsWritten(units)), text, readers);
    NeverStated(commands, |commands|, StatedUnits);
    OnlyStated(commands, |commands|, LegacyUnitsIn);
  }

  /** A legacy code in front of a text that states no format and no mode otherwise gives the mode. */
  lemma LegacyModeIsRead(mode: CoordinateMode, text: string, readers: Readers, commands: seq<Command>)
    requires commands == [Command.Word(LegacyModeWritten(mode))] + CommandsFrom(text, 0)
    requires Silent(commands, 1, |commands|, StatedFormat) && Silent(commands, 1, |commands|, LegacyModeIn)
    ensures var result := ResultOf(Shown(Headed(Command.Word(LegacyModeWritten(mode)), text), readers));
            IncrementalCoordinates in result.geometry.uncertainty <==> mode.Incremental?
  {
    LegacyModeIsStated(mode);
    var read := HeadedFacts(Command.Word(LegacyModeWritten(mode)), text, readers);
    NeverStated(commands, |commands|, StatedFormat);
    OnlyStated(commands, |commands|, LegacyModeIn);
    StatedIsReported(Shown(Headed(Command.Word(LegacyModeWritten(mode)), text), readers), IncrementalCoordinates);
  }

  lemma {:induction false} NeverStated<T>(commands: seq<Command>, n: nat, stated: Command -> Option<T>)
    requires 0 < n <= |commands| && stated(commands[0]).None? && Silent(commands, 1, |commands|, stated)
    ensures First(commands, n, stated).None?
  {
    if n > 1 {
      NeverStated(commands, n - 1, stated);
    }
  }
}
