/** How a Gerber command is spelled (src/multicad/gerber-parser.ts, gerber-apertures.ts). */
module GerberText {
  // Each regular expression of the source is a scan of the compacted command. A command may carry a
  // G-code, a selection, or an operation with its coordinates; the two walks over the same words
  // have to agree about which of them it carries.
  import opened Characters
  import opened CoordinateFormat
  import opened Options

  function Compact(body: string): (compact: string)
    ensures forall c :: c in compact ==> !IsSpace(c)
  {
    if body == "" then "" else (if IsSpace(body[0]) then "" else [body[0]]) + Compact(body[1..])
  }

  function TrimStart(text: string): string {
    if text != "" && IsSpace(text[0]) then TrimStart(text[1..]) else text
  }

  function TrimEnd(text: string): string {
    if text != "" && IsSpace(text[|text| - 1]) then TrimEnd(text[..|text| - 1]) else text
  }

  function Trim(text: string): string { TrimEnd(TrimStart(text)) }

  predicate IsBlankText(text: string) { forall c :: c in text ==> IsSpace(c) }

  lemma {:induction false} TrimStartDrops(text: string) returns (front: string)
    ensures text == front + TrimStart(text) && IsBlankText(front)
    ensures TrimStart(text) != "" ==> !IsSpace(TrimStart(text)[0])
  {
    front := "";
    if text != "" && IsSpace(text[0]) {
      var rest := TrimStartDrops(text[1..]);
      front := [text[0]] + rest;
      assert text == [text[0]] + text[1..];
    }
  }

  lemma {:induction false} TrimEndDrops(text: string) returns (back: string)
    ensures text == TrimEnd(text) + back && IsBlankText(back)
    ensures TrimEnd(text) != "" ==> !IsSpace(TrimEnd(text)[|TrimEnd(text)| - 1])
  {
    back := "";
    if text != "" && IsSpace(text[|text| - 1]) {
      var rest := TrimEndDrops(text[..|text| - 1]);
      back := rest + [text[|text| - 1]];
      assert text == text[..|text| - 1] + [text[|text| - 1]];
    }
  }

  /** Trimming drops white space at the ends, all of it and nothing else. */
  lemma TrimIsExact(text: string) returns (front: string, back: string)
    ensures text == front + Trim(text) + back && IsBlankText(front) && IsBlankText(back)
    ensures Trim(text) != "" ==> !IsSpace(Trim(text)[0]) && !IsSpace(Trim(text)[|Trim(text)| - 1])
  {
    front := TrimStartDrops(text);
    back := TrimEndDrops(TrimStart(text));
  }

  predicate StartsWith(text: string, prefix: string) { prefix <= text }

  // ------------------------------------------------------------------ word commands

  /** `G` and at least one digit at the front, up to this index. */
  function AfterGCode(command: string): (end: nat)
    ensures end <= |command|
  {
    if command != "" && command[0] == 'G' && DigitsEnd(command, 1) > 1 then DigitsEnd(command, 1) else 0
  }

  function LeadingGCode(command: string): Option<nat> {
    var end := AfterGCode(command);
    if end == 0 then None else Some(WholeNumber(command[1..end]))
  }

  /** D-codes below this are operations. */
  const FIRST_APERTURE_CODE: nat := 10

  function ApertureSelection(command: string): (code: Option<nat>)
    ensures code.Some? ==> code.value >= FIRST_APERTURE_CODE
  {
    var at := AfterGCode(command);
    if at + 1 < |command| && command[at] == 'D' && DigitsEnd(command, at + 1) == |command| then
      var code := WholeNumber(command[at + 1..]);
      if code >= FIRST_APERTURE_CODE then Some(code) else None
    else None
  }

  predicate EndsWith(text: string, suffix: string) {
    |suffix| <= |text| && text[|text| - |suffix|..] == suffix
  }

  predicate EndsInFlash(command: string) { EndsWith(command, "D3") || EndsWith(command, "D03") }

  datatype OperationCode = Draw | Move | Flash

  datatype Operation = Operation(x: Option<string>, y: Option<string>, code: OperationCode)

  /** The end of an optional signed number behind an axis letter; where it starts if absent. */
  function AxisEnd(command: string, i: nat, letter: char): (end: nat)
    requires i <= |command|
    ensures i <= end <= |command|
  {
    if i < |command| && command[i] == letter then
      var digits := if i + 1 < |command| && command[i + 1] in "+-" then i + 2 else i + 1;
      if digits < |command| && IsDigit(command[digits]) then DigitsEnd(command, digits) else i
    else i
  }

  function AxisText(command: string, i: nat, end: nat): Option<string>
    requires i <= end <= |command|
  {
    if i == end then None else Some(command[i + 1..end])
  }

  function OperationCodeOf(text: string): Option<OperationCode> {
    if text == "D1" || text == "D01" then Some(Draw)
    else if text == "D2" || text == "D02" then Some(Move)
    else if text == "D3" || text == "D03" then Some(Flash)
    else None
  }

  /** A word command that is an operation and nothing else. */
  function PlottedOperation(command: string): Option<Operation> {
    var g := AfterGCode(command);
    var x := AxisEnd(command, g, 'X');
    var y := AxisEnd(command, x, 'Y');
    var i := AxisEnd(command, y, 'I');
    var j := AxisEnd(command, i, 'J');
    match OperationCodeOf(command[j..])
    case None => None
    case Some(code) => Some(Operation(AxisText(command, g, x), AxisText(command, x, y), code))
  }

  /** Where the operation code of a command would start. */
  function CodeAt(command: string): (at: nat)
    ensures at <= |command|
  {
    AxisEnd(command, AxisEnd(command, AxisEnd(command, AxisEnd(command, AfterGCode(command), 'X'), 'Y'), 'I'), 'J')
  }

  lemma CodeValue(text: string)
    requires text != ""
    ensures OperationCodeOf(text).Some? ==> WholeNumber(text[1..]) < FIRST_APERTURE_CODE
  {
    if OperationCodeOf(text).Some? {
      var digits := text[1..];
      assert digits[..|digits| - 1] == if |digits| == 1 then "" else "0";
      assert "0"[..0] == "";
    }
  }

  lemma {:induction false} DigitsEndPasses(text: string, i: nat)
    requires i <= |text|
    ensures AllDigits(text[i..DigitsEnd(text, i)])
    decreases |text| - i
  {
    var end := DigitsEnd(text, i);
    if i < end {
      DigitsEndPasses(text, i + 1);
      assert text[i..end] == [text[i]] + text[i + 1..end];
    }
  }

  /** A coordinate word is a sign and at least one digit. */
  lemma AxisTextIsANumber(command: string, i: nat, letter: char) returns (sign: string, digits: string)
    requires i <= |command| && i < AxisEnd(command, i, letter)
    ensures AxisText(command, i, AxisEnd(command, i, letter)) == Some(sign + digits)
    ensures sign in {"", "+", "-"} && digits != "" && AllDigits(digits)
  {
    var end := AxisEnd(command, i, letter);
    var at := if i + 1 < |command| && command[i + 1] in "+-" then i + 2 else i + 1;
    DigitsEndPasses(command, at);
    sign, digits := command[i + 1..at], command[at..end];
    assert sign == "" || sign == [command[i + 1]];
    assert sign + digits == command[i + 1..end];
  }

  /** No command both selects an aperture and plots with one. */
  lemma SelectionIsNoOperation(command: string)
    requires ApertureSelection(command).Some?
    ensures PlottedOperation(command).None?
  {
    var at := AfterGCode(command);
    assert CodeAt(command) == at;
    assert command[at..][1..] == command[at + 1..];
    CodeValue(command[at..]);
  }
}
