/** How a Gerber operation is written, and that it is read so (src/multicad/gerber-parser.ts). */
module GerberOperations {
  import opened CoordinateFormat
  import opened GerberComments
  import opened GerberText
  import opened Options

  // ------------------------------------------------------------------ writing an operation

  /** A signed number with at least one digit. */
  ghost predicate IsNumberWord(word: string) {
    exists sign, digits :: word == sign + digits && sign in {"", "+", "-"} && AreDigits(digits)
  }

  ghost predicate IsAxisWord(word: Option<string>) { word.Some? ==> IsNumberWord(word.value) }

  function AxisWritten(letter: char, word: Option<string>): string {
    if word.Some? then [letter] + word.value else ""
  }

  function CodeWritten(code: OperationCode): string {
    match code
    case Draw => "1"
    case Move => "2"
    case Flash => "3"
  }

  predicate IsGWord(word: string) { word == "" || (word[0] == 'G' && AreDigits(word[1..])) }

  /** A whole operation: an optional G-code, the axes in order, and the code with or without a
      leading zero. */
  datatype Written = Written(g: string, x: Option<string>, y: Option<string>, i: Option<string>, j: Option<string>,
                             zero: bool, code: OperationCode)
  {
    ghost predicate IsLegal() { IsGWord(g) && IsAxisWord(x) && IsAxisWord(y) && IsAxisWord(i) && IsAxisWord(j) }

    function FromCode(): string { "D" + (if zero then "0" else "") + CodeWritten(code) }

    function FromJ(): string { AxisWritten('J', j) + FromCode() }

    function FromI(): string { AxisWritten('I', i) + FromJ() }

    function FromY(): string { AxisWritten('Y', y) + FromI() }

    function FromX(): string { AxisWritten('X', x) + FromY() }

    function Text(): string { g + FromX() }
  }

  // ------------------------------------------------------------------ reading what was written

  /** What may follow an axis: something that is neither a digit nor the letter of that axis. */
  predicate Follows(rest: string, letter: char) { rest != "" && !IsDigit(rest[0]) && rest[0] != letter }

  lemma WrittenAxisIsRead(command: string, before: string, letter: char, word: Option<string>, rest: string)
    requires command == before + AxisWritten(letter, word) + rest && IsAxisWord(word) && Follows(rest, letter)
    ensures var end := |before| + |AxisWritten(letter, word)|;
            && AxisEnd(command, |before|, letter) == end && AxisText(command, |before|, end) == word
            && command[end..] == rest
  {
    var end := |before| + |AxisWritten(letter, word)|;
    assert command[end..] == rest;
    if word.Some? {
      var sign, digits :| word.value == sign + digits && sign in {"", "+", "-"} && AreDigits(digits);
      SignedAxis(command, before, letter, sign, digits, rest);
    } else {
      assert command[|before|] == rest[0];
    }
  }

  lemma AxisEndAt(command: string, at: nat, letter: char, digits: nat, end: nat)
    requires at < digits < |command| && command[at] == letter && IsDigit(command[digits])
    requires digits == if command[at + 1] in "+-" then at + 2 else at + 1
    requires DigitsEnd(command, digits) == end
    ensures AxisEnd(command, at, letter) == end
  {}

  lemma SignedAxis(command: string, before: string, letter: char, sign: string, digits: string, rest: string)
    requires command == before + ([letter] + (sign + digits)) + rest && sign in {"", "+", "-"} && AreDigits(digits)
    requires !StartsWithDigit(rest)
    ensures var end := |before| + 1 + |sign + digits|;
            AxisEnd(command, |before|, letter) == end && AxisText(command, |before|, end) == Some(sign + digits)
  {
    var at, end := |before|, |before| + 1 + |sign + digits|;
    assert command == before + [letter] + sign + digits + rest;
    DigitsAfterSign(command, before + [letter], sign, digits, rest);
    assert command[at] == letter;
    AxisEndAt(command, at, letter, at + 1 + |sign|, end);
    assert command[at + 1..end] == sign + digits;
  }

  lemma DigitsAfterSign(command: string, before: string, sign: string, digits: string, rest: string)
    requires command == before + sign + digits + rest && sign in {"", "+", "-"} && AreDigits(digits)
    requires !StartsWithDigit(rest)
    ensures var at := |before| + |sign|;
            && at < |command| && IsDigit(command[at]) && DigitsEnd(command, at) == at + |digits|
            && (command[|before|] in "+-" <==> sign != "")
  {
    var front := before + sign;
    DigitsAt(command, front, digits, rest);
    assert command[|front|] == digits[0] && digits[0] in digits;
    assert command[|before|] == if sign != "" then sign[0] else digits[0];
  }

  lemma WrittenCodeIsRead(command: string, g: string, rest: string)
    requires command == g + rest && IsGWord(g) && Follows(rest, 'G')
    ensures AfterGCode(command) == |g|
  {
    if g == "" {
      assert command[0] == rest[0];
    } else {
      assert command == "G" + g[1..] + rest;
      CodeOf(command, g[1..], rest);
    }
  }

  lemma FollowsInOrder(w: Written)
    ensures Follows(w.FromX(), 'G') && Follows(w.FromY(), 'X') && Follows(w.FromI(), 'Y')
    ensures Follows(w.FromJ(), 'I') && Follows(w.FromCode(), 'J')
  {}

  /** What is read, by where its parts end. */
  lemma OperationAt(command: string, g: nat, x: nat, y: nat, i: nat, j: nat)
    requires g <= x <= y <= i <= j <= |command| && AfterGCode(command) == g
    requires AxisEnd(command, g, 'X') == x && AxisEnd(command, x, 'Y') == y
    requires AxisEnd(command, y, 'I') == i && AxisEnd(command, i, 'J') == j
    ensures PlottedOperation(command)
         == if OperationCodeOf(command[j..]).None? then None
            else Some(Operation(AxisText(command, g, x), AxisText(command, x, y), OperationCodeOf(command[j..]).value))
  {}

  lemma CodeIsRead(w: Written)
    ensures OperationCodeOf(w.FromCode()) == Some(w.code)
  {
    if w.zero {
      assert w.FromCode() == match w.code case Draw => "D01" case Move => "D02" case Flash => "D03";
    } else {
      assert w.FromCode() == match w.code case Draw => "D1" case Move => "D2" case Flash => "D3";
    }
  }

  /** An operation that was written is read as it was. */
  lemma WrittenIsRead(w: Written)
    requires w.IsLegal()
    ensures PlottedOperation(w.Text()) == Some(Operation(w.x, w.y, w.code))
  {
    FollowsInOrder(w);
    CodeIsRead(w);
    TextIsParts(w);
    PartsAreRead(w.Text(), w.g, w.x, w.y, w.i, w.j, w.FromX(), w.FromY(), w.FromI(), w.FromJ(), w.FromCode());
  }

  lemma TextIsParts(w: Written)
    ensures w.Text() == w.g + w.FromX() && w.FromX() == AxisWritten('X', w.x) + w.FromY()
    ensures w.FromY() == AxisWritten('Y', w.y) + w.FromI() && w.FromI() == AxisWritten('I', w.i) + w.FromJ()
    ensures w.FromJ() == AxisWritten('J', w.j) + w.FromCode()
  {}

  lemma PartsAreRead(command: string, g: string, x: Option<string>, y: Option<string>, i: Option<string>,
                     j: Option<string>, fromX: string, fromY: string, fromI: string, fromJ: string, code: string)
    requires IsGWord(g) && IsAxisWord(x) && IsAxisWord(y) && IsAxisWord(i) && IsAxisWord(j)
    requires command == g + fromX && fromX == AxisWritten('X', x) + fromY && fromY == AxisWritten('Y', y) + fromI
    requires fromI == AxisWritten('I', i) + fromJ && fromJ == AxisWritten('J', j) + code
    requires Follows(fromX, 'G') && Follows(fromY, 'X') && Follows(fromI, 'Y') && Follows(fromJ, 'I')
    requires Follows(code, 'J') && OperationCodeOf(code).Some?
    ensures PlottedOperation(command) == Some(Operation(x, y, OperationCodeOf(code).value))
  {
    WrittenCodeIsRead(command, g, fromX);
    var atX := NextAxis(command, g, 'X', x, fromX, fromY);
    var atY := NextAxis(command, atX, 'Y', y, fromY, fromI);
    var atI := NextAxis(command, atY, 'I', i, fromI, fromJ);
    var atJ := NextAxis(command, atI, 'J', j, fromJ, code);
    assert command[|atJ|..] == code;
    OperationAt(command, |g|, |atX|, |atY|, |atI|, |atJ|);
  }

  lemma NextAxis(command: string, before: string, letter: char, word: Option<string>, from: string, rest: string)
      returns (after: string)
    requires command == before + from && from == AxisWritten(letter, word) + rest
    requires IsAxisWord(word) && Follows(rest, letter)
    ensures command == after + rest && |before| <= |after|
    ensures AxisEnd(command, |before|, letter) == |after| && AxisText(command, |before|, |after|) == word
  {
    after := before + AxisWritten(letter, word);
    assert command == before + AxisWritten(letter, word) + rest;
    WrittenAxisIsRead(command, before, letter, word, rest);
  }

  // ------------------------------------------------------------------ nothing else is read

  lemma ReadAxisIsWritten(command: string, at: nat, letter: char)
    requires at <= |command|
    ensures var end := AxisEnd(command, at, letter);
            && AxisWritten(letter, AxisText(command, at, end)) == command[at..end]
            && IsAxisWord(AxisText(command, at, end))
  {
    if at < AxisEnd(command, at, letter) {
      var sign, digits := AxisTextIsANumber(command, at, letter);
    }
  }

  lemma ReadCodeIsWritten(text: string) returns (zero: bool, code: OperationCode)
    requires OperationCodeOf(text).Some?
    ensures OperationCodeOf(text) == Some(code) && text == "D" + (if zero then "0" else "") + CodeWritten(code)
  {
    zero, code := |text| == 3, OperationCodeOf(text).value;
  }

  lemma ReadGWordIsWritten(command: string)
    ensures IsGWord(command[..AfterGCode(command)])
  {
    if AfterGCode(command) > 0 {
      DigitsEndPasses(command, 1);
      assert command[..AfterGCode(command)][1..] == command[1..AfterGCode(command)];
    }
  }

  /** The parts of a command up to each place are what is written there. */
  lemma PartsAreText(command: string, w: Written, g: nat, x: nat, y: nat, i: nat, j: nat)
    requires g <= x <= y <= i <= j <= |command| && w.g == command[..g]
    requires AxisWritten('X', w.x) == command[g..x] && AxisWritten('Y', w.y) == command[x..y]
    requires AxisWritten('I', w.i) == command[y..i] && AxisWritten('J', w.j) == command[i..j]
    requires w.FromCode() == command[j..]
    ensures w.Text() == command
  {
    assert w.FromJ() == command[i..] by { assert command[i..] == command[i..j] + command[j..]; }
    assert w.FromI() == command[y..] by { assert command[y..] == command[y..i] + command[i..]; }
    assert w.FromY() == command[x..] by { assert command[x..] == command[x..y] + command[y..]; }
    assert w.FromX() == command[g..] by { assert command[g..] == command[g..x] + command[x..]; }
    assert command == command[..g] + command[g..];
  }

  /** What is read as an operation was written as one, and is nothing else. */
  lemma ReadIsWritten(command: string) returns (w: Written)
    requires PlottedOperation(command).Some?
    ensures w.IsLegal() && command == w.Text()
    ensures PlottedOperation(command) == Some(Operation(w.x, w.y, w.code))
  {
    var g := AfterGCode(command);
    var x := AxisEnd(command, g, 'X');
    var y := AxisEnd(command, x, 'Y');
    var i := AxisEnd(command, y, 'I');
    var j := AxisEnd(command, i, 'J');
    OperationAt(command, g, x, y, i, j);
    w := ReadParts(command, g, x, y, i, j);
  }

  lemma ReadParts(command: string, g: nat, x: nat, y: nat, i: nat, j: nat) returns (w: Written)
    requires g == AfterGCode(command) && x == AxisEnd(command, g, 'X') && y == AxisEnd(command, x, 'Y')
    requires i == AxisEnd(command, y, 'I') && j == AxisEnd(command, i, 'J')
    requires OperationCodeOf(command[j..]).Some?
    ensures w.IsLegal() && command == w.Text()
    ensures w.x == AxisText(command, g, x) && w.y == AxisText(command, x, y)
    ensures Some(w.code) == OperationCodeOf(command[j..])
  {
    var zero, code := ReadCodeIsWritten(command[j..]);
    w := Written(command[..g], AxisText(command, g, x), AxisText(command, x, y), AxisText(command, y, i),
                 AxisText(command, i, j), zero, code);
    ReadGWordIsWritten(command);
    ReadAxisIsWritten(command, g, 'X');
    ReadAxisIsWritten(command, x, 'Y');
    ReadAxisIsWritten(command, y, 'I');
    ReadAxisIsWritten(command, i, 'J');
    PartsAreText(command, w, g, x, y, i, j);
  }
}
