/** Which Gerber comments are read (src/multicad/gerber-parser.ts). */
module GerberComments {
  // A comment is a word command whose own G-code is 4. The reader drops white space before it looks
  // for the code, so digits that follow a blank join it: such a comment is not recognised, and is
  // read like any other word.
  import opened Characters
  import opened CoordinateFormat
  import opened GerberTokenizer
  import opened GerberText
  import opened GerberApertures
  import opened GerberFileState
  import opened GerberReport
  import opened GerberScope
  import opened Options

  // ------------------------------------------------------------------ dropping white space

  lemma {:induction false} CompactConcat(a: string, b: string)
    ensures Compact(a + b) == Compact(a) + Compact(b)
  {
    if a == "" {
      assert a + b == b;
    } else {
      assert (a + b)[1..] == a[1..] + b;
      CompactConcat(a[1..], b);
    }
  }

  lemma {:induction false} NothingToDrop(text: string)
    requires forall c :: c in text ==> !IsSpace(c)
    ensures Compact(text) == text
  {
    if text != "" {
      NothingToDrop(text[1..]);
    }
  }

  // ------------------------------------------------------------------ the code of a command

  predicate StartsWithDigit(text: string) { text != "" && IsDigit(text[0]) }

  /** What follows the G-code of a command, as it is written. */
  function TextAfterCode(body: string): string { body[AfterGCode(body)..] }

  lemma CodeParts(body: string) returns (digits: string, text: string)
    requires AfterGCode(body) > 0
    ensures body == "G" + digits + text && digits != "" && AllDigits(digits) && text == TextAfterCode(body)
    ensures LeadingGCode(body) == Some(WholeNumber(digits))
  {
    var end := AfterGCode(body);
    DigitsEndPasses(body, 1);
    digits, text := body[1..end], body[end..];
    assert body == [body[0]] + digits + text;
  }

  lemma CompactParts(digits: string, text: string)
    requires AllDigits(digits)
    ensures Compact("G" + digits + text) == "G" + digits + Compact(text)
  {
    CompactConcat("G" + digits, text);
    NothingToDrop("G" + digits);
  }

  /** Digits in front of something that is no digit are the whole code. */
  lemma CodeEndsWithDigits(digits: string, rest: string)
    requires digits != "" && AllDigits(digits) && !StartsWithDigit(rest)
    ensures LeadingGCode("G" + digits + rest) == Some(WholeNumber(digits))
  {
    var command := "G" + digits + rest;
    forall k | 1 <= k < 1 + |digits| ensures IsDigit(command[k]) {
      assert command[k] == digits[k - 1] && digits[k - 1] in digits;
    }
    assert 1 + |digits| < |command| ==> command[1 + |digits|] == rest[0];
    DigitsEndIs(command, 1, 1 + |digits|);
    assert command[1..1 + |digits|] == digits;
  }

  lemma {:induction false} DigitsEndFrom(text: string, i: nat, j: nat)
    requires i <= j <= |text| && forall k :: i <= k < j ==> IsDigit(text[k])
    ensures DigitsEnd(text, i) == DigitsEnd(text, j)
    decreases j - i
  {
    if i < j {
      DigitsEndFrom(text, i + 1, j);
    }
  }

  lemma LongerNumber(digits: string, more: string)
    requires WholeNumber(digits) > 0 && more != ""
    ensures WholeNumber(digits + more) > WholeNumber(digits)
  {
    WholeNumberOfConcat(digits, more);
    TenfoldAtLeast(WholeNumber(digits), Pow10(|more| - 1));
  }

  lemma TenfoldAtLeast(n: nat, p: nat)
    requires p > 0
    ensures n * (10 * p) >= 10 * n
  {}

  /** Digits in front of another digit are only a part of the code, which is a larger one. */
  lemma CodeTakesMoreDigits(digits: string, rest: string)
    requires digits != "" && AllDigits(digits) && WholeNumber(digits) > 0 && StartsWithDigit(rest)
    ensures var code := LeadingGCode("G" + digits + rest); code.Some? && code.value > WholeNumber(digits)
  {
    var command := "G" + digits + rest;
    var at := 1 + |digits|;
    forall k | 1 <= k < at + 1 ensures IsDigit(command[k]) {
      assert k < at ==> command[k] == digits[k - 1] && digits[k - 1] in digits;
    }
    DigitsEndFrom(command, 1, at + 1);
    var end := DigitsEnd(command, 1);
    assert command[1..end] == digits + command[at..end];
    LongerNumber(digits, command[at..end]);
  }

  /** Dropping white space keeps the code of a command if and only if what follows it does not
      start with a digit. */
  lemma CodeIsKeptExactly(body: string)
    requires LeadingGCode(body).Some? && LeadingGCode(body).value > 0
    ensures LeadingGCode(Compact(body)) == LeadingGCode(body) <==> !StartsWithDigit(Compact(TextAfterCode(body)))
  {
    var digits, text := CodeParts(body);
    CompactParts(digits, text);
    if StartsWithDigit(Compact(text)) {
      CodeTakesMoreDigits(digits, Compact(text));
    } else {
      CodeEndsWithDigits(digits, Compact(text));
    }
  }

  // ------------------------------------------------------------------ comments

  predicate IsWrittenComment(body: string) { LeadingGCode(body) == Some(4) }

  /** A comment is recognised if and only if its text does not start with a digit. */
  lemma CommentIsRecognisedExactly(body: string)
    requires IsWrittenComment(body)
    ensures IsComment(Compact(body)) <==> !StartsWithDigit(Compact(TextAfterCode(body)))
  {
    CodeIsKeptExactly(body);
  }

  /** And if it is not, the file reads it as one of its own words wherever it stands in file scope. */
  lemma CommentIsReadExactly(commands: seq<Command>, i: nat)
    requires i < |commands| && commands[i].Word? && IsWrittenComment(commands[i].body)
    ensures IsFileWord(commands, i)
        <==> InFileScope(commands, i) && StartsWithDigit(Compact(TextAfterCode(commands[i].body)))
  {
    var body := commands[i].body;
    CommentIsRecognisedExactly(body);
    var digits, text := CodeParts(body);
    CompactParts(digits, text);
    assert Compact(body)[0] == 'G';
  }

  lemma BlankIsDropped(text: string)
    requires forall c :: c in text ==> !IsSpace(c)
    ensures Compact(" " + text) == text
  {
    CompactConcat(" ", text);
    NothingToDrop(text);
  }

  lemma IsWritten(body: string, digits: string, rest: string)
    requires body == "G" + digits + rest && AreDigits(digits) && WholeNumber(digits) == 4 && !StartsWithDigit(rest)
    ensures IsWrittenComment(body)
  {
    CodeEndsWithDigits(digits, rest);
  }

  lemma IsNotRecognised(compact: string, digits: string, rest: string)
    requires compact == "G" + digits + rest && AreDigits(digits) && WholeNumber(digits) == 4 && StartsWithDigit(rest)
    ensures !IsComment(compact)
  {
    CodeTakesMoreDigits(digits, rest);
  }

  /** What a comment becomes whose text follows a blank and starts with a digit. */
  lemma CommentBecomesWord(body: string, digits: string, text: string) returns (compact: string)
    requires body == "G" + digits + (" " + text) && AreDigits(digits) && WholeNumber(digits) == 4
    requires StartsWithDigit(text) && forall c :: c in text ==> !IsSpace(c)
    ensures compact == "G" + digits + text && Compact(body) == compact
    ensures IsWrittenComment(body) && !IsComment(compact)
  {
    compact := "G" + digits + text;
    CompactParts(digits, " " + text);
    BlankIsDropped(text);
    IsWritten(body, digits, " " + text);
    IsNotRecognised(compact, digits, text);
  }

  predicate AreDigits(text: string) { text != "" && AllDigits(text) }

  lemma DigitsAt(command: string, before: string, digits: string, rest: string)
    requires command == before + digits + rest && AllDigits(digits) && !StartsWithDigit(rest)
    ensures DigitsEnd(command, |before|) == |before| + |digits|
    ensures command[|before|..|before| + |digits|] == digits && command[|before| + |digits|..] == rest
  {
    var end := |before| + |digits|;
    forall k | |before| <= k < end ensures IsDigit(command[k]) {
      assert command[k] == digits[k - |before|] && digits[k - |before|] in digits;
    }
    assert end < |command| ==> command[end] == rest[0];
    DigitsEndIs(command, |before|, end);
  }

  lemma CodeOf(command: string, g: string, rest: string)
    requires command == "G" + g + rest && AreDigits(g) && !StartsWithDigit(rest)
    ensures AfterGCode(command) == 1 + |g|
  {
    DigitsAt(command, "G", g, rest);
  }

  lemma AxisOf(command: string, before: string, letter: char, digits: string, rest: string)
    requires command == before + [letter] + digits + rest && AreDigits(digits) && !StartsWithDigit(rest)
    ensures AxisEnd(command, |before|, letter) == |before| + 1 + |digits|
    ensures AxisText(command, |before|, |before| + 1 + |digits|) == Some(digits)
  {
    DigitsAt(command, before + [letter], digits, rest);
    assert command[|before| + 1] == digits[0] && digits[0] in digits;
  }

  /** A word with a G-code, both coordinates and a draw plots that draw. */
  lemma DrawIsPlotted(command: string, g: string, x: string, y: string)
    requires AreDigits(g) && AreDigits(x) && AreDigits(y)
    requires command == "G" + g + ("X" + x + ("Y" + y + "D01"))
    ensures PlottedOperation(command) == Some(Operation(Some(x), Some(y), Draw))
  {
    var first, both := "G" + g, "G" + g + "X" + x;
    CodeOf(command, g, "X" + x + ("Y" + y + "D01"));
    assert command == first + ['X'] + x + ("Y" + y + "D01");
    AxisOf(command, first, 'X', x, "Y" + y + "D01");
    assert command == both + ['Y'] + y + "D01";
    AxisOf(command, both, 'Y', y, "D01");
    assert command[|both| + 1 + |y|..] == "D01";
  }

  lemma SelectionIsRead(command: string, g: string, code: string)
    requires AreDigits(g) && AreDigits(code) && WholeNumber(code) >= FIRST_APERTURE_CODE
    requires command == "G" + g + ("D" + code)
    ensures ApertureSelection(command) == Some(WholeNumber(code))
  {
    CodeOf(command, g, "D" + code);
    assert command == "G" + g + "D" + code + "";
    DigitsAt(command, "G" + g + "D", code, "");
    assert command[1 + |g|] == 'D' && command[2 + |g|..] == code;
  }

  lemma NoSpaceInDigits(digits: string)
    requires AllDigits(digits)
    ensures forall c :: c in digits ==> !IsSpace(c)
  {
    forall c | c in digits ensures !IsSpace(c) {
      assert IsDigit(c);
    }
  }

  lemma DigitsAreText(number: string, rest: string)
    requires AreDigits(number) && forall c :: c in rest ==> !IsSpace(c)
    ensures StartsWithDigit(number + rest) && forall c :: c in number + rest ==> !IsSpace(c)
  {
    NoSpaceInDigits(number);
    assert (number + rest)[0] == number[0] && number[0] in number;
  }

  lemma NoSpaceInDraw(x: string, y: string)
    requires AllDigits(x) && AllDigits(y)
    ensures forall c :: c in "X" + x + ("Y" + y + "D01") ==> !IsSpace(c)
  {
    NoSpaceInDigits(x);
    NoSpaceInDigits(y);
  }

  /** The digits a comment starts with join its code. */
  lemma NumberJoinsCode(body: string, digits: string, number: string, rest: string) returns (compact: string)
    requires AreDigits(digits) && WholeNumber(digits) == 4 && AreDigits(number)
    requires body == "G" + digits + (" " + (number + rest)) && forall c :: c in rest ==> !IsSpace(c)
    ensures compact == "G" + (digits + number) + rest && Compact(body) == compact
    ensures IsWrittenComment(body) && !IsComment(compact)
  {
    DigitsAreText(number, rest);
    compact := CommentBecomesWord(body, digits, number + rest);
    assert compact == "G" + (digits + number) + rest;
  }

  /** However a comment spells its code, and whatever digits its text starts with: if coordinates
      and a draw follow them, the draw is plotted. */
  lemma CommentCanBeDrawn(body: string, digits: string, number: string, x: string, y: string)
    requires AreDigits(digits) && WholeNumber(digits) == 4 && AreDigits(number) && AreDigits(x) && AreDigits(y)
    requires body == "G" + digits + (" " + (number + ("X" + x + ("Y" + y + "D01"))))
    ensures IsWrittenComment(body) && !IsComment(Compact(body))
    ensures PlottedOperation(Compact(body)) == Some(Operation(Some(x), Some(y), Draw))
  {
    NoSpaceInDraw(x, y);
    var compact := NumberJoinsCode(body, digits, number, "X" + x + ("Y" + y + "D01"));
    DrawIsPlotted(compact, digits + number, x, y);
  }

  /** And if a D-code follows them, it selects an aperture. */
  lemma CommentCanSelect(body: string, digits: string, number: string, code: string)
    requires AreDigits(digits) && WholeNumber(digits) == 4 && AreDigits(number) && AreDigits(code)
    requires WholeNumber(code) >= FIRST_APERTURE_CODE
    requires body == "G" + digits + (" " + (number + ("D" + code)))
    ensures IsWrittenComment(body) && !IsComment(Compact(body))
    ensures ApertureSelection(Compact(body)) == Some(WholeNumber(code))
  {
    NoSpaceInDigits(code);
    var compact := NumberJoinsCode(body, digits, number, "D" + code);
    SelectionIsRead(compact, digits + number, code);
  }

  /** For example, `G04 1X5Y7D01` draws to (5, 7). */
  lemma ExampleIsDrawn(body: string)
    requires body == "G04 1X5Y7D01"
    ensures IsWrittenComment(body) && !IsComment(Compact(body))
    ensures PlottedOperation(Compact(body)) == Some(Operation(Some("5"), Some("7"), Draw))
  {
    FourIsSpelled();
    ExampleParts(body);
    CommentCanBeDrawn(body, "04", "1", "5", "7");
  }

  lemma ExampleParts(body: string)
    requires body == "G04 1X5Y7D01"
    ensures body == "G" + "04" + (" " + ("1" + ("X" + "5" + ("Y" + "7" + "D01"))))
  {}

  lemma FourIsSpelled()
    ensures WholeNumber("04") == 4
  {
    assert "04"[..1] == "0" && "0"[..0] == "";
  }
}
