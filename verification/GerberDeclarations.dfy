/** How apertures are declared, opened as blocks and selected (src/multicad/gerber-apertures.ts). */
module GerberDeclarations {
  // What is written is read, and nothing else is.
  import opened CoordinateFormat
  import opened GerberApertures
  import opened GerberComments
  import opened GerberOperations
  import opened GerberText
  import opened Options

  // ------------------------------------------------------------------ declarations

  predicate IsNameCharacter(c: char) { IsLetter(c) || IsDigit(c) || c == '_' }

  /** What a declaration says, with its code as it is written. */
  datatype Declaring = Declaring(digits: string, template: char, name: string, parameters: Option<string>) {
    predicate IsLegal() {
      && AreDigits(digits) && IsLetter(template) && (forall c :: c in name ==> IsNameCharacter(c))
      && (parameters.Some? ==> '*' !in parameters.value)
    }

    function AfterName(): string { if parameters.Some? then "," + (parameters.value + "*") else "*" }

    function Text(): string { "ADD" + digits + ([template] + (name + AfterName())) }
  }

  lemma {:induction false} NameEndIs(text: string, i: nat, end: nat)
    requires i <= end <= |text|
    requires forall k :: i <= k < end ==> IsNameCharacter(text[k])
    requires end < |text| ==> !IsNameCharacter(text[end])
    ensures NameEnd(text, i) == end
    decreases end - i
  {
    if i < end {
      NameEndIs(text, i + 1, end);
    }
  }

  lemma {:induction false} NameEndPasses(text: string, i: nat)
    requires i <= |text|
    ensures forall k :: i <= k < NameEnd(text, i) ==> IsNameCharacter(text[k])
    decreases |text| - i
  {
    if i < NameEnd(text, i) {
      NameEndPasses(text, i + 1);
    }
  }

  /** The code of a declaration ends where its digits do. */
  lemma DeclaredDigits(compact: string, digits: string, rest: string)
    requires compact == "ADD" + digits + rest && AreDigits(digits) && !StartsWithDigit(rest)
    ensures StartsWith(compact, "ADD") && DigitsEnd(compact, 3) == 3 + |digits| <= |compact|
    ensures compact[3..3 + |digits|] == digits && compact[3 + |digits|..] == rest
  {
    DigitsAt(compact, "ADD", digits, rest);
    assert compact[..3] == "ADD";
  }

  lemma DeclaredName(compact: string, front: string, template: char, name: string, last: string)
    requires compact == front + ([template] + (name + last)) && last != "" && !IsNameCharacter(last[0])
    requires forall c :: c in name ==> IsNameCharacter(c)
    ensures var at := |front|;
            && |compact| == at + 1 + |name| + |last| && compact[at] == template
            && NameEnd(compact, at + 1) == at + 1 + |name| && compact[at + 1..at + 1 + |name|] == name
            && compact[at + 1 + |name|..] == last
  {
    var at := |front|;
    forall k | at + 1 <= k < at + 1 + |name| ensures IsNameCharacter(compact[k]) {
      assert compact[k] == name[k - at - 1] && name[k - at - 1] in name;
    }
    assert compact[at + 1 + |name|] == last[0];
    NameEndIs(compact, at + 1, at + 1 + |name|);
  }

  /** What is read of a declaration, by where its parts end. */
  lemma DeclarationAt(compact: string, at: nat, end: nat, last: string, parameters: Option<string>)
    requires StartsWith(compact, "ADD") && DigitsEnd(compact, 3) == at && 3 < at < end <= |compact|
    requires IsLetter(compact[at]) && NameEnd(compact, at + 1) == end && compact[end..] == last
    requires last == if parameters.Some? then "," + (parameters.value + "*") else "*"
    requires parameters.Some? ==> '*' !in parameters.value
    ensures ReadDeclaration(compact)
         == Declared(WholeNumber(compact[3..at]), compact[at], compact[at + 1..end], parameters)
  {
    assert compact[end] == last[0];
    if parameters.Some? {
      assert |last| == |parameters.value| + 2;
      assert compact[|compact| - 1] == last[|last| - 1] == '*';
      assert compact[end + 1..|compact| - 1] == last[1..|last| - 1] == parameters.value;
    }
  }

  /** A declaration that was written is read as it was, with the number its digits spell. */
  lemma DeclarationIsRead(d: Declaring)
    requires d.IsLegal()
    ensures ReadDeclaration(d.Text()) == Declared(WholeNumber(d.digits), d.template, d.name, d.parameters)
  {
    var compact, front := d.Text(), "ADD" + d.digits;
    DeclaredDigits(compact, d.digits, [d.template] + (d.name + d.AfterName()));
    DeclaredName(compact, front, d.template, d.name, d.AfterName());
    DeclarationAt(compact, |front|, |front| + 1 + |d.name|, d.AfterName(), d.parameters);
  }

  /** And what is read as one was written as one. */
  lemma DeclarationIsWritten(compact: string) returns (d: Declaring)
    requires ReadDeclaration(compact).Declared?
    ensures d.IsLegal() && compact == d.Text()
    ensures ReadDeclaration(compact) == Declared(WholeNumber(d.digits), d.template, d.name, d.parameters)
  {
    var at := DigitsEnd(compact, 3);
    var end := NameEnd(compact, at + 1);
    d := Declaring(compact[3..at], compact[at], compact[at + 1..end], ReadDeclaration(compact).parameters);
    DigitsEndPasses(compact, 3);
    NameEndPasses(compact, at + 1);
    EndIsWritten(compact, at, end, d.parameters);
    TextIsParts(compact, at, end, d);
  }

  lemma EndIsWritten(compact: string, at: nat, end: nat, parameters: Option<string>)
    requires 3 <= |compact| && DigitsEnd(compact, 3) == at < |compact| && NameEnd(compact, at + 1) == end
    requires ReadDeclaration(compact).Declared? && ReadDeclaration(compact).parameters == parameters
    ensures compact[end..] == if parameters.Some? then "," + (parameters.value + "*") else "*"
    ensures parameters.Some? ==> '*' !in parameters.value
  {
    if parameters.Some? {
      var n := |compact| - 1;
      assert compact[end..] == [compact[end]] + (compact[end + 1..n] + [compact[n]]);
    }
  }

  lemma TextIsParts(compact: string, at: nat, end: nat, d: Declaring)
    requires 3 <= at < end <= |compact| && StartsWith(compact, "ADD") && d.digits == compact[3..at]
    requires d.template == compact[at] && d.name == compact[at + 1..end] && d.AfterName() == compact[end..]
    ensures compact == d.Text()
  {
    var last := compact[end..];
    assert compact[at + 1..] == compact[at + 1..end] + last;
    assert compact[at..] == [compact[at]] + compact[at + 1..];
    assert compact[..at] == compact[..3] + compact[3..at];
    assert compact == compact[..at] + compact[at..];
  }

  /** The code is read if and only if digits follow `ADD`, and it is the number all of them spell. */
  lemma CodeIsReadAnyway(compact: string) returns (digits: string, rest: string)
    ensures ReadDeclaration(compact).NoCode? <==> digits == ""
    ensures digits == "" ==> !StartsWith(compact, "ADD") || !StartsWithDigit(compact[3..])
    ensures digits != "" ==> compact == "ADD" + digits + rest && AreDigits(digits) && !StartsWithDigit(rest)
                             && ReadDeclaration(compact).code == WholeNumber(digits)
  {
    digits, rest := "", "";
    if StartsWith(compact, "ADD") && DigitsEnd(compact, 3) > 3 {
      var at := DigitsEnd(compact, 3);
      digits, rest := compact[3..at], compact[at..];
      DigitsEndPasses(compact, 3);
      DigitsEndStops(compact, 3);
      assert compact == compact[..3] + compact[3..at] + compact[at..];
    }
  }

  lemma {:induction false} DigitsEndStops(text: string, i: nat)
    requires i <= |text|
    ensures DigitsEnd(text, i) < |text| ==> !IsDigit(text[DigitsEnd(text, i)])
    decreases |text| - i
  {
    if i < DigitsEnd(text, i) {
      DigitsEndStops(text, i + 1);
    }
  }

  // ------------------------------------------------------------------ blocks

  /** A block is opened under the number its digits spell. */
  lemma BlockIsRead(digits: string)
    requires AreDigits(digits)
    ensures BlockNamed("ABD" + digits + "*") == Some(WholeNumber(digits))
  {
    var compact := "ABD" + digits + "*";
    DigitsAt(compact, "ABD", digits, "*");
    assert compact[..3] == "ABD" && compact[3..|compact| - 1] == digits;
  }

  /** And only so. */
  lemma BlockIsWritten(compact: string) returns (digits: string)
    requires BlockNamed(compact).Some?
    ensures AreDigits(digits) && compact == "ABD" + digits + "*" && BlockNamed(compact) == Some(WholeNumber(digits))
  {
    digits := compact[3..|compact| - 1];
    DigitsEndPasses(compact, 3);
    assert compact == compact[..3] + compact[3..|compact| - 1] + compact[|compact| - 1..];
  }

  // ------------------------------------------------------------------ selections

  /** A selection may have a G-code in front, and its number is that of an aperture. */
  lemma SelectionIsRead(g: string, digits: string)
    requires IsGWord(g) && AreDigits(digits) && WholeNumber(digits) >= 10
    ensures ApertureSelection(g + ("D" + digits)) == Some(WholeNumber(digits))
  {
    var command := g + ("D" + digits);
    WrittenCodeIsRead(command, g, "D" + digits);
    assert command == (g + "D") + digits + "";
    DigitsAt(command, g + "D", digits, "");
    assert command[|g| + 1..] == digits;
  }

  /** And only so. */
  lemma SelectionIsWritten(command: string) returns (g: string, digits: string)
    requires ApertureSelection(command).Some?
    ensures IsGWord(g) && AreDigits(digits) && command == g + ("D" + digits)
    ensures ApertureSelection(command) == Some(WholeNumber(digits)) && WholeNumber(digits) >= 10
  {
    var at := AfterGCode(command);
    g, digits := command[..at], command[at + 1..];
    ReadGWordIsWritten(command);
    DigitsEndPasses(command, at + 1);
    assert command[at + 1..|command|] == digits;
    assert command == command[..at] + ("D" + command[at + 1..]);
  }

  lemma EndsAfter(front: string, rest: string, suffix: string)
    requires EndsWith(rest, suffix)
    ensures EndsWith(front + rest, suffix)
  {
    assert (front + rest)[|front + rest| - |suffix|..] == rest[|rest| - |suffix|..];
  }

  lemma TextEndsInCode(w: Written)
    ensures EndsWith(w.Text(), w.FromCode())
  {
    EndsAfter(AxisWritten('J', w.j), w.FromCode(), w.FromCode());
    EndsAfter(AxisWritten('I', w.i), w.FromJ(), w.FromCode());
    EndsAfter(AxisWritten('Y', w.y), w.FromI(), w.FromCode());
    EndsAfter(AxisWritten('X', w.x), w.FromY(), w.FromCode());
    EndsAfter(w.g, w.FromX(), w.FromCode());
  }

  /** An operation ends in a flash if and only if it is one. */
  lemma FlashesEndInFlash(w: Written)
    ensures EndsInFlash(w.Text()) <==> w.code.Flash?
  {
    TextEndsInCode(w);
    CodeEndsInFlash(w.Text(), if w.zero then "0" else "", CodeWritten(w.code), w.FromCode());
  }

  lemma CodeEndsInFlash(text: string, zero: string, digit: string, code: string)
    requires EndsWith(text, code) && code == "D" + zero + digit && zero in {"", "0"} && digit in {"1", "2", "3"}
    ensures EndsInFlash(text) <==> digit == "3"
  {
    var n := |text|;
    assert text[n - 1] == code[|code| - 1] == digit[0];
    assert text[n - 2] == code[|code| - 2];
    if zero == "0" {
      assert text[n - 3] == code[0] == 'D' && text[n - 2] == '0';
      assert text[n - 3..] == ['D', '0', digit[0]];
    } else {
      assert text[n - 2..] == ['D', digit[0]];
    }
  }
}
