/** Coordinate words with omitted zeros, as both readers of them read them. */
module CoordinateFormat {
  // The Gerber reader is in src/multicad/gerber-geometry.ts, the drill reader in
  // src/multicad/excellon-parser.ts.

  datatype Omission = OmitsLeading | OmitsTrailing

  datatype Format = Format(integerDigits: nat, decimalDigits: nat, omission: Omission) {
    function Width(): nat { integerDigits + decimalDigits }
  }

  datatype Number = NotANumber | Number(value: real)

  // ------------------------------------------------------------------ digits and their value

  predicate IsDigit(c: char) { '0' <= c <= '9' }

  predicate AllDigits(text: string) { forall c :: c in text ==> IsDigit(c) }

  function DigitValue(c: char): nat { if IsDigit(c) then c as int - '0' as int else 0 }

  function Pow10(k: nat): (p: nat)
    ensures p > 0
  { if k == 0 then 1 else 10 * Pow10(k - 1) }

  /** The whole number some digits spell; none spell zero. */
  function WholeNumber(digits: string): nat {
    if digits == "" then 0
    else 10 * WholeNumber(digits[..|digits| - 1]) + DigitValue(digits[|digits| - 1])
  }

  /** n / 10^places. */
  function Scaled(n: nat, places: nat): real { n as real / Pow10(places) as real }

  function Zeros(n: nat): (zeros: string)
    ensures |zeros| == n
  { seq(n, _ => '0') }

  // ------------------------------------------------------------------ the source's readers

  function PadStart(digits: string, width: nat): string {
    if |digits| < width then Zeros(width - |digits|) + digits else digits
  }

  function PadEnd(digits: string, width: nat): string {
    if |digits| < width then digits + Zeros(width - |digits|) else digits
  }

  function Padded(digits: string, format: Format): (padded: string)
    ensures |padded| >= format.Width() && |padded| >= |digits|
  {
    if format.omission.OmitsLeading? then PadStart(digits, format.Width()) else PadEnd(digits, format.Width())
  }

  function DigitsEnd(text: string, i: nat): (end: nat)
    requires i <= |text|
    ensures i <= end <= |text|
    decreases |text| - i
  {
    if i == |text| || !IsDigit(text[i]) then i else DigitsEnd(text, i + 1)
  }

  /** The digits of the longest prefix that is a decimal, and how many follow the point. */
  datatype Decimal = Decimal(digits: string, places: nat)

  function ScanDecimal(text: string): Decimal {
    var whole := DigitsEnd(text, 0);
    var end := if whole < |text| && text[whole] == '.' then DigitsEnd(text, whole + 1) else whole;
    if whole < end then Decimal(text[..whole] + text[whole + 1..end], end - whole - 1)
    else Decimal(text[..whole], 0)
  }

  /** `parseFloat` on digits and points. */
  function ParseDecimal(text: string): Number {
    var scanned := ScanDecimal(text);
    if scanned.digits == "" then NotANumber else Number(Scaled(WholeNumber(scanned.digits), scanned.places))
  }

  function OrZero(text: string): string { if text == "" then "0" else text }

  function Unsigned(raw: string): string {
    if raw != "" && (raw[0] == '+' || raw[0] == '-') then raw[1..] else raw
  }

  function Signed(raw: string, value: Number): Number {
    if raw != "" && raw[0] == '-' && value.Number? then Number(-value.value) else value
  }

  /** The padded digits with a point after the integer ones. */
  function WithPoint(padded: string, integerDigits: nat): string
    requires integerDigits <= |padded|
  {
    OrZero(padded[..integerDigits]) + "." + OrZero(padded[integerDigits..])
  }

  /** A Gerber coordinate word. */
  function ReadGerberCoordinate(raw: string, format: Format): Number {
    var padded := Padded(Unsigned(raw), format);
    Signed(raw, ParseDecimal(WithPoint(padded, format.integerDigits)))
  }

  /** A drill coordinate, which may carry its own point. */
  function ReadExcellonCoordinate(raw: string, format: Format): Number {
    var digits := Unsigned(raw);
    if '.' in digits then Signed(raw, ParseDecimal(digits))
    else
      var padded := if format.omission.OmitsLeading? then PadStart(digits, format.Width())
                    else PadEnd(digits, format.Width());
      var integerPart := OrZero(padded[..format.integerDigits]);
      Signed(raw, ParseDecimal(integerPart + "." + OrZero(padded[format.integerDigits..])))
  }

  // ------------------------------------------------------------------ arithmetic of digits

  lemma {:induction false} WholeNumberOfConcat(a: string, b: string)
    ensures WholeNumber(a + b) == WholeNumber(a) * Pow10(|b|) + WholeNumber(b)
    decreases |b|
  {
    if b == "" {
      assert a + b == a;
    } else {
      var front, last := b[..|b| - 1], b[|b| - 1];
      WholeNumberOfConcat(a, front);
      assert (a + b)[..|a + b| - 1] == a + front;
      OneMoreDigit(WholeNumber(a), Pow10(|front|), WholeNumber(front), DigitValue(last));
    }
  }

  lemma OneMoreDigit(a: nat, p: nat, front: nat, last: nat)
    ensures 10 * (a * p + front) + last == a * (10 * p) + (10 * front + last)
  {}

  lemma {:induction false} ZerosAreZero(n: nat)
    ensures WholeNumber(Zeros(n)) == 0
  {
    if n > 0 {
      ZerosAreZero(n - 1);
      assert Zeros(n)[..n - 1] == Zeros(n - 1);
    }
  }

  lemma {:induction false} DigitsEndIs(text: string, i: nat, end: nat)
    requires i <= end <= |text|
    requires forall k :: i <= k < end ==> IsDigit(text[k])
    requires end < |text| ==> !IsDigit(text[end])
    ensures DigitsEnd(text, i) == end
    decreases end - i
  {
    if i < end {
      DigitsEndIs(text, i + 1, end);
    }
  }

  lemma ScaledTenfold(n: nat, places: nat)
    ensures Scaled(10 * n, places + 1) == Scaled(n, places)
  {
    var p := Pow10(places) as real;
    assert Pow10(places + 1) as real == 10.0 * p;
    assert (10.0 * n as real) / (10.0 * p) == n as real / p;
  }

  lemma DecimalParts(whole: string, fraction: string)
    requires AllDigits(whole) && AllDigits(fraction)
    ensures var text := whole + "." + fraction;
            && DigitsEnd(text, 0) == |whole| && DigitsEnd(text, |whole| + 1) == |text|
            && text[..|whole|] == whole && text[|whole| + 1..] == fraction && text[|whole|] == '.'
  {
    var text := whole + "." + fraction;
    assert forall k :: 0 <= k < |whole| ==> text[k] == whole[k];
    DigitsEndIs(text, 0, |whole|);
    assert forall k :: |whole| + 1 <= k < |text| ==> text[k] == fraction[k - |whole| - 1];
    DigitsEndIs(text, |whole| + 1, |text|);
  }

  lemma DecimalScan(whole: string, fraction: string)
    requires AllDigits(whole) && AllDigits(fraction)
    ensures ScanDecimal(whole + "." + fraction) == Decimal(whole + fraction, |fraction|)
  {
    DecimalParts(whole, fraction);
    ScanAt(whole + "." + fraction, |whole|);
  }

  lemma ScanAt(text: string, point: nat)
    requires point < |text| && text[point] == '.'
    requires DigitsEnd(text, 0) == point && DigitsEnd(text, point + 1) == |text|
    ensures ScanDecimal(text) == Decimal(text[..point] + text[point + 1..], |text| - point - 1)
  {
    assert text[point + 1..|text|] == text[point + 1..];
  }

  /** A decimal text is the digits on both sides of its point over a power of ten. */
  lemma {:induction false} DecimalValue(whole: string, fraction: string)
    requires AllDigits(whole) && AllDigits(fraction) && (whole != "" || fraction != "")
    ensures ParseDecimal(whole + "." + fraction) == Number(Scaled(WholeNumber(whole + fraction), |fraction|))
  {
    DecimalScan(whole, fraction);
  }

  /** An absent side of the point reads as the zero the source writes there. */
  lemma {:induction false} WithPointValue(padded: string, integerDigits: nat)
    requires AllDigits(padded) && integerDigits <= |padded|
    ensures ParseDecimal(WithPoint(padded, integerDigits))
          == Number(Scaled(WholeNumber(padded), |padded| - integerDigits))
  {
    var whole, fraction := padded[..integerDigits], padded[integerDigits..];
    SidesAreDigits(padded, integerDigits);
    DecimalValue(OrZero(whole), OrZero(fraction));
    SidesValue(whole, fraction);
  }

  lemma SidesAreDigits(padded: string, integerDigits: nat)
    requires AllDigits(padded) && integerDigits <= |padded|
    ensures AllDigits(OrZero(padded[..integerDigits])) && AllDigits(OrZero(padded[integerDigits..]))
    ensures padded[..integerDigits] + padded[integerDigits..] == padded
  {}

  lemma SidesValue(whole: string, fraction: string)
    ensures Scaled(WholeNumber(OrZero(whole) + OrZero(fraction)), |OrZero(fraction)|)
         == Scaled(WholeNumber(whole + fraction), |fraction|)
  {
    WholeNumberOfConcat(OrZero(whole), OrZero(fraction));
    WholeNumberOfConcat(whole, fraction);
    assert WholeNumber("0") == 0 by { assert "0"[..0] == ""; }
    if fraction == "" {
      assert Pow10(1) == 10;
      ScaledTenfold(WholeNumber(whole), 0);
    }
  }

  // ------------------------------------------------------------------ what a coordinate means

  /** The value a format gives to digits: the whole number over the decimal places, with the
      omitted zeros restored at the end they were omitted from. Digits past the declared
      width are further decimals in either convention. */
  function Meaning(digits: string, format: Format): real {
    if |digits| > format.Width() then Scaled(WholeNumber(digits), |digits| - format.integerDigits)
    else if format.omission.OmitsLeading? then Scaled(WholeNumber(digits), format.decimalDigits)
    else Scaled(WholeNumber(digits) * Pow10(format.Width() - |digits|), format.decimalDigits)
  }

  lemma {:induction false} PaddedValue(digits: string, format: Format)
    ensures Scaled(WholeNumber(Padded(digits, format)), |Padded(digits, format)| - format.integerDigits)
         == Meaning(digits, format)
  {
    if |digits| < format.Width() {
      PadsValue(digits, format.Width() - |digits|);
    }
  }

  lemma PadsValue(digits: string, n: nat)
    ensures WholeNumber(Zeros(n) + digits) == WholeNumber(digits)
    ensures WholeNumber(digits + Zeros(n)) == WholeNumber(digits) * Pow10(n)
  {
    ZerosAreZero(n);
    WholeNumberOfConcat(Zeros(n), digits);
    WholeNumberOfConcat(digits, Zeros(n));
  }

  lemma UnsignedWord(sign: string, digits: string)
    requires sign in {"", "+", "-"} && AllDigits(digits)
    ensures Unsigned(sign + digits) == digits && '.' !in digits
    ensures (sign + digits != "" && (sign + digits)[0] == '-') <==> sign == "-"
  {
    if sign == "" {
      assert sign + digits == digits && (digits != "" ==> digits[0] in digits);
    }
  }

  lemma SignedMeaning(raw: string, digits: string, format: Format)
    requires AllDigits(digits) && Unsigned(raw) == digits
    ensures ReadGerberCoordinate(raw, format) == Signed(raw, Number(Meaning(digits, format)))
  {
    PaddedDigits(digits, format);
    WithPointValue(Padded(digits, format), format.integerDigits);
    PaddedValue(digits, format);
  }

  /** Without a point of its own, a drill coordinate is read as a Gerber one. */
  lemma SameWithoutPoint(raw: string, format: Format)
    requires '.' !in Unsigned(raw)
    ensures ReadExcellonCoordinate(raw, format) == ReadGerberCoordinate(raw, format)
  {}

  /** Both readers give a signed word the meaning its format declares, whatever its length. */
  lemma {:induction false} ReadersGiveTheMeaning(sign: string, digits: string, format: Format)
    requires sign in {"", "+", "-"} && AllDigits(digits)
    ensures var value := Meaning(digits, format);
            ReadGerberCoordinate(sign + digits, format) == Number(if sign == "-" then -value else value)
    ensures ReadExcellonCoordinate(sign + digits, format) == ReadGerberCoordinate(sign + digits, format)
  {
    UnsignedWord(sign, digits);
    SignedMeaning(sign + digits, digits, format);
    SameWithoutPoint(sign + digits, format);
  }

  lemma PaddedDigits(digits: string, format: Format)
    requires AllDigits(digits)
    ensures AllDigits(Padded(digits, format))
  {}

  /** A drill coordinate that writes its own point is the decimal it looks like, wherever the point
      stands and whatever the format says. */
  lemma ExplicitPointIsItsDecimal(sign: string, whole: string, fraction: string, format: Format)
    requires sign in {"", "+", "-"} && AllDigits(whole) && AllDigits(fraction)
    ensures var value := Scaled(WholeNumber(whole + fraction), |fraction|);
            ReadExcellonCoordinate(sign + whole + "." + fraction, format)
            == if whole + fraction == "" then NotANumber else Number(if sign == "-" then -value else value)
  {
    PointedWord(sign, whole, fraction);
    DecimalScan(whole, fraction);
  }

  /** With the point where the format has it, it means what the format would have meant. */
  lemma ExplicitPointAgrees(sign: string, whole: string, fraction: string, format: Format)
    requires sign in {"", "+", "-"} && AllDigits(whole) && AllDigits(fraction) && (whole != "" || fraction != "")
    requires |whole| == format.integerDigits && |fraction| == format.decimalDigits
    ensures ReadExcellonCoordinate(sign + whole + "." + fraction, format)
         == ReadExcellonCoordinate(sign + (whole + fraction), format)
  {
    FullWidthMeans(whole + fraction, format);
    ReadersGiveTheMeaning(sign, whole + fraction, format);
    ExplicitPointIsItsDecimal(sign, whole, fraction, format);
  }

  lemma FullWidthMeans(digits: string, format: Format)
    requires |digits| == format.Width()
    ensures Meaning(digits, format) == Scaled(WholeNumber(digits), format.decimalDigits)
  {
    PaddedValue(digits, format);
  }

  lemma PointedWord(sign: string, whole: string, fraction: string)
    requires sign in {"", "+", "-"} && AllDigits(whole) && AllDigits(fraction)
    ensures var word, text := sign + whole + "." + fraction, whole + "." + fraction;
            Unsigned(word) == text && '.' in text && (word[0] == '-' <==> sign == "-")
  {
    var text := whole + "." + fraction;
    assert sign + whole + "." + fraction == sign + text;
    assert text[|whole|] == '.';
    assert whole != "" ==> text[0] == whole[0] && whole[0] in whole;
  }

  // ------------------------------------------------------------------ omitting zeros loses nothing

  function OmitLeading(digits: string): (rest: string)
    ensures |rest| <= |digits|
  {
    if digits != "" && digits[0] == '0' then OmitLeading(digits[1..]) else digits
  }

  function OmitTrailing(digits: string): (rest: string)
    ensures |rest| <= |digits|
  {
    if digits != "" && digits[|digits| - 1] == '0' then OmitTrailing(digits[..|digits| - 1]) else digits
  }

  function Omit(digits: string, omission: Omission): string {
    if omission.OmitsLeading? then OmitLeading(digits) else OmitTrailing(digits)
  }

  lemma {:induction false} OmitLeadingIsUndone(digits: string)
    ensures digits == Zeros(|digits| - |OmitLeading(digits)|) + OmitLeading(digits)
  {
    if digits != "" && digits[0] == '0' {
      OmitLeadingIsUndone(digits[1..]);
      var zeros := |digits| - 1 - |OmitLeading(digits[1..])|;
      assert Zeros(zeros + 1) == "0" + Zeros(zeros);
    }
  }

  lemma {:induction false} OmitTrailingIsUndone(digits: string)
    ensures digits == OmitTrailing(digits) + Zeros(|digits| - |OmitTrailing(digits)|)
  {
    if digits != "" && digits[|digits| - 1] == '0' {
      var front := digits[..|digits| - 1];
      OmitTrailingIsUndone(front);
      var zeros := |front| - |OmitTrailing(front)|;
      assert Zeros(zeros + 1) == Zeros(zeros) + "0";
      assert digits == front + "0";
    }
  }

  /** Digits of full width are recovered from what is left of them. */
  lemma OmissionIsUndone(digits: string, format: Format)
    requires |digits| == format.Width()
    ensures Padded(Omit(digits, format.omission), format) == digits
  {
    OmitLeadingIsUndone(digits);
    OmitTrailingIsUndone(digits);
  }

  /** The digits of a number, at a fixed width. */
  function DigitsOf(n: nat, width: nat): (digits: string)
    ensures |digits| == width && AllDigits(digits)
  {
    if width == 0 then "" else DigitsOf(n / 10, width - 1) + [('0' as int + n % 10) as char]
  }

  lemma {:induction false} DigitsOfValue(n: nat, width: nat)
    requires n < Pow10(width)
    ensures WholeNumber(DigitsOf(n, width)) == n
  {
    if width > 0 {
      DigitsOfValue(n / 10, width - 1);
      var digits := DigitsOf(n, width);
      assert digits[..width - 1] == DigitsOf(n / 10, width - 1);
    }
  }

  /** Reading undoes writing: either reader gets back the number and its sign, with either end's
      zeros left out. */
  lemma ReadUndoesWrite(sign: string, n: nat, format: Format)
    requires sign in {"", "+", "-"} && n < Pow10(format.Width())
    ensures var word := sign + Omit(DigitsOf(n, format.Width()), format.omission);
            var value := Scaled(n, format.decimalDigits);
            && ReadGerberCoordinate(word, format) == Number(if sign == "-" then -value else value)
            && ReadExcellonCoordinate(word, format) == ReadGerberCoordinate(word, format)
  {
    var written := WrittenMeans(n, format);
    ReadersGiveTheMeaning(sign, written, format);
  }

  lemma WrittenMeans(n: nat, format: Format) returns (written: string)
    requires n < Pow10(format.Width())
    ensures written == Omit(DigitsOf(n, format.Width()), format.omission) && AllDigits(written)
    ensures Meaning(written, format) == Scaled(n, format.decimalDigits)
  {
    var digits := DigitsOf(n, format.Width());
    written := Omit(digits, format.omission);
    DigitsOfValue(n, format.Width());
    OmissionIsUndone(digits, format);
    WrittenIsDigits(digits, format.omission);
    PaddedValue(written, format);
  }

  lemma WrittenIsDigits(digits: string, omission: Omission)
    requires AllDigits(digits)
    ensures AllDigits(Omit(digits, omission))
  {
    OmitLeadingIsUndone(digits);
    OmitTrailingIsUndone(digits);
    var written := Omit(digits, omission);
    forall c | c in written ensures IsDigit(c) {
      assert c in digits;
    }
  }
}
