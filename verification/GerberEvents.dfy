/** Which events the words of a Gerber file are (src/multicad/gerber-parser.ts). */
module GerberEvents {
  // Every event is told by looking back over the words and the events before it: what is modal in
  // a file is what was stated last.
  import opened CoordinateFormat
  import opened GerberArtwork
  import opened GerberContours
  import opened GerberText
  import opened Options
  import opened PlaneDistance

  // ------------------------------------------------------------------ what one word asks for

  /** What the three expressions find in each word: a selection, a G-code and an operation. */
  ghost predicate AreReadings(readings: seq<Reading>, words: seq<string>) {
    && |readings| == |words|
    && forall i :: 0 <= i < |words| ==> IsReading(readings[i], words[i])
  }

  predicate IsReading(reading: Reading, word: string) {
    && reading.selection == ApertureSelection(word)
    && reading.gCode == LeadingGCode(word)
    && reading.operation == PlottedOperation(word)
  }

  predicate OpensRegion(reading: Reading) { reading.gCode == Some(36) }

  predicate ClosesRegion(reading: Reading) { reading.gCode == Some(37) }

  /** An operation that writes a coordinate. */
  predicate PlotsPoint(reading: Reading) {
    reading.operation.Some? && (reading.operation.value.x.Some? || reading.operation.value.y.Some?)
  }

  predicate StatesInterpolation(reading: Reading) { reading.gCode in {Some(1), Some(2), Some(3)} }

  function EventsOf(reading: Reading): nat {
    (if OpensRegion(reading) || ClosesRegion(reading) then 1 else 0) + (if PlotsPoint(reading) then 1 else 0)
  }

  // ------------------------------------------------------------------ looking back over the words

  function EventCount(readings: seq<Reading>, n: nat): nat
    requires n <= |readings|
  {
    if n == 0 then 0 else EventCount(readings, n - 1) + EventsOf(readings[n - 1])
  }

  /** The aperture selected last. */
  function LastSelected(readings: seq<Reading>, n: nat): Option<nat>
    requires n <= |readings|
  {
    if n == 0 then None
    else if readings[n - 1].selection.Some? then readings[n - 1].selection
    else LastSelected(readings, n - 1)
  }

  /** Whether the interpolation stated last is not the linear one. */
  predicate InArcMode(readings: seq<Reading>, n: nat)
    requires n <= |readings|
  {
    if n == 0 then false
    else if StatesInterpolation(readings[n - 1]) then readings[n - 1].gCode != Some(1)
    else InArcMode(readings, n - 1)
  }

  // ------------------------------------------------------------------ what the events are

  /** A coordinate lands where it is written, in the file's format and scale; one that is not
      written stays. */
  ghost predicate AxisLands(word: Option<string>, setting: Setting, value: real, kept: real) {
    match word
    case None => value == kept
    case Some(raw) => exists sign, digits :: IsWritten(raw, sign, digits) && value == Landing(sign, digits, setting)
  }

  predicate IsWritten(raw: string, sign: string, digits: string) {
    raw == sign + digits && sign in {"", "+", "-"} && digits != "" && AllDigits(digits)
  }

  function SignedMeaning(sign: string, digits: string, format: Format): real {
    if sign == "-" then -Meaning(digits, format) else Meaning(digits, format)
  }

  function Landing(sign: string, digits: string, setting: Setting): real {
    SignedMeaning(sign, digits, setting.format) * setting.scale
  }

  ghost predicate Lands(operation: Operation, setting: Setting, to: Vector, pen: Option<Vector>) {
    && AxisLands(operation.x, setting, to.x, if pen.Some? then pen.value.x else 0.0)
    && AxisLands(operation.y, setting, to.y, if pen.Some? then pen.value.y else 0.0)
  }

  /** The event of the operation in word `i` is event `k`. */
  ghost predicate IsEventOf(readings: seq<Reading>, i: nat, events: seq<Event>, k: nat, setting: Setting)
    requires i < |readings| && k < |events| && PlotsPoint(readings[i])
  {
    var operation, event := readings[i].operation.value, events[k];
    && (operation.code.Move? ==> event.MovesTo?)
    && (operation.code.Draw? ==> event.DrawsTo? && event.aperture == LastSelected(readings, i + 1)
                                 && event.arc == InArcMode(readings, i + 1))
    && (operation.code.Flash? ==> event.FlashesAt? && event.aperture == LastSelected(readings, i + 1))
    && Plots(event) && Lands(operation, setting, event.to, PenBefore(events, k))
  }

  /** The events of word `i` stand where the words before it left off, the region change first. */
  ghost predicate IsDecoded(readings: seq<Reading>, i: nat, events: seq<Event>, setting: Setting)
    requires i < |readings|
  {
    && EventCount(readings, i + 1) <= |events|
    && (OpensRegion(readings[i]) ==> events[EventCount(readings, i)] == Opens)
    && (ClosesRegion(readings[i]) ==> events[EventCount(readings, i)] == Closes)
    && (PlotsPoint(readings[i]) ==> IsEventOf(readings, i, events, EventCount(readings, i + 1) - 1, setting))
  }

  ghost predicate AllDecoded(readings: seq<Reading>, n: nat, events: seq<Event>, setting: Setting)
    requires n <= |readings|
  {
    forall i :: 0 <= i < n ==> IsDecoded(readings, i, events, setting)
  }

  // ------------------------------------------------------------------ one more word

  lemma {:induction false} PenOfLonger(before: seq<Event>, after: seq<Event>, n: nat)
    requires n <= |before| && before <= after
    ensures PenBefore(after, n) == PenBefore(before, n)
  {
    if n > 0 {
      assert after[n - 1] == before[n - 1];
      PenOfLonger(before, after, n - 1);
    }
  }

  lemma StillDecoded(readings: seq<Reading>, i: nat, before: seq<Event>, after: seq<Event>, setting: Setting)
    requires i < |readings| && IsDecoded(readings, i, before, setting) && before <= after
    ensures IsDecoded(readings, i, after, setting)
  {
    if PlotsPoint(readings[i]) {
      var k := EventCount(readings, i + 1) - 1;
      assert after[k] == before[k];
      PenOfLonger(before, after, k);
    }
    if OpensRegion(readings[i]) || ClosesRegion(readings[i]) {
      assert after[EventCount(readings, i)] == before[EventCount(readings, i)];
    }
  }

  lemma AxisOfWord(command: string, i: nat, letter: char, setting: Setting)
    requires i <= |command| && i < AxisEnd(command, i, letter)
    ensures var word := AxisText(command, i, AxisEnd(command, i, letter));
            word.Some? && AxisLands(word, setting, CoordinateValue(word.value, setting), 0.0)
  {
    var sign, digits := AxisTextIsANumber(command, i, letter);
    NumberLands(sign, digits, setting);
  }

  lemma NumberLands(sign: string, digits: string, setting: Setting)
    requires sign in {"", "+", "-"} && digits != "" && AllDigits(digits)
    ensures AxisLands(Some(sign + digits), setting, CoordinateValue(sign + digits, setting), 0.0)
  {
    NumberValue(sign, digits, setting);
    assert IsWritten(sign + digits, sign, digits);
  }

  lemma NumberValue(sign: string, digits: string, setting: Setting)
    requires sign in {"", "+", "-"} && AllDigits(digits)
    ensures CoordinateValue(sign + digits, setting) == Landing(sign, digits, setting)
  {
    NumberIsRead(sign, digits, setting.format);
    LandingIsScaled(sign, digits, setting);
  }

  lemma NumberIsRead(sign: string, digits: string, format: Format)
    requires sign in {"", "+", "-"} && AllDigits(digits)
    ensures ReadGerberCoordinate(sign + digits, format) == Number(SignedMeaning(sign, digits, format))
  {
    ReadersGiveTheMeaning(sign, digits, format);
  }

  lemma LandingIsScaled(sign: string, digits: string, setting: Setting)
    ensures InScale(Number(SignedMeaning(sign, digits, setting.format)), setting.scale)
         == Landing(sign, digits, setting)
  {}

  /** A written axis of an operation lands where it is written. */
  ghost predicate LandsIfWritten(word: Option<string>, setting: Setting) {
    word.Some? ==> AxisLands(word, setting, CoordinateValue(word.value, setting), 0.0)
  }

  lemma OperationLands(command: string, setting: Setting)
    requires PlottedOperation(command).Some?
    ensures var operation := PlottedOperation(command).value;
            LandsIfWritten(operation.x, setting) && LandsIfWritten(operation.y, setting)
  {
    var g := AfterGCode(command);
    var x := AxisEnd(command, g, 'X');
    if g < x {
      AxisOfWord(command, g, 'X', setting);
    }
    if x < AxisEnd(command, x, 'Y') {
      AxisOfWord(command, x, 'Y', setting);
    }
  }

  lemma TargetLands(operation: Operation, setting: Setting, pen: Option<Vector>)
    requires LandsIfWritten(operation.x, setting) && LandsIfWritten(operation.y, setting)
    ensures Lands(operation, setting, TargetOf(operation, pen, setting), pen)
  {}

  /** The events and modes after the first words. */
  ghost predicate IsProgress(readings: seq<Reading>, n: nat, decoded: Decoded)
    requires n <= |readings|
  {
    && |decoded.events| == EventCount(readings, n)
    && decoded.modal.pen == PenBefore(decoded.events, |decoded.events|)
    && decoded.modal.selected == LastSelected(readings, n)
    && decoded.modal.arc == InArcMode(readings, n)
  }

  lemma NextReading(readings: seq<Reading>, n: nat, before: Decoded, setting: Setting)
    requires n < |readings| && IsProgress(readings, n, before)
    requires PlotsPoint(readings[n]) ==>
               var operation := readings[n].operation.value;
               LandsIfWritten(operation.x, setting) && LandsIfWritten(operation.y, setting)
    ensures var after := Decode(before, readings[n], setting);
            && before.events <= after.events
            && IsProgress(readings, n + 1, after) && IsDecoded(readings, n, after.events, setting)
  {
    var after := Decode(before, readings[n], setting);
    var changed := before.events + RegionEvents(readings[n].gCode);
    PenAfterRegion(before.events, readings[n].gCode);
    PenOfLonger(changed, after.events, |changed|);
    if PlotsPoint(readings[n]) {
      TargetLands(readings[n].operation.value, setting, before.modal.pen);
    }
  }

  lemma NextIsDecoded(readings: seq<Reading>, n: nat, before: Decoded, setting: Setting)
    requires n < |readings| && IsProgress(readings, n, before) && AllDecoded(readings, n, before.events, setting)
    requires PlotsPoint(readings[n]) ==>
               var operation := readings[n].operation.value;
               LandsIfWritten(operation.x, setting) && LandsIfWritten(operation.y, setting)
    ensures var after := Decode(before, readings[n], setting);
            IsProgress(readings, n + 1, after) && AllDecoded(readings, n + 1, after.events, setting)
  {
    NextReading(readings, n, before, setting);
    var after := Decode(before, readings[n], setting);
    forall i | 0 <= i < n ensures IsDecoded(readings, i, after.events, setting) {
      StillDecoded(readings, i, before.events, after.events, setting);
    }
  }

  lemma PenAfterRegion(events: seq<Event>, code: Option<nat>)
    ensures var changed := events + RegionEvents(code); PenBefore(changed, |changed|) == PenBefore(events, |events|)
  {
    PenOfLonger(events, events + RegionEvents(code), |events|);
  }

  lemma ReadIsReading(word: string)
    ensures IsReading(Read(word), word)
  {}

  lemma DecodedOneMore(words: seq<string>, n: nat, reading: Reading, setting: Setting)
    requires n < |words| && IsReading(reading, words[n])
    ensures DecodedFrom(words[..n + 1], setting) == Decode(DecodedFrom(words[..n], setting), reading, setting)
  {
    assert words[..n + 1][..n] == words[..n];
    ReadIsReading(words[n]);
  }

  /** The events a file's words are decoded to are one for each region change and each operation
      that writes a coordinate, in the order of the words: a region change before the operation
      beside it; D01, D02 and D03 a draw, a move and a flash; drawn with the aperture selected last,
      as an arc if that is the interpolation stated last; each axis where it is written, or where
      the pen is, or at the origin. */
  lemma {:induction false} EventsAreWhatTheWordsSay(
    words: seq<string>, readings: seq<Reading>, n: nat, setting: Setting)
    requires n <= |words| && AreReadings(readings, words)
    ensures var events := DecodedFrom(words[..n], setting).events;
            |events| == EventCount(readings, n) && AllDecoded(readings, n, events, setting)
    ensures IsProgress(readings, n, DecodedFrom(words[..n], setting))
  {
    if n > 0 {
      EventsAreWhatTheWordsSay(words, readings, n - 1, setting);
      var before, reading := DecodedFrom(words[..n - 1], setting), readings[n - 1];
      assert IsReading(reading, words[n - 1]);
      DecodedOneMore(words, n - 1, reading, setting);
      if PlotsPoint(reading) {
        OperationLands(words[n - 1], setting);
      }
      NextIsDecoded(readings, n - 1, before, setting);
    }
  }
}
