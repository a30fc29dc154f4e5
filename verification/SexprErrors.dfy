/** What the S-expression reader reports of malformed text (src/kicad/sexpr.ts). */
module SexprErrors {
  // Within the nesting limit any parentheses divide a text the same way: documents that end in a
  // parenthesis too many, and then documents that each leave a list open, the last of them perhaps
  // a string.
  import opened Options
  import opened SexprSyntax
  import opened SexprSlices
  import opened SexprPrinting

  /** A stretch of text and the trees it lays out. */
  datatype Piece = Piece(text: string, trees: seq<Tree>)

  /** Legal trees that are not too deep, as items and a gap after them; if `isApart`, what comes next
      cannot join the last atom. */
  ghost predicate LaysOut(items: seq<Spaced>, last: seq<Filler>, piece: Piece, isApart: bool, room: nat) {
    && AllLegal(TreesIn(items)) && AllLaidOut(items) && LegalGap(last) && DepthOfAll(TreesIn(items)) <= room
    && piece == Piece(DocumentText(items, last), TreesIn(items)) && (isApart ==> items == [] || last != [])
  }

  ghost predicate IsLaidOutPiece(piece: Piece, isApart: bool, room: nat) {
    exists items, last :: LaysOut(items, last, piece, isApart, room)
  }

  function EscapedAll(value: string): string {
    if value == "" then "" else Escaped(value[0]) + EscapedAll(value[1..])
  }

  /** The text of a string the text ends in, if any. */
  function Tail(string_: Option<string>): string {
    if string_.Some? then "\"" + EscapedAll(string_.value) else ""
  }

  function TailTrees(string_: Option<string>): seq<Tree> {
    if string_.Some? then [StringTree(string_.value)] else []
  }

  /** A text from some place on: the last piece and perhaps a string, or a piece and a list that is
      left open behind it, or a piece and a parenthesis too many. */
  datatype Rest =
    | Ending(piece: Piece, string_: Option<string>)
    | Opening(piece: Piece, later: Rest)
    | Straying(piece: Piece, later: Rest)

  function TextOf(rest: Rest): string {
    match rest
    case Ending(piece, string_) => piece.text + Tail(string_)
    case Opening(piece, later) => piece.text + ("(" + TextOf(later))
    case Straying(piece, later) => piece.text + (")" + TextOf(later))
  }

  /** A list left open holds all that follows. */
  function TreesOfRest(rest: Rest): seq<Tree> {
    match rest
    case Ending(piece, string_) => piece.trees + TailTrees(string_)
    case Opening(piece, later) => piece.trees + [ListTree(TreesOfRest(later))]
    case Straying(piece, later) => piece.trees + TreesOfRest(later)
  }

  /** There is room for all lists, and no parenthesis closes one that was left open. */
  ghost predicate IsLegalRest(rest: Rest, isOpen: bool, room: nat) {
    match rest
    case Ending(piece, string_) => IsLaidOutPiece(piece, string_.Some?, room)
    case Opening(piece, later) => IsLaidOutPiece(piece, false, room) && room > 0 && IsLegalRest(later, true, room - 1)
    case Straying(piece, later) => IsLaidOutPiece(piece, false, room) && !isOpen && IsLegalRest(later, false, room)
  }

  // ------------------------------------------------------------------ what is reported

  /** One error for the string the text ends in. */
  function TailErrors(text: string, string_: Option<string>): seq<ParseError>
    requires |Tail(string_)| <= |text|
  {
    if string_.Some? then [ParseError(UnclosedString, SpanAt(text, |text| - |Tail(string_)|, |text|))] else []
  }

  function StrayError(text: string, close: nat): ParseError
    requires close < |text|
  {
    ParseError(UnexpectedClose, SpanAt(text, close, close + 1))
  }

  function OpenError(text: string, open: nat): ParseError
    requires open < |text|
  {
    ParseError(UnclosedList, SpanAt(text, open, |text|))
  }

  /** One error for each parenthesis too many, in order; then one for the string the text ends in; and
      one for each list left open, from its parenthesis to the end of the text, innermost first. */
  function ErrorsOf(text: string, at: nat, rest: Rest): seq<ParseError>
    requires at + |TextOf(rest)| == |text|
    decreases rest
  {
    var next := at + |rest.piece.text|;
    match rest
    case Ending(_, string_) => TailErrors(text, string_)
    case Opening(_, later) => ErrorsOf(text, next + 1, later) + [OpenError(text, next)]
    case Straying(_, later) => [StrayError(text, next)] + ErrorsOf(text, next + 1, later)
  }

  // ------------------------------------------------------------------ reading one piece

  /** Reading on leads from one state to another. */
  ghost predicate RunsTo(text: string, st: State, next: State) {
    && st.offset <= next.offset <= |text|
    && forall end: nat :: next.offset <= end <= |text| ==> RunTo(text, st, end) == RunTo(text, next, end)
  }

  lemma RunLeads(text: string, st: State, next: State)
    requires st.offset <= next.offset <= |text| && RunTo(text, st, next.offset) == next
    ensures RunsTo(text, st, next)
  {
    forall end: nat | next.offset <= end <= |text| ensures RunTo(text, st, end) == RunTo(text, next, end) {
      RunCompose(text, st, next.offset, end);
    }
  }

  lemma RunsThen(text: string, st: State, mid: State, last: State)
    requires RunsTo(text, st, mid) && RunsTo(text, mid, last)
    ensures RunsTo(text, st, last)
  {
    forall end: nat | last.offset <= end <= |text| ensures RunTo(text, st, end) == RunTo(text, last, end) {
      assert RunTo(text, st, end) == RunTo(text, mid, end);
    }
  }

  /** It gives nodes, and the state they leave. */
  ghost predicate ReadsTo(text: string, st: State, filled: State, nodes: seq<Node>) {
    RunsTo(text, st, filled) && filled == AllAppended(Moved(st, filled.offset), nodes)
  }

  lemma GapAloneIsRead(text: string, st: State, gap: seq<Filler>, end: nat) returns (filled: State)
    requires LegalGap(gap) && HasAt(text, st.offset, GapText(gap)) && end == st.offset + |GapText(gap)|
    ensures filled.offset == end && ReadsTo(text, st, filled, [])
  {
    filled := Moved(st, end);
    GapIsRead(text, st, gap, end);
    RunLeads(text, st, filled);
    AllAppendedNone(filled);
  }

  lemma SomeItemsAreRead(text: string, st: State, items: seq<Spaced>, last: seq<Filler>, close: nat, end: nat)
      returns (nodes: seq<Node>, filled: State)
    requires AllLegal(TreesIn(items)) && AllLaidOut(items) && LegalGap(last)
    requires |st.stack| + DepthOfAll(TreesIn(items)) <= MAX_NESTING_DEPTH
    requires HasAt(text, st.offset, SpellAll(items)) && close == st.offset + |SpellAll(items)| && Boundary(text, close)
    requires HasAt(text, close, GapText(last)) && end == close + |GapText(last)|
    ensures TreesOf(nodes) == TreesIn(items) && filled.offset == end && ReadsTo(text, st, filled, nodes)
  {
    nodes, filled := FilledStateOf(text, st, items, last, close, end);
    RunLeads(text, st, filled);
  }

  lemma ItemsAreReadTo(text: string, st: State, items: seq<Spaced>, last: seq<Filler>, close: nat, end: nat)
      returns (nodes: seq<Node>, filled: State)
    requires AllLegal(TreesIn(items)) && AllLaidOut(items) && LegalGap(last)
    requires |st.stack| + DepthOfAll(TreesIn(items)) <= MAX_NESTING_DEPTH
    requires HasAt(text, st.offset, SpellAll(items)) && close == st.offset + |SpellAll(items)|
    requires items == [] || Boundary(text, close)
    requires HasAt(text, close, GapText(last)) && end == close + |GapText(last)|
    ensures TreesOf(nodes) == TreesIn(items) && filled.offset == end && ReadsTo(text, st, filled, nodes)
  {
    if items == [] {
      nodes := [];
      filled := GapAloneIsRead(text, st, last, end);
    } else {
      nodes, filled := SomeItemsAreRead(text, st, items, last, close, end);
    }
  }

  lemma PieceEnds(text: string, close: nat, last: seq<Filler>)
    requires LegalGap(last) && HasAt(text, close, GapText(last))
    requires last != [] || Boundary(text, close + |GapText(last)|)
    ensures Boundary(text, close)
  {
    if last != [] {
      assert GapText(last) == GapText(last) + "";
      GapIsBoundary(text, close, last, "");
    }
  }

  lemma LaidOutIsRead(text: string, st: State, items: seq<Spaced>, last: seq<Filler>, piece: Piece, isApart: bool,
                      room: nat) returns (nodes: seq<Node>, filled: State)
    requires LaysOut(items, last, piece, isApart, room) && |st.stack| + room <= MAX_NESTING_DEPTH
    requires HasAt(text, st.offset, piece.text)
    requires isApart || Boundary(text, st.offset + |piece.text|)
    ensures TreesOf(nodes) == piece.trees && ReadsTo(text, st, filled, nodes)
    ensures filled.offset == st.offset + |piece.text|
  {
    var close, end := st.offset + |SpellAll(items)|, st.offset + |piece.text|;
    HasAtSplit(text, st.offset, SpellAll(items), GapText(last));
    if items != [] {
      PieceEnds(text, close, last);
    }
    nodes, filled := ItemsAreReadTo(text, st, items, last, close, end);
  }

  lemma SomeLayoutIsRead(text: string, st: State, piece: Piece, isApart: bool, room: nat)
      returns (nodes: seq<Node>, filled: State)
    requires IsLaidOutPiece(piece, isApart, room) && |st.stack| + room <= MAX_NESTING_DEPTH
    requires HasAt(text, st.offset, piece.text)
    requires isApart || Boundary(text, st.offset + |piece.text|)
    ensures TreesOf(nodes) == piece.trees && ReadsTo(text, st, filled, nodes)
    ensures filled.offset == st.offset + |piece.text|
  {
    var items, last :| LaysOut(items, last, piece, isApart, room);
    nodes, filled := LaidOutIsRead(text, st, items, last, piece, isApart, room);
  }

  /** A text goes on like this to its end. */
  ghost predicate GoesOn(text: string, at: nat, rest: string) { at <= |text| && text[at..] == rest }

  lemma WhatFollows(text: string, at: nat, front: string, rest: string)
    requires GoesOn(text, at, front + rest)
    ensures HasAt(text, at, front) && GoesOn(text, at + |front|, rest)
    ensures rest == "" || EndsAtom(rest[0]) ==> Boundary(text, at + |front|)
  {
    assert text[at..][..|front|] == front && text[at..][|front|..] == rest;
  }

  /** A piece is read up to what follows it. */
  lemma PieceIsRead(text: string, st: State, piece: Piece, isApart: bool, room: nat, rest: string)
      returns (nodes: seq<Node>, filled: State)
    requires IsLaidOutPiece(piece, isApart, room) && |st.stack| + room <= MAX_NESTING_DEPTH
    requires GoesOn(text, st.offset, piece.text + rest) && (isApart || rest == "" || EndsAtom(rest[0]))
    ensures TreesOf(nodes) == piece.trees && ReadsTo(text, st, filled, nodes)
    ensures filled.offset == st.offset + |piece.text| && GoesOn(text, filled.offset, rest)
  {
    WhatFollows(text, st.offset, piece.text, rest);
    nodes, filled := SomeLayoutIsRead(text, st, piece, isApart, room);
  }

  lemma {:induction false} TreesOfConcat(a: seq<Node>, b: seq<Node>)
    ensures TreesOf(a + b) == TreesOf(a) + TreesOf(b)
  {
    if a == [] {
      assert a + b == b;
    } else {
      assert (a + b)[1..] == a[1..] + b;
      TreesOfConcat(a[1..], b);
    }
  }

  // ------------------------------------------------------------------ reading to the end of a text

  /** What was read from some place on, part by part. */
  datatype Reading =
    | EndRead(nodes: seq<Node>, string_: Option<string>, errors: seq<ParseError>)
    | OpenRead(nodes: seq<Node>, open: nat, start: Position, later: Reading)
    | StrayRead(nodes: seq<Node>, close: nat, error: ParseError, later: Reading)

  function InsideRead(st: State, nodes: seq<Node>, open: nat, start: Position): State {
    var before := AllAppended(st, nodes);
    State(open + 1, before.nodes, before.stack + [Frame([], start)], before.errors)
  }

  function PastStray(st: State, nodes: seq<Node>, close: nat, error: ParseError): State {
    State(close + 1, st.nodes + nodes, [], st.errors + [error])
  }

  /** The state a reading leaves at the end of the text. */
  function FinalState(st: State, reading: Reading, end: nat): (f: State)
    ensures f.offset == end
    decreases reading
  {
    match reading
    case EndRead(nodes, _, errors) => AllAppended(st, nodes).(offset := end, errors := st.errors + errors)
    case OpenRead(nodes, open, start, later) => FinalState(InsideRead(st, nodes, open, start), later, end)
    case StrayRead(nodes, close, error, later) => FinalState(PastStray(st, nodes, close, error), later, end)
  }

  /** A reading has the trees of a text. */
  predicate HasTrees(rest: Rest, reading: Reading) {
    match rest
    case Ending(piece, string_) => reading.EndRead? && TreesOf(reading.nodes) == piece.trees + TailTrees(string_)
    case Opening(piece, later) =>
      reading.OpenRead? && TreesOf(reading.nodes) == piece.trees && HasTrees(later, reading.later)
    case Straying(piece, later) =>
      reading.StrayRead? && TreesOf(reading.nodes) == piece.trees && HasTrees(later, reading.later)
  }

  /** It has its places. */
  predicate HasPlaces(at: nat, rest: Rest, reading: Reading)
    decreases rest
  {
    var next := at + |rest.piece.text|;
    match rest
    case Ending(_, string_) => reading.EndRead? && reading.string_ == string_
    case Opening(_, later) => reading.OpenRead? && reading.open == next && HasPlaces(next + 1, later, reading.later)
    case Straying(_, later) => reading.StrayRead? && reading.close == next && HasPlaces(next + 1, later, reading.later)
  }

  /** The errors of a reading are those of its places in the text. */
  predicate IsMarked(text: string, reading: Reading) {
    match reading
    case EndRead(_, string_, errors) => |Tail(string_)| <= |text| && errors == TailErrors(text, string_)
    case OpenRead(_, open, start, later) => open < |text| && start == PositionAt(text, open) && IsMarked(text, later)
    case StrayRead(_, close, error, later) =>
      close < |text| && error == StrayError(text, close) && IsMarked(text, later)
  }

  predicate IsReadingOf(text: string, at: nat, rest: Rest, reading: Reading) {
    HasTrees(rest, reading) && HasPlaces(at, rest, reading) && IsMarked(text, reading)
  }

  // ------------------------------------------------------------------ a parenthesis too many

  lemma StrayIsSkipped(text: string, st: State, after: string) returns (next: State)
    requires st.stack == [] && GoesOn(text, st.offset, ")" + after)
    ensures st.offset < |text| && GoesOn(text, st.offset + 1, after)
    ensures next == State(st.offset + 1, st.nodes, [], st.errors + [StrayError(text, st.offset)])
    ensures RunsTo(text, st, next)
  {
    WhatFollows(text, st.offset, ")", after);
    HasAtIndex(text, st.offset, ")", 0);
    next := Step(text, st);
    RunStep(text, st, next);
    RunLeads(text, st, next);
  }

  lemma StrayIsRead(text: string, st: State, piece: Piece, room: nat, after: string)
      returns (nodes: seq<Node>, close: nat, error: ParseError, next: State)
    requires st.stack == [] && IsLaidOutPiece(piece, false, room) && room <= MAX_NESTING_DEPTH
    requires GoesOn(text, st.offset, piece.text + (")" + after))
    ensures TreesOf(nodes) == piece.trees && close == st.offset + |piece.text| < |text|
    ensures error == StrayError(text, close) && next == PastStray(st, nodes, close, error)
    ensures next.stack == [] && next.offset == close + 1
    ensures RunsTo(text, st, next) && GoesOn(text, next.offset, after)
  {
    var filled;
    nodes, filled := PieceIsRead(text, st, piece, false, room, ")" + after);
    close := filled.offset;
    error := StrayError(text, close);
    next := StrayIsSkipped(text, filled, after);
    RunsThen(text, st, filled, next);
  }

  // ------------------------------------------------------------------ a list left open

  lemma ListIsOpened(text: string, st: State, after: string) returns (inside: State)
    requires |st.stack| < MAX_NESTING_DEPTH && GoesOn(text, st.offset, "(" + after)
    ensures st.offset < |text| && GoesOn(text, st.offset + 1, after)
    ensures inside == State(st.offset + 1, st.nodes, st.stack + [Frame([], PositionAt(text, st.offset))], st.errors)
    ensures RunsTo(text, st, inside)
  {
    WhatFollows(text, st.offset, "(", after);
    HasAtIndex(text, st.offset, "(", 0);
    inside := InsideState(text, st);
    RunLeads(text, st, inside);
  }

  lemma OpeningIsRead(text: string, st: State, piece: Piece, room: nat, after: string)
      returns (nodes: seq<Node>, open: nat, start: Position, inside: State)
    requires IsLaidOutPiece(piece, false, room) && |st.stack| + room <= MAX_NESTING_DEPTH
    requires room > 0 && GoesOn(text, st.offset, piece.text + ("(" + after))
    ensures open == st.offset + |piece.text| < |text| && TreesOf(nodes) == piece.trees
    ensures start == PositionAt(text, open) && inside == InsideRead(st, nodes, open, start)
    ensures inside.offset == open + 1 && |inside.stack| == |st.stack| + 1
    ensures RunsTo(text, st, inside) && GoesOn(text, inside.offset, after)
  {
    var filled;
    nodes, filled := PieceIsRead(text, st, piece, false, room, "(" + after);
    open := filled.offset;
    inside := ListIsOpened(text, filled, after);
    start := PositionAt(text, open);
    RunsThen(text, st, filled, inside);
  }

  // ------------------------------------------------------------------ a string left open

  lemma {:induction false} EscapedAllIsScanned(text: string, at: nat, value: string)
    requires HasAt(text, at, EscapedAll(value)) && |text| == at + |EscapedAll(value)|
    ensures ScanString(text, at) == StringToken(value, |text|, false)
    decreases |value|
  {
    if value != "" {
      HasAtSplit(text, at, Escaped(value[0]), EscapedAll(value[1..]));
      var token, rest := EscapedToken(text, at, value[0]);
      EscapedAllIsScanned(text, at + |Escaped(value[0])|, value[1..]);
      OpenTokenOneMore(value, |text|, token, rest);
    }
  }

  lemma OpenTokenOneMore(value: string, end: nat, token: StringToken, rest: StringToken)
    requires value != "" && token == StringToken([value[0]] + rest.value, rest.end, rest.closed)
    requires rest == StringToken(value[1..], end, false)
    ensures token == StringToken(value, end, false)
  {
    assert value == [value[0]] + value[1..];
  }

  lemma OpenStringAt(text: string, at: nat, value: string)
    requires GoesOn(text, at, Tail(Some(value)))
    ensures at < |text| && text[at] == '"' && ScanString(text, at + 1) == StringToken(value, |text|, false)
  {
    WhatFollows(text, at, "\"", EscapedAll(value));
    HasAtIndex(text, at, "\"", 0);
    assert text[at + 1..|text|] == EscapedAll(value);
    EscapedAllIsScanned(text, at + 1, value);
  }

  /** A text that ends in a string reads it as a node, with an error. */
  lemma OpenStringIsRead(text: string, st: State, value: string) returns (node: Node)
    requires GoesOn(text, st.offset, Tail(Some(value)))
    ensures TreeOf(node) == StringTree(value)
    ensures RunTo(text, st, |text|)
         == Appended(WithError(Moved(st, |text|), UnclosedString, SpanAt(text, st.offset, |text|)), node)
  {
    OpenStringAt(text, st.offset, value);
    node := StringAt(text, st.offset);
    RunStep(text, st, Step(text, st));
  }

  /** A state as it was, or with the string that ends the text. */
  lemma TailIsRead(text: string, st: State, string_: Option<string>) returns (nodes: seq<Node>, f: State)
    requires GoesOn(text, st.offset, Tail(string_))
    ensures TreesOf(nodes) == TailTrees(string_)
    ensures RunsTo(text, st, f) && f.offset == |text|
    ensures f == AllAppended(st, nodes).(offset := |text|, errors := st.errors + TailErrors(text, string_))
  {
    f := RunTo(text, st, |text|);
    if string_.Some? {
      var node := OpenStringIsRead(text, st, string_.value);
      nodes := [node];
    } else {
      nodes := [];
      AllAppendedNone(st);
    }
    RunLeads(text, st, f);
  }

  lemma AppendedTwice(st: State, read: seq<Node>, others: seq<Node>)
    ensures AllAppended(AllAppended(st, read), others) == AllAppended(st, read + others)
  {
    if st.stack == [] {
      assert st.nodes + read + others == st.nodes + (read + others);
    } else {
      var children := st.stack[|st.stack| - 1].children;
      assert children + read + others == children + (read + others);
    }
  }

  /** The last document, and the string it may end in. */
  lemma LastIsRead(text: string, st: State, piece: Piece, room: nat, string_: Option<string>)
      returns (nodes: seq<Node>, f: State)
    requires IsLaidOutPiece(piece, string_.Some?, room) && |st.stack| + room <= MAX_NESTING_DEPTH
    requires GoesOn(text, st.offset, piece.text + Tail(string_))
    ensures TreesOf(nodes) == piece.trees + TailTrees(string_) && |Tail(string_)| <= |text|
    ensures RunsTo(text, st, f) && f == FinalState(st, EndRead(nodes, string_, TailErrors(text, string_)), |text|)
  {
    var read, filled := PieceIsRead(text, st, piece, string_.Some?, room, Tail(string_));
    var others;
    others, f := TailIsRead(text, filled, string_);
    RunsThen(text, st, filled, f);
    nodes := read + others;
    TreesOfConcat(read, others);
    AppendedTwice(Moved(st, filled.offset), read, others);
  }

  ghost predicate LeadsToEnd(text: string, st: State, reading: Reading, f: State) {
    RunsTo(text, st, f) && f == FinalState(st, reading, |text|)
  }

  /** A text is read to its end from any state that leaves room for it. */
  lemma {:induction false} RestIsRead(text: string, st: State, rest: Rest, isOpen: bool, room: nat)
      returns (reading: Reading, f: State)
    requires |st.stack| + room == MAX_NESTING_DEPTH && isOpen == (st.stack != []) && IsLegalRest(rest, isOpen, room)
    requires GoesOn(text, st.offset, TextOf(rest))
    ensures LeadsToEnd(text, st, reading, f) && IsReadingOf(text, st.offset, rest, reading)
    decreases rest, 0
  {
    match rest {
      case Ending(piece, string_) =>
        var nodes;
        nodes, f := LastIsRead(text, st, piece, room, string_);
        reading := EndRead(nodes, string_, TailErrors(text, string_));
      case Opening(piece, later) => reading, f := OpeningRestIsRead(text, st, piece, later, room, TextOf(later));
      case Straying(piece, later) => reading, f := StrayingRestIsRead(text, st, piece, later, room, TextOf(later));
    }
  }

  lemma {:induction false} OpeningRestIsRead(text: string, st: State, piece: Piece, later: Rest, room: nat,
                                             after: string) returns (reading: Reading, f: State)
    requires 0 < room && |st.stack| + room == MAX_NESTING_DEPTH && IsLaidOutPiece(piece, false, room)
    requires IsLegalRest(later, true, room - 1) && after == TextOf(later)
    requires GoesOn(text, st.offset, piece.text + ("(" + after))
    ensures LeadsToEnd(text, st, reading, f) && IsReadingOf(text, st.offset, Opening(piece, later), reading)
    decreases later, 1
  {
    var nodes, open, start, inside := OpeningIsRead(text, st, piece, room, after);
    var next;
    next, f := RestIsRead(text, inside, later, true, room - 1);
    reading := OpeningJoins(text, st, piece, later, nodes, open, start, inside, next, f);
  }

  lemma OpeningJoins(text: string, st: State, piece: Piece, later: Rest, nodes: seq<Node>, open: nat, start: Position,
                     inside: State, next: Reading, f: State) returns (reading: Reading)
    requires open == st.offset + |piece.text| < |text| && TreesOf(nodes) == piece.trees
    requires start == PositionAt(text, open) && inside == InsideRead(st, nodes, open, start)
    requires inside.offset == open + 1 && RunsTo(text, st, inside)
    requires LeadsToEnd(text, inside, next, f) && IsReadingOf(text, inside.offset, later, next)
    ensures LeadsToEnd(text, st, reading, f) && IsReadingOf(text, st.offset, Opening(piece, later), reading)
  {
    reading := OpenRead(nodes, open, start, next);
    RunsThen(text, st, inside, f);
  }

  lemma {:induction false} StrayingRestIsRead(text: string, st: State, piece: Piece, later: Rest, room: nat,
                                              after: string) returns (reading: Reading, f: State)
    requires st.stack == [] && room == MAX_NESTING_DEPTH && IsLaidOutPiece(piece, false, room)
    requires IsLegalRest(later, false, room) && after == TextOf(later)
    requires GoesOn(text, st.offset, piece.text + (")" + after))
    ensures LeadsToEnd(text, st, reading, f) && IsReadingOf(text, st.offset, Straying(piece, later), reading)
    decreases later, 1
  {
    var nodes, close, error, past := StrayIsRead(text, st, piece, room, after);
    var next;
    next, f := RestIsRead(text, past, later, false, room);
    reading := StrayJoins(text, st, piece, later, nodes, close, error, past, next, f);
  }

  lemma StrayJoins(text: string, st: State, piece: Piece, later: Rest, nodes: seq<Node>, close: nat,
                   error: ParseError, past: State, next: Reading, f: State) returns (reading: Reading)
    requires close == st.offset + |piece.text| < |text| && TreesOf(nodes) == piece.trees
    requires error == StrayError(text, close) && past == PastStray(st, nodes, close, error)
    requires past.offset == close + 1 && RunsTo(text, st, past)
    requires LeadsToEnd(text, past, next, f) && IsReadingOf(text, past.offset, later, next)
    ensures LeadsToEnd(text, st, reading, f) && IsReadingOf(text, st.offset, Straying(piece, later), reading)
  {
    reading := StrayRead(nodes, close, error, next);
    RunsThen(text, st, past, f);
  }

  // ------------------------------------------------------------------ what the end of a text adds

  /** The nodes of a reading whose open lists end with the text. */
  function NodesRead(reading: Reading, end: Position): seq<Node> {
    match reading
    case EndRead(nodes, _, _) => nodes
    case OpenRead(nodes, _, start, later) => nodes + [List(NodesRead(later, end), Span(start, end))]
    case StrayRead(nodes, _, _, later) => nodes + NodesRead(later, end)
  }

  function ErrorsRead(reading: Reading, end: Position): seq<ParseError> {
    match reading
    case EndRead(_, _, errors) => errors
    case OpenRead(_, _, start, later) => ErrorsRead(later, end) + [ParseError(UnclosedList, Span(start, end))]
    case StrayRead(_, _, error, later) => [error] + ErrorsRead(later, end)
  }

  function EndNodes(st: State, end: Position): seq<Node> { NodesOf(st.nodes, st.stack, end) }

  function EndErrors(st: State, end: Position): seq<ParseError> { st.errors + UnclosedErrors(st.stack, end) }

  predicate StraysOnlyOutside(reading: Reading, isOpen: bool) {
    match reading
    case EndRead(_, _, _) => true
    case OpenRead(_, _, _, later) => StraysOnlyOutside(later, true)
    case StrayRead(_, _, _, later) => !isOpen && StraysOnlyOutside(later, false)
  }

  /** A list that ends with the text joins what was read before it. */
  lemma OpenListEnds(st: State, read: seq<Node>, open: nat, start: Position, held: seq<Node>, end: Position)
    ensures var inside := AllAppended(InsideRead(st, read, open, start), held);
            EndNodes(inside, end) == EndNodes(AllAppended(st, read + [List(held, Span(start, end))]), end)
  {
    var before := AllAppended(st, read);
    var inside := AllAppended(InsideRead(st, read, open, start), held);
    assert [] + held == held;
    assert inside.stack == before.stack + [Frame(held, start)] && inside.stack[..|before.stack|] == before.stack;
    AppendedTwice(st, read, [List(held, Span(start, end))]);
  }

  /** The frames below are open from where they were, whatever their lists hold. */
  lemma AppendedIsOpenFrom(st: State, nodes: seq<Node>, end: Position)
    ensures UnclosedErrors(AllAppended(st, nodes).stack, end) == UnclosedErrors(st.stack, end)
  {
    if st.stack != [] {
      var n := |st.stack| - 1;
      assert AllAppended(st, nodes).stack[..n] == st.stack[..n];
    }
  }

  lemma OpenListIsReported(st: State, read: seq<Node>, open: nat, start: Position, end: Position)
    ensures UnclosedErrors(InsideRead(st, read, open, start).stack, end)
         == [ParseError(UnclosedList, Span(start, end))] + UnclosedErrors(st.stack, end)
  {
    var before := AllAppended(st, read);
    var inside := InsideRead(st, read, open, start);
    assert inside.stack[..|before.stack|] == before.stack;
    AppendedIsOpenFrom(st, read, end);
  }

  lemma {:induction false} NodesAtTheEnd(st: State, reading: Reading, size: nat, end: Position)
    requires StraysOnlyOutside(reading, st.stack != [])
    ensures EndNodes(FinalState(st, reading, size), end) == EndNodes(AllAppended(st, NodesRead(reading, end)), end)
    decreases reading
  {
    match reading {
      case EndRead(nodes, _, errors) =>
      case OpenRead(nodes, open, start, later) =>
        NodesAtTheEnd(InsideRead(st, nodes, open, start), later, size, end);
        OpenListEnds(st, nodes, open, start, NodesRead(later, end), end);
      case StrayRead(nodes, close, error, later) =>
        var past := PastStray(st, nodes, close, error);
        NodesAtTheEnd(past, later, size, end);
        assert st.nodes + nodes + NodesRead(later, end) == st.nodes + (nodes + NodesRead(later, end));
    }
  }

  lemma {:induction false} ErrorsAtTheEnd(st: State, reading: Reading, size: nat, end: Position)
    requires StraysOnlyOutside(reading, st.stack != [])
    ensures EndErrors(FinalState(st, reading, size), end)
         == st.errors + ErrorsRead(reading, end) + UnclosedErrors(st.stack, end)
    decreases reading
  {
    match reading {
      case EndRead(nodes, _, errors) => AppendedIsOpenFrom(st, nodes, end);
      case OpenRead(nodes, open, start, later) =>
        ErrorsAtTheEnd(InsideRead(st, nodes, open, start), later, size, end);
        OpenListIsReported(st, nodes, open, start, end);
        ErrorsInFront(st.errors, ErrorsRead(later, end), [ParseError(UnclosedList, Span(start, end))],
                      UnclosedErrors(st.stack, end));
      case StrayRead(nodes, close, error, later) =>
        ErrorsAtTheEnd(PastStray(st, nodes, close, error), later, size, end);
        ErrorsInFront(st.errors, [error], ErrorsRead(later, end), []);
    }
  }

  lemma ErrorsInFront(a: seq<ParseError>, b: seq<ParseError>, c: seq<ParseError>, d: seq<ParseError>)
    ensures a + b + (c + d) == a + (b + c) + d
  {}

  lemma {:induction false} ReadingStrays(rest: Rest, reading: Reading, isOpen: bool, room: nat)
    requires IsLegalRest(rest, isOpen, room) && HasTrees(rest, reading)
    ensures StraysOnlyOutside(reading, isOpen)
    decreases rest
  {
    match rest {
      case Ending(_, _) =>
      case Opening(_, later) => ReadingStrays(later, reading.later, true, room - 1);
      case Straying(_, later) => ReadingStrays(later, reading.later, false, room);
    }
  }

  lemma {:induction false} ReadingHasTrees(rest: Rest, reading: Reading, end: Position)
    requires HasTrees(rest, reading)
    ensures TreesOf(NodesRead(reading, end)) == TreesOfRest(rest)
    decreases rest
  {
    match rest {
      case Ending(_, _) =>
      case Opening(_, later) =>
        ReadingHasTrees(later, reading.later, end);
        TreesOfConcat(reading.nodes, [List(NodesRead(reading.later, end), Span(reading.start, end))]);
      case Straying(_, later) =>
        ReadingHasTrees(later, reading.later, end);
        TreesOfConcat(reading.nodes, NodesRead(reading.later, end));
    }
  }

  lemma {:induction false} ReadingHasErrors(text: string, at: nat, rest: Rest, reading: Reading, end: Position)
    requires HasPlaces(at, rest, reading) && IsMarked(text, reading)
    requires at + |TextOf(rest)| == |text| && end == PositionAt(text, |text|)
    ensures ErrorsRead(reading, end) == ErrorsOf(text, at, rest)
    decreases rest
  {
    var next := at + |rest.piece.text|;
    match rest {
      case Ending(_, _) =>
      case Opening(_, later) => ReadingHasErrors(text, next + 1, later, reading.later, end);
      case Straying(_, later) => ReadingHasErrors(text, next + 1, later, reading.later, end);
    }
  }

  // ------------------------------------------------------------------ malformed documents

  /** Whatever parentheses a text has too many or too few, within the nesting limit: each one too
      many is reported where it stands and skipped, a string and lists left open end with the text
      and are reported, the string first and the innermost list next, and every tree is kept. */
  lemma MalformedIsReported(rest: Rest)
    requires IsLegalRest(rest, false, MAX_NESTING_DEPTH)
    ensures TreesOf(Parse(TextOf(rest)).nodes) == TreesOfRest(rest)
    ensures Parse(TextOf(rest)).errors == ErrorsOf(TextOf(rest), 0, rest)
  {
    var text := TextOf(rest);
    var end := PositionAt(text, |text|);
    assert text[0..] == text;
    var reading, f := RestIsRead(text, Start(0), rest, false, MAX_NESTING_DEPTH);
    ReadingStrays(rest, reading, false, MAX_NESTING_DEPTH);
    ReadingHasTrees(rest, reading, end);
    ReadingHasErrors(text, 0, rest, reading, end);
    NodesAtTheEnd(Start(0), reading, |text|, end);
    ErrorsAtTheEnd(Start(0), reading, |text|, end);
    DocumentEnds(text, f, NodesRead(reading, end), ErrorsRead(reading, end));
  }

  lemma DocumentEnds(text: string, f: State, nodes: seq<Node>, errors: seq<ParseError>)
    requires RunsTo(text, Start(0), f) && f.offset == |text|
    requires EndNodes(f, PositionAt(text, |text|)) == [] + nodes
    requires EndErrors(f, PositionAt(text, |text|)) == [] + errors + []
    ensures Parse(text).nodes == nodes && Parse(text).errors == errors
  {
    assert RunTo(text, Start(0), |text|) == f;
    assert [] + nodes == nodes;
    assert [] + errors + [] == errors;
  }
}
