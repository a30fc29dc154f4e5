/** Writing trees and reading them back (src/kicad/sexpr.ts): the reader undoes the writer
    exactly for the trees that respect its nesting limit, however they are laid out. Atoms are
    written as they are, strings with their escapes, and any white space and comments may stand
    between items; what is read while written text goes by is stated first for one tree, then
    for several, and last a tree too deep is shown to be refused. */
module SexprPrinting {
  import opened Characters
  import opened SexprSyntax
  import opened SexprSlices

  /** What a document says, places aside. */
  datatype Tree = AtomTree(value: string) | StringTree(value: string) | ListTree(items: seq<Tree>)

  function TreeOf(node: Node): Tree
    decreases node, 1
  {
    match node
    case Atom(value, _, _) => AtomTree(value)
    case Str(value, _, _) => StringTree(value)
    case List(children, _) => ListTree(TreesOf(children))
  }

  function TreesOf(nodes: seq<Node>): seq<Tree>
    decreases nodes, 0
  {
    if nodes == [] then [] else [TreeOf(nodes[0])] + TreesOf(nodes[1..])
  }

  /** An atom the reader takes as one atom: not empty, no character that ends it, and no
      quote at the front. */
  predicate LegalAtom(value: string) {
    value != "" && value[0] != '"' && forall c :: c in value ==> !EndsAtom(c)
  }

  predicate Legal(tree: Tree)
    decreases tree, 1
  {
    match tree
    case AtomTree(value) => LegalAtom(value)
    case StringTree(_) => true
    case ListTree(items) => AllLegal(items)
  }

  predicate AllLegal(trees: seq<Tree>)
    decreases trees, 0
  {
    trees == [] || (Legal(trees[0]) && AllLegal(trees[1..]))
  }

  /** How deep lists are nested. */
  function Depth(tree: Tree): nat
    decreases tree, 1
  {
    if tree.ListTree? then 1 + DepthOfAll(tree.items) else 0
  }

  function DepthOfAll(trees: seq<Tree>): nat
    decreases trees, 0
  {
    if trees == [] then 0 else Max(Depth(trees[0]), DepthOfAll(trees[1..]))
  }

  function Max(i: nat, j: nat): nat { if i < j then j else i }

  function Escaped(c: char): string {
    if c == '"' || c == '\\' then ['\\', c]
    else if c == '\n' then "\\n"
    else if c == '\r' then "\\r"
    else if c == '\t' then "\\t"
    else [c]
  }

  /** A string with its escapes, up to its closing quote. */
  function UpToQuote(value: string): string {
    if value == "" then "\"" else Escaped(value[0]) + UpToQuote(value[1..])
  }

  // ------------------------------------------------------------------ spelling trees

  /** What may stand between items: white space, and comments up to their line break. */
  datatype Filler = Space(c: char) | Comment(line: string)

  predicate LegalFiller(filler: Filler) {
    match filler
    case Space(c) => IsSpace(c)
    case Comment(line) => '\n' !in line
  }

  predicate LegalGap(gap: seq<Filler>) { forall f :: f in gap ==> LegalFiller(f) }

  function FillerText(filler: Filler): string {
    match filler
    case Space(c) => [c]
    case Comment(line) => ";" + line + "\n"
  }

  function GapText(gap: seq<Filler>): string {
    if gap == [] then "" else FillerText(gap[0]) + GapText(gap[1..])
  }

  /** A tree as it is laid out: what stands before each item, and before the closing parenthesis. */
  datatype Item =
    | AtomItem(value: string)
    | StringItem(value: string)
    | ListItem(items: seq<Spaced>, last: seq<Filler>)

  datatype Spaced = Spaced(gap: seq<Filler>, item: Item)

  function TreeIn(item: Item): Tree
    decreases item, 1
  {
    match item
    case AtomItem(value) => AtomTree(value)
    case StringItem(value) => StringTree(value)
    case ListItem(items, _) => ListTree(TreesIn(items))
  }

  function TreesIn(items: seq<Spaced>): seq<Tree>
    decreases items, 0
  {
    if items == [] then [] else [TreeIn(items[0].item)] + TreesIn(items[1..])
  }

  /** Gaps are made of white space and comments, and items are not adjacent. */
  predicate IsLaidOut(item: Item)
    decreases item, 1
  {
    item.ListItem? ==> LegalGap(item.last) && AllLaidOut(item.items)
  }

  predicate AllLaidOut(items: seq<Spaced>)
    decreases items, 0
  {
    items != [] ==>
      && LegalGap(items[0].gap) && IsLaidOut(items[0].item)
      && (|items| > 1 ==> items[1].gap != []) && AllLaidOut(items[1..])
  }

  function Spell(item: Item): string
    decreases item, 1
  {
    match item
    case AtomItem(value) => value
    case StringItem(value) => "\"" + UpToQuote(value)
    case ListItem(items, last) => "(" + (SpellAll(items) + (GapText(last) + ")"))
  }

  function SpellAll(items: seq<Spaced>): string
    decreases items, 0
  {
    if items == [] then "" else GapText(items[0].gap) + (Spell(items[0].item) + SpellAll(items[1..]))
  }

  // ------------------------------------------------------------------ tokens of printed text

  /** The text holds `part` at an offset. */
  ghost predicate HasAt(text: string, at: nat, part: string) {
    at + |part| <= |text| && text[at..at + |part|] == part
  }

  /** The end of the text or a character that ends an atom. */
  predicate Boundary(text: string, at: nat)
    requires at <= |text|
  {
    at == |text| || EndsAtom(text[at])
  }

  lemma HasAtSplit(text: string, at: nat, left: string, right: string)
    requires HasAt(text, at, left + right)
    ensures HasAt(text, at, left) && HasAt(text, at + |left|, right)
  {
    var whole := text[at..at + |left + right|];
    assert whole[..|left|] == left && whole[|left|..] == right;
    assert text[at..at + |left|] == whole[..|left|];
    assert text[at + |left|..at + |left| + |right|] == whole[|left|..];
  }

  lemma HasAtIndex(text: string, at: nat, part: string, i: nat)
    requires HasAt(text, at, part) && i < |part|
    ensures text[at + i] == part[i]
  {
    assert text[at..at + |part|][i] == part[i];
  }

  lemma {:induction false} AtomIsOneToken(text: string, at: nat, value: string)
    requires HasAt(text, at, value) && Boundary(text, at + |value|)
    requires forall c :: c in value ==> !EndsAtom(c)
    ensures AtomEnd(text, at) == at + |value|
    decreases |value|
  {
    if value != "" {
      HasAtIndex(text, at, value, 0);
      HasAtSplit(text, at, value[..1], value[1..]);
      assert value == value[..1] + value[1..];
      AtomIsOneToken(text, at + 1, value[1..]);
    }
  }

  /** An escaped character is read as the character. */
  lemma EscapedIsScanned(text: string, at: nat, c: char)
    requires HasAt(text, at, Escaped(c))
    ensures var rest := ScanString(text, at + |Escaped(c)|);
            ScanString(text, at) == StringToken([c] + rest.value, rest.end, rest.closed)
  {
    HasAtIndex(text, at, Escaped(c), 0);
    if |Escaped(c)| == 2 {
      HasAtIndex(text, at, Escaped(c), 1);
    }
  }

  lemma QuoteIsScanned(text: string, at: nat)
    requires HasAt(text, at, "\"")
    ensures ScanString(text, at) == StringToken("", at + 1, true)
  {
    HasAtIndex(text, at, "\"", 0);
  }

  lemma {:induction false} EscapedStringIsScanned(text: string, at: nat, value: string)
    requires HasAt(text, at, UpToQuote(value))
    ensures ScanString(text, at) == StringToken(value, at + |UpToQuote(value)|, true)
    decreases |value|
  {
    if value == "" {
      QuoteIsScanned(text, at);
    } else {
      HasAtSplit(text, at, Escaped(value[0]), UpToQuote(value[1..]));
      var token, rest := EscapedToken(text, at, value[0]);
      EscapedStringIsScanned(text, at + |Escaped(value[0])|, value[1..]);
      TokenOneMore(value, at, token, rest);
    }
  }

  lemma EscapedToken(text: string, at: nat, c: char) returns (token: StringToken, rest: StringToken)
    requires HasAt(text, at, Escaped(c))
    ensures ScanString(text, at) == token && ScanString(text, at + |Escaped(c)|) == rest
    ensures token == StringToken([c] + rest.value, rest.end, rest.closed)
  {
    token, rest := ScanString(text, at), ScanString(text, at + |Escaped(c)|);
    EscapedIsScanned(text, at, c);
  }

  lemma TokenOneMore(value: string, at: nat, token: StringToken, rest: StringToken)
    requires value != "" && token == StringToken([value[0]] + rest.value, rest.end, rest.closed)
    requires rest == StringToken(value[1..], at + |Escaped(value[0])| + |UpToQuote(value[1..])|, true)
    ensures token == StringToken(value, at + |UpToQuote(value)|, true)
  {
    assert value == [value[0]] + value[1..];
  }

  // ------------------------------------------------------------------ reading back one tree

  /** Two runs one after the other. */
  lemma {:induction false} RunThen(text: string, st: State, mid: State, last: State)
    requires st.offset <= mid.offset <= last.offset <= |text|
    requires RunTo(text, st, mid.offset) == mid && RunTo(text, mid, last.offset) == last
    ensures RunTo(text, st, last.offset) == last
  {
    RunCompose(text, st, mid.offset, last.offset);
  }

  lemma RunStep(text: string, st: State, next: State)
    requires st.offset < |text| && Step(text, st) == next
    ensures RunTo(text, st, next.offset) == next
  {}

  /** Reading on from a state up to `end` adds one node, and changes nothing else. */
  ghost predicate ReadsAs(text: string, st: State, end: nat, node: Node) {
    end <= |text| && RunTo(text, st, end) == Appended(Moved(st, end), node)
  }

  /** A state with nodes added where its innermost open list takes them. */
  function AllAppended(st: State, nodes: seq<Node>): State {
    if st.stack == [] then State(st.offset, st.nodes + nodes, [], st.errors)
    else
      var n := |st.stack| - 1;
      State(st.offset, st.nodes, st.stack[..n] + [Frame(st.stack[n].children + nodes, st.stack[n].start)], st.errors)
  }

  ghost predicate ReadsAllAs(text: string, st: State, end: nat, nodes: seq<Node>) {
    end <= |text| && RunTo(text, st, end) == AllAppended(Moved(st, end), nodes)
  }

  /** Reading on up to `end` changes nothing but the place. */
  ghost predicate ReadsNothing(text: string, st: State, end: nat) {
    st.offset <= end <= |text| && RunTo(text, st, end) == Moved(st, end)
  }

  lemma {:induction false} CommentIsOneToken(text: string, at: nat, line: string)
    requires HasAt(text, at, line + "\n") && '\n' !in line
    ensures CommentEnd(text, at) == at + |line| + 1
    decreases |line|
  {
    HasAtIndex(text, at, line + "\n", 0);
    if line != "" {
      assert line + "\n" == line[..1] + (line[1..] + "\n");
      HasAtSplit(text, at, line[..1], line[1..] + "\n");
      CommentIsOneToken(text, at + 1, line[1..]);
    }
  }

  lemma FillerIsBlank(text: string, at: nat, filler: Filler)
    requires LegalFiller(filler) && HasAt(text, at, FillerText(filler))
    ensures at < |text| && EndsAtom(text[at]) && TokenAt(text, at) == Blank(at + |FillerText(filler)|)
  {
    HasAtIndex(text, at, FillerText(filler), 0);
    if filler.Comment? {
      assert FillerText(filler) == ";" + (filler.line + "\n");
      HasAtSplit(text, at, ";", filler.line + "\n");
      CommentIsOneToken(text, at + 1, filler.line);
    }
  }

  /** A gap is passed over. */
  lemma {:induction false} GapIsRead(text: string, st: State, gap: seq<Filler>, end: nat)
    requires LegalGap(gap) && HasAt(text, st.offset, GapText(gap)) && end == st.offset + |GapText(gap)|
    ensures ReadsNothing(text, st, end)
    decreases |gap|
  {
    if gap != [] {
      HasAtSplit(text, st.offset, FillerText(gap[0]), GapText(gap[1..]));
      var mid := FillerIsRead(text, st, gap[0]);
      GapIsRead(text, Moved(st, mid), gap[1..], end);
      NothingThen(text, st, mid, end);
    }
  }

  lemma FillerIsRead(text: string, st: State, filler: Filler) returns (mid: nat)
    requires LegalFiller(filler) && HasAt(text, st.offset, FillerText(filler))
    ensures mid == st.offset + |FillerText(filler)| && ReadsNothing(text, st, mid)
  {
    mid := st.offset + |FillerText(filler)|;
    FillerIsBlank(text, st.offset, filler);
    RunStep(text, st, Moved(st, mid));
  }

  lemma NothingThen(text: string, st: State, mid: nat, end: nat)
    requires ReadsNothing(text, st, mid) && ReadsNothing(text, Moved(st, mid), end)
    ensures ReadsNothing(text, st, end)
  {
    RunThen(text, st, Moved(st, mid), Moved(st, end));
  }

  /** A gap that is there ends an atom before it. */
  lemma GapIsBoundary(text: string, at: nat, gap: seq<Filler>, rest: string)
    requires LegalGap(gap) && gap != [] && HasAt(text, at, GapText(gap) + rest)
    ensures Boundary(text, at)
  {
    HasAtSplit(text, at, GapText(gap), rest);
    HasAtSplit(text, at, FillerText(gap[0]), GapText(gap[1..]));
    FillerIsBlank(text, at, gap[0]);
  }

  /** The reader takes the text of a tree from anywhere in a text, at any depth that leaves
      room for it, as one node that says what the tree says. */
  lemma {:induction false} SpelledIsRead(text: string, st: State, item: Item, end: nat) returns (node: Node)
    requires Legal(TreeIn(item)) && IsLaidOut(item) && |st.stack| + Depth(TreeIn(item)) <= MAX_NESTING_DEPTH
    requires HasAt(text, st.offset, Spell(item)) && end == st.offset + |Spell(item)| && Boundary(text, end)
    ensures TreeOf(node) == TreeIn(item)
    ensures ReadsAs(text, st, end, node)
    decreases item, 1
  {
    match item {
      case AtomItem(value) => node := AtomIsRead(text, st, value, end);
      case StringItem(value) => node := StringIsRead(text, st, value, end);
      case ListItem(items, last) =>
        var close := ListLayout(text, st.offset, items, last, end);
        node := ListIsRead(text, st, items, last, close, end);
    }
  }

  lemma AtomIsRead(text: string, st: State, value: string, end: nat) returns (node: Node)
    requires LegalAtom(value)
    requires HasAt(text, st.offset, value) && end == st.offset + |value| && Boundary(text, end)
    ensures node.Atom? && node.value == value
    ensures ReadsAs(text, st, end, node)
  {
    HasAtIndex(text, st.offset, value, 0);
    AtomIsOneToken(text, st.offset, value);
    assert value[0] in value;
    node := AtomAt(text, st.offset);
    RunStep(text, st, Appended(Moved(st, end), node));
  }

  lemma StringIsRead(text: string, st: State, value: string, end: nat) returns (node: Node)
    requires HasAt(text, st.offset, "\"" + UpToQuote(value)) && end == st.offset + 1 + |UpToQuote(value)|
    ensures node.Str? && node.value == value
    ensures ReadsAs(text, st, end, node)
  {
    HasAtSplit(text, st.offset, "\"", UpToQuote(value));
    HasAtIndex(text, st.offset, "\"", 0);
    EscapedStringIsScanned(text, st.offset + 1, value);
    node := StringAt(text, st.offset);
    RunStep(text, st, Appended(Moved(st, end), node));
  }

  lemma {:induction false} ListIsRead(text: string, st: State, items: seq<Spaced>, last: seq<Filler>, close: nat,
                                      end: nat)
      returns (node: Node)
    requires AllLegal(TreesIn(items)) && AllLaidOut(items) && LegalGap(last)
    requires |st.stack| + 1 + DepthOfAll(TreesIn(items)) <= MAX_NESTING_DEPTH
    requires ListAt(text, st.offset, items, last, close, end)
    ensures TreeOf(node) == ListTree(TreesIn(items))
    ensures ReadsAs(text, st, end, node)
    decreases items, 4
  {
    var inside := InsideState(text, st);
    var nodes, filled := FilledStateOf(text, inside, items, last, close, end - 1);
    node := ClosingIsRead(text, st, inside, nodes, filled, end);
  }

  /** The items of a list and the gap after them. */
  lemma {:induction false} ContentsAreRead(text: string, st: State, items: seq<Spaced>, last: seq<Filler>, close: nat,
                                           end: nat)
      returns (nodes: seq<Node>)
    requires AllLegal(TreesIn(items)) && AllLaidOut(items) && LegalGap(last)
    requires |st.stack| + DepthOfAll(TreesIn(items)) <= MAX_NESTING_DEPTH
    requires HasAt(text, st.offset, SpellAll(items)) && close == st.offset + |SpellAll(items)| && Boundary(text, close)
    requires HasAt(text, close, GapText(last)) && end == close + |GapText(last)|
    ensures TreesOf(nodes) == TreesIn(items)
    ensures ReadsAllAs(text, st, end, nodes)
    decreases items, 2
  {
    nodes := AllSpelledAreRead(text, st, items, close);
    LastGapIsRead(text, st, nodes, last, close, end);
  }

  /** And the state they leave. */
  lemma {:induction false} FilledStateOf(text: string, st: State, items: seq<Spaced>, last: seq<Filler>, close: nat,
                                         end: nat)
      returns (nodes: seq<Node>, filled: State)
    requires AllLegal(TreesIn(items)) && AllLaidOut(items) && LegalGap(last)
    requires |st.stack| + DepthOfAll(TreesIn(items)) <= MAX_NESTING_DEPTH
    requires HasAt(text, st.offset, SpellAll(items)) && close == st.offset + |SpellAll(items)| && Boundary(text, close)
    requires HasAt(text, close, GapText(last)) && end == close + |GapText(last)|
    ensures TreesOf(nodes) == TreesIn(items) && IsFilled(st, filled, nodes)
    ensures st.offset <= filled.offset == end <= |text| && RunTo(text, st, end) == filled
    decreases items, 3
  {
    nodes := ContentsAreRead(text, st, items, last, close, end);
    filled := AllAppended(Moved(st, end), nodes);
  }

  lemma LastGapIsRead(text: string, st: State, nodes: seq<Node>, last: seq<Filler>, close: nat, end: nat)
    requires st.offset <= close && ReadsAllAs(text, st, close, nodes) && LegalGap(last)
    requires HasAt(text, close, GapText(last)) && end == close + |GapText(last)|
    ensures ReadsAllAs(text, st, end, nodes)
  {
    var filled := AllAppended(Moved(st, close), nodes);
    GapIsRead(text, filled, last, end);
    RunThen(text, st, filled, Moved(filled, end));
    FilledMoves(st, close, end, nodes);
  }

  lemma FilledMoves(st: State, close: nat, end: nat, nodes: seq<Node>)
    ensures Moved(AllAppended(Moved(st, close), nodes), end) == AllAppended(Moved(st, end), nodes)
  {}

  /** The state just inside a list that opens at a state's offset. */
  function Inside(text: string, st: State): (inside: State)
    requires st.offset < |text| && |st.stack| < MAX_NESTING_DEPTH
    ensures inside.offset == st.offset + 1 && |inside.stack| == |st.stack| + 1 && inside.errors == st.errors
  {
    OpenList(st, st.offset + 1, SpanAt(text, st.offset, st.offset + 1))
  }

  predicate IsInside(st: State, inside: State, text: string) {
    st.offset < |text| && |st.stack| < MAX_NESTING_DEPTH && inside == Inside(text, st)
  }

  /** The state with nodes added to its innermost open list, further on. */
  predicate IsFilled(inside: State, filled: State, nodes: seq<Node>) {
    filled == AllAppended(Moved(inside, filled.offset), nodes)
  }

  lemma OpensInside(text: string, st: State)
    requires st.offset < |text| && |st.stack| < MAX_NESTING_DEPTH
    requires text[st.offset] == '('
    ensures RunTo(text, st, st.offset + 1) == Inside(text, st)
  {
    RunStep(text, st, Inside(text, st));
  }

  /** The text of a list: its parentheses, its items between them, and the gap after the items. */
  ghost predicate ListAt(text: string, at: nat, items: seq<Spaced>, last: seq<Filler>, close: nat, end: nat) {
    && at + 1 <= close < end <= |text|
    && close == at + 1 + |SpellAll(items)| && end - 1 == close + |GapText(last)|
    && HasAt(text, at + 1, SpellAll(items)) && Boundary(text, close) && HasAt(text, close, GapText(last))
    && text[at] == '(' && text[end - 1] == ')'
  }

  lemma ListLayout(text: string, at: nat, items: seq<Spaced>, last: seq<Filler>, end: nat) returns (close: nat)
    requires LegalGap(last)
    requires HasAt(text, at, Spell(ListItem(items, last))) && end == at + |Spell(ListItem(items, last))|
    ensures ListAt(text, at, items, last, close, end)
  {
    var inner, gap := SpellAll(items), GapText(last);
    close := at + 1 + |inner|;
    HasAtSplit(text, at, "(", inner + (gap + ")"));
    HasAtSplit(text, at + 1, inner, gap + ")");
    HasAtSplit(text, close, gap, ")");
    HasAtIndex(text, at, "(", 0);
    HasAtIndex(text, end - 1, ")", 0);
    if last != [] {
      GapIsBoundary(text, close, last, ")");
    }
  }

  /** The parenthesis that closes a list just read makes it a node around what was read. */
  lemma ClosingIsRead(text: string, st: State, inside: State, nodes: seq<Node>, filled: State, end: nat)
      returns (node: Node)
    requires IsInside(st, inside, text) && IsFilled(inside, filled, nodes)
    requires st.offset < inside.offset <= filled.offset < end == filled.offset + 1 <= |text|
    requires RunTo(text, st, inside.offset) == inside && RunTo(text, inside, filled.offset) == filled
    requires text[filled.offset] == ')'
    ensures TreeOf(node) == ListTree(TreesOf(nodes))
    ensures ReadsAs(text, st, end, node)
  {
    node := List(nodes, SpanAt(text, st.offset, end));
    FilledThenClosed(text, st, nodes, filled.offset, end);
    RunThen(text, st, inside, filled);
    RunThen(text, st, filled, Step(text, filled));
  }

  lemma FilledThenClosed(text: string, st: State, nodes: seq<Node>, close: nat, end: nat)
    requires st.offset < close < end == close + 1 <= |text| && |st.stack| < MAX_NESTING_DEPTH
    requires text[close] == ')'
    ensures Step(text, AllAppended(Moved(Inside(text, st), close), nodes))
         == Appended(Moved(st, end), List(nodes, SpanAt(text, st.offset, end)))
  {
    var filled := AllAppended(Moved(Inside(text, st), close), nodes);
    assert TokenAt(text, close) == Close(end, SpanAt(text, close, end));
    assert [] + nodes == nodes;
    assert filled.stack == st.stack + [Frame(nodes, PositionAt(text, st.offset))];
    assert filled.stack[..|st.stack|] == st.stack;
  }

  lemma {:induction false} AllSpelledAreRead(text: string, st: State, items: seq<Spaced>, end: nat)
      returns (nodes: seq<Node>)
    requires AllLegal(TreesIn(items)) && AllLaidOut(items)
    requires |st.stack| + DepthOfAll(TreesIn(items)) <= MAX_NESTING_DEPTH
    requires HasAt(text, st.offset, SpellAll(items)) && end == st.offset + |SpellAll(items)| && Boundary(text, end)
    ensures TreesOf(nodes) == TreesIn(items)
    ensures ReadsAllAs(text, st, end, nodes)
    decreases items, 1
  {
    if items == [] {
      nodes := [];
      AllAppendedNone(Moved(st, end));
    } else {
      var start, mid := ItemsLayout(text, st.offset, items, end);
      GapIsRead(text, st, items[0].gap, start);
      var node := SpelledIsRead(text, Moved(st, start), items[0].item, mid);
      var others := AllSpelledAreRead(text, PastItem(st, node, mid), items[1..], end);
      nodes := [node] + others;
      ItemsAreRead(text, st, node, others, start, mid, end);
    }
  }

  lemma AllAppendedNone(st: State)
    ensures AllAppended(st, []) == st
  {
    assert forall nodes: seq<Node> :: nodes + [] == nodes;
  }

  /** How the text of items divides: a gap, the first item, and the others. */
  lemma ItemsLayout(text: string, at: nat, items: seq<Spaced>, end: nat) returns (start: nat, mid: nat)
    requires items != [] && AllLaidOut(items)
    requires HasAt(text, at, SpellAll(items)) && end == at + |SpellAll(items)| && Boundary(text, end)
    ensures start == at + |GapText(items[0].gap)| && HasAt(text, at, GapText(items[0].gap))
    ensures mid == start + |Spell(items[0].item)| && HasAt(text, start, Spell(items[0].item)) && Boundary(text, mid)
    ensures end == mid + |SpellAll(items[1..])| && HasAt(text, mid, SpellAll(items[1..]))
  {
    var gap, first, rest := GapText(items[0].gap), Spell(items[0].item), SpellAll(items[1..]);
    start := at + |gap|;
    mid := start + |first|;
    HasAtSplit(text, at, gap, first + rest);
    HasAtSplit(text, start, first, rest);
    if |items| > 1 {
      assert items[1..][0] == items[1];
      GapIsBoundary(text, mid, items[1].gap, Spell(items[1].item) + SpellAll(items[1..][1..]));
    }
  }

  /** The state after an item. */
  function PastItem(st: State, node: Node, mid: nat): (next: State)
    ensures next.offset == mid && |next.stack| == |st.stack| && next.errors == st.errors
  {
    Appended(Moved(st, mid), node)
  }

  /** A gap, an item, and the items after it, read one after the other. */
  lemma ItemsAreRead(text: string, st: State, node: Node, others: seq<Node>, start: nat, mid: nat, end: nat)
    requires st.offset <= start <= mid <= end <= |text| && ReadsNothing(text, st, start)
    requires ReadsAs(text, Moved(st, start), mid, node) && ReadsAllAs(text, PastItem(st, node, mid), end, others)
    ensures ReadsAllAs(text, st, end, [node] + others)
  {
    var past := PastItem(st, node, mid);
    AppendedThenAll(past, Moved(st, mid), node, others, end);
    RunThen(text, st, Moved(st, start), past);
    RunThen(text, st, past, RunTo(text, past, end));
  }

  lemma AppendedThenAll(mid: State, before: State, node: Node, others: seq<Node>, end: nat)
    requires mid == Appended(before, node)
    ensures AllAppended(Moved(mid, end), others) == AllAppended(Moved(before, end), [node] + others)
  {
    if before.stack == [] {
      assert before.nodes + [node] + others == before.nodes + ([node] + others);
    } else {
      var n := |before.stack| - 1;
      var children := before.stack[n].children;
      assert children + [node] + others == children + ([node] + others);
    }
  }

  // ------------------------------------------------------------------ beyond the nesting limit

  predicate IsTooDeep(errors: seq<ParseError>, i: nat) { i < |errors| && errors[i].kind.TooDeep? }

  /** Reading on from a state up to `end` reports a list that is too deep. */
  ghost predicate Refused(text: string, st: State, end: nat) {
    end <= |text| && exists i :: |st.errors| <= i && IsTooDeep(RunTo(text, st, end).errors, i)
  }

  lemma {:induction false} RefusedAfter(text: string, st: State, mid: State, end: nat)
    requires st.offset <= mid.offset <= end <= |text| && RunTo(text, st, mid.offset) == mid
    requires mid.errors == st.errors && Refused(text, mid, end)
    ensures Refused(text, st, end)
  {
    RunCompose(text, st, mid.offset, end);
  }

  /** A tree that does not fit below the open lists is refused with an error. */
  lemma {:induction false} DeepIsRefused(text: string, st: State, item: Item, end: nat)
    requires Legal(TreeIn(item)) && IsLaidOut(item)
    requires |st.stack| <= MAX_NESTING_DEPTH < |st.stack| + Depth(TreeIn(item))
    requires HasAt(text, st.offset, Spell(item)) && end == st.offset + |Spell(item)| && Boundary(text, end)
    ensures Refused(text, st, end)
    decreases item, 1
  {
    var close := ListLayout(text, st.offset, item.items, item.last, end);
    DeepListIsRefused(text, st, item.items, item.last, close, end);
  }

  lemma {:induction false} DeepListIsRefused(text: string, st: State, items: seq<Spaced>, last: seq<Filler>, close: nat,
                                             end: nat)
    requires AllLegal(TreesIn(items)) && AllLaidOut(items)
    requires |st.stack| <= MAX_NESTING_DEPTH < |st.stack| + 1 + DepthOfAll(TreesIn(items))
    requires ListAt(text, st.offset, items, last, close, end)
    ensures Refused(text, st, end)
    decreases items, 2
  {
    if |st.stack| == MAX_NESTING_DEPTH {
      FullStackRefuses(text, st, end);
    } else {
      var inside := InsideState(text, st);
      AllDeepAreRefused(text, inside, items, close);
      RefusedAfter(text, st, inside, close);
      RefusedLater(text, st, close, end);
    }
  }

  lemma InsideState(text: string, st: State) returns (inside: State)
    requires st.offset < |text| && |st.stack| < MAX_NESTING_DEPTH
    requires text[st.offset] == '('
    ensures inside.offset == st.offset + 1 && |inside.stack| == |st.stack| + 1 && inside.errors == st.errors
    ensures RunTo(text, st, inside.offset) == inside && IsInside(st, inside, text)
  {
    inside := Inside(text, st);
    OpensInside(text, st);
  }

  lemma FullStackRefuses(text: string, st: State, end: nat)
    requires |st.stack| == MAX_NESTING_DEPTH && st.offset < end <= |text|
    requires text[st.offset] == '('
    ensures Refused(text, st, end)
  {
    RunStep(text, st, Step(text, st));
    assert IsTooDeep(Step(text, st).errors, |st.errors|);
    RefusedLater(text, st, st.offset + 1, end);
  }

  lemma RefusedLater(text: string, st: State, mid: nat, end: nat)
    requires mid <= end <= |text| && Refused(text, st, mid)
    ensures Refused(text, st, end)
  {
    var i :| |st.errors| <= i && IsTooDeep(RunTo(text, st, mid).errors, i);
    RunCompose(text, st, mid, end);
    RunKeepsErrors(text, RunTo(text, st, mid), end);
    assert IsTooDeep(RunTo(text, st, end).errors, i);
  }

  lemma {:induction false} AllDeepAreRefused(text: string, st: State, items: seq<Spaced>, end: nat)
    requires AllLegal(TreesIn(items)) && AllLaidOut(items)
    requires |st.stack| <= MAX_NESTING_DEPTH < |st.stack| + DepthOfAll(TreesIn(items))
    requires HasAt(text, st.offset, SpellAll(items)) && end == st.offset + |SpellAll(items)| && Boundary(text, end)
    ensures Refused(text, st, end)
    decreases items, 1
  {
    var start, mid := ItemsLayout(text, st.offset, items, end);
    var at := Moved(st, start);
    GapIsRead(text, st, items[0].gap, start);
    if MAX_NESTING_DEPTH < |st.stack| + Depth(TreeIn(items[0].item)) {
      DeepIsRefused(text, at, items[0].item, mid);
      RefusedAfter(text, st, at, mid);
      RefusedLater(text, st, mid, end);
    } else {
      var node := SpelledIsRead(text, at, items[0].item, mid);
      var past := PastItem(st, node, mid);
      RunThen(text, st, at, past);
      AllDeepAreRefused(text, past, items[1..], end);
      RefusedAfter(text, st, past, end);
    }
  }

  // ------------------------------------------------------------------ whole documents

  /** The text of a document: its items, and a gap after them. */
  function DocumentText(items: seq<Spaced>, last: seq<Filler>): string { SpellAll(items) + GapText(last) }

  lemma DocumentLayout(items: seq<Spaced>, last: seq<Filler>) returns (text: string, mid: nat)
    requires LegalGap(last)
    ensures text == DocumentText(items, last) && mid == |SpellAll(items)| <= |text|
    ensures HasAt(text, 0, SpellAll(items)) && HasAt(text, mid, GapText(last)) && Boundary(text, mid)
    ensures |text| == mid + |GapText(last)|
  {
    text, mid := DocumentText(items, last), |SpellAll(items)|;
    assert text[0..0 + |text|] == text;
    HasAtSplit(text, 0, SpellAll(items), GapText(last));
    if last != [] {
      assert GapText(last) == GapText(last) + "";
      GapIsBoundary(text, mid, last, "");
    }
  }

  /** However legal trees within the nesting limit are laid out, with white space and comments
      between their items, they come back as they were, without errors. */
  lemma ParseUndoesSpelling(items: seq<Spaced>, last: seq<Filler>)
    requires AllLegal(TreesIn(items)) && AllLaidOut(items) && LegalGap(last)
    requires DepthOfAll(TreesIn(items)) <= MAX_NESTING_DEPTH
    ensures Parse(DocumentText(items, last)).errors == []
    ensures TreesOf(Parse(DocumentText(items, last)).nodes) == TreesIn(items)
  {
    var text, mid := DocumentLayout(items, last);
    var nodes := ContentsAreRead(text, Start(0), items, last, mid, |text|);
    assert [] + nodes == nodes;
  }

  /** The nesting limit is exact: the text of legal trees parses without errors if and only if no
      list is nested deeper than it allows, and otherwise one is reported too deep. */
  lemma SpellingParsesExactlyWithinLimit(items: seq<Spaced>, last: seq<Filler>)
    requires AllLegal(TreesIn(items)) && AllLaidOut(items) && LegalGap(last)
    ensures Parse(DocumentText(items, last)).errors == [] <==> DepthOfAll(TreesIn(items)) <= 512
    ensures Parse(DocumentText(items, last)).errors == []
            || exists i :: IsTooDeep(Parse(DocumentText(items, last)).errors, i)
  {
    if DepthOfAll(TreesIn(items)) <= MAX_NESTING_DEPTH {
      ParseUndoesSpelling(items, last);
    } else {
      var text, mid := DocumentLayout(items, last);
      AllDeepAreRefused(text, Start(0), items, mid);
      RefusedLater(text, Start(0), mid, |text|);
      var i :| IsTooDeep(RunTo(text, Start(0), |text|).errors, i);
      assert IsTooDeep(Parse(text).errors, i);
    }
  }

  // ------------------------------------------------------------------ one canonical layout

  function Print(tree: Tree): string
    decreases tree, 1
  {
    match tree
    case AtomTree(value) => value
    case StringTree(value) => "\"" + UpToQuote(value)
    case ListTree(items) => "(" + PrintAll(items) + ")"
  }

  /** Items separated by single spaces. */
  function PrintAll(trees: seq<Tree>): string
    decreases trees, 0
  {
    if trees == [] then ""
    else if |trees| == 1 then Print(trees[0])
    else Print(trees[0]) + " " + PrintAll(trees[1..])
  }

  function Canonical(tree: Tree): Item
    decreases tree, 2
  {
    match tree
    case AtomTree(value) => AtomItem(value)
    case StringTree(value) => StringItem(value)
    case ListTree(items) => ListItem(CanonicalAll(items, []), [])
  }

  function CanonicalAll(trees: seq<Tree>, gap: seq<Filler>): seq<Spaced>
    decreases trees, 1
  {
    if trees == [] then [] else [Spaced(gap, Canonical(trees[0]))] + CanonicalAll(trees[1..], [Space(' ')])
  }

  lemma {:induction false} CanonicalIsPrinted(tree: Tree)
    ensures TreeIn(Canonical(tree)) == tree && IsLaidOut(Canonical(tree)) && Spell(Canonical(tree)) == Print(tree)
    decreases tree, 2
  {
    if tree.ListTree? {
      CanonicalAllIsPrinted(tree.items, []);
      assert GapText([]) + ")" == ")";
      assert "(" + (PrintAll(tree.items) + ")") == "(" + PrintAll(tree.items) + ")";
    }
  }

  lemma {:induction false} CanonicalAllIsPrinted(trees: seq<Tree>, gap: seq<Filler>)
    requires LegalGap(gap)
    ensures TreesIn(CanonicalAll(trees, gap)) == trees && AllLaidOut(CanonicalAll(trees, gap))
    ensures SpellAll(CanonicalAll(trees, gap)) == if trees == [] then "" else GapText(gap) + PrintAll(trees)
    decreases trees, 1
  {
    if trees != [] {
      CanonicalIsPrinted(trees[0]);
      CanonicalAllIsPrinted(trees[1..], [Space(' ')]);
      CanonicalOneMore(trees, gap, CanonicalAll(trees[1..], [Space(' ')]));
    }
  }

  lemma CanonicalOneMore(trees: seq<Tree>, gap: seq<Filler>, rest: seq<Spaced>)
    requires trees != [] && LegalGap(gap) && rest == CanonicalAll(trees[1..], [Space(' ')])
    requires TreeIn(Canonical(trees[0])) == trees[0] && IsLaidOut(Canonical(trees[0]))
    requires Spell(Canonical(trees[0])) == Print(trees[0])
    requires TreesIn(rest) == trees[1..] && AllLaidOut(rest)
    requires SpellAll(rest) == if trees[1..] == [] then "" else GapText([Space(' ')]) + PrintAll(trees[1..])
    ensures TreesIn(CanonicalAll(trees, gap)) == trees && AllLaidOut(CanonicalAll(trees, gap))
    ensures SpellAll(CanonicalAll(trees, gap)) == GapText(gap) + PrintAll(trees)
  {
    var first := Spaced(gap, Canonical(trees[0]));
    OneMoreItem(first, rest);
    PrintedOneMore(trees, GapText(gap), SpellAll(rest));
  }

  lemma OneMoreItem(first: Spaced, rest: seq<Spaced>)
    ensures TreesIn([first] + rest) == [TreeIn(first.item)] + TreesIn(rest)
    ensures SpellAll([first] + rest) == GapText(first.gap) + (Spell(first.item) + SpellAll(rest))
    ensures LegalGap(first.gap) && IsLaidOut(first.item) && AllLaidOut(rest) && (rest != [] ==> rest[0].gap != [])
            ==> AllLaidOut([first] + rest)
  {
    assert ([first] + rest)[1..] == rest;
  }

  lemma PrintedOneMore(trees: seq<Tree>, gap: string, rest: string)
    requires trees != [] && rest == if |trees| == 1 then "" else GapText([Space(' ')]) + PrintAll(trees[1..])
    ensures gap + (Print(trees[0]) + rest) == gap + PrintAll(trees)
  {
    assert GapText([Space(' ')]) == " ";
    if |trees| == 1 {
      assert Print(trees[0]) + rest == Print(trees[0]);
    } else {
      assert Print(trees[0]) + rest == PrintAll(trees);
    }
  }

  lemma PrintedText(trees: seq<Tree>)
    ensures var items := CanonicalAll(trees, []);
            TreesIn(items) == trees && AllLaidOut(items) && DocumentText(items, []) == PrintAll(trees)
  {
    CanonicalAllIsPrinted(trees, []);
    assert "" + PrintAll(trees) == PrintAll(trees) == PrintAll(trees) + "";
  }

  /** Parsing undoes printing: legal trees within the nesting limit come back as they were,
      without errors. */
  lemma ParseUndoesPrint(trees: seq<Tree>)
    requires AllLegal(trees) && DepthOfAll(trees) <= MAX_NESTING_DEPTH
    ensures Parse(PrintAll(trees)).errors == []
    ensures TreesOf(Parse(PrintAll(trees)).nodes) == trees
  {
    PrintedText(trees);
    ParseUndoesSpelling(CanonicalAll(trees, []), []);
  }

  /** The nesting limit is exact: the printed text of legal trees parses without errors if
      and only if no list is nested deeper than it allows, and otherwise one is reported too deep. */
  lemma ParsesExactlyWithinLimit(trees: seq<Tree>)
    requires AllLegal(trees)
    ensures Parse(PrintAll(trees)).errors == [] <==> DepthOfAll(trees) <= MAX_NESTING_DEPTH
  {
    PrintedText(trees);
    SpellingParsesExactlyWithinLimit(CanonicalAll(trees, []), []);
  }
}
