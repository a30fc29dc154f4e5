/** The S-expression reader (src/kicad/sexpr.ts) as a stack machine over one text: `Step` says
    what one token does to the state, `Parse` what a whole text means. What stands at a place of
    the text (an atom, a string with its escapes, a parenthesis, a comment) depends on the text
    alone; what a token does to the open lists, the nodes and the errors depends on the state
    alone; and the nesting limit is where the two meet. An open list is a value on the stack and
    joins its parent when it closes. */
module SexprSyntax {
  import opened Characters

  datatype Position = Position(offset: int, line: int, column: int)

  datatype Span = Span(start: Position, end: Position)

  datatype Node =
    | Atom(value: string, raw: string, span: Span)
    | Str(value: string, raw: string, span: Span)
    | List(children: seq<Node>, span: Span)

  datatype ErrorKind = UnclosedString | UnclosedList | UnexpectedClose | TooDeep

  datatype ParseError = ParseError(kind: ErrorKind, span: Span)

  datatype Document = Document(text: string, nodes: seq<Node>, errors: seq<ParseError>)

  const MAX_NESTING_DEPTH := 512

  // ------------------------------------------------------------------ characters

  /** What ends an atom. A quote does not. */
  predicate EndsAtom(c: char) { IsSpace(c) || c == '(' || c == ')' || c == ';' }

  function DecodeEscape(c: char): char {
    if c == 'n' then '\n' else if c == 'r' then '\r' else if c == 't' then '\t' else c
  }

  function AdvancePosition(p: Position, c: char): Position {
    if c == '\n' then Position(p.offset + 1, p.line + 1, 1) else Position(p.offset + 1, p.line, p.column + 1)
  }

  /** Line and column of an offset, from the text before it alone. */
  function PositionAt(text: string, offset: nat): (p: Position)
    requires offset <= |text|
    ensures p.offset == offset
  {
    if offset == 0 then Position(0, 1, 1) else AdvancePosition(PositionAt(text, offset - 1), text[offset - 1])
  }

  // ------------------------------------------------------------------ tokens

  function AtomEnd(text: string, from: nat): (end: nat)
    requires from <= |text|
    ensures from <= end <= |text|
    decreases |text| - from
  {
    if from == |text| || EndsAtom(text[from]) then from else AtomEnd(text, from + 1)
  }

  function CommentEnd(text: string, from: nat): (end: nat)
    requires from <= |text|
    ensures from <= end <= |text|
    ensures from < |text| ==> from < end
    decreases |text| - from
  {
    if from == |text| then from else if text[from] == '\n' then from + 1 else CommentEnd(text, from + 1)
  }

  datatype StringToken = StringToken(value: string, end: nat, closed: bool)

  /** Reads a string from just after its opening quote. */
  function ScanString(text: string, from: nat): (token: StringToken)
    requires from <= |text|
    ensures from <= token.end <= |text|
    decreases |text| - from
  {
    if from == |text| then StringToken("", from, false)
    else if text[from] == '"' then StringToken("", from + 1, true)
    else if text[from] == '\\' then
      if from + 1 == |text| then StringToken("", from + 1, false)
      else
        var rest := ScanString(text, from + 2);
        rest.(value := [DecodeEscape(text[from + 1])] + rest.value)
    else
      var rest := ScanString(text, from + 1);
      rest.(value := [text[from]] + rest.value)
  }

  function SpanAt(text: string, from: nat, to: nat): Span
    requires from <= |text| && to <= |text|
  {
    Span(PositionAt(text, from), PositionAt(text, to))
  }

  /** The string token at an opening quote, as a node. */
  function StringAt(text: string, from: nat): Node
    requires from < |text|
  {
    var token := ScanString(text, from + 1);
    Str(token.value, text[from..token.end], SpanAt(text, from, token.end))
  }

  /** The atom token at an offset, as a node. */
  function AtomAt(text: string, from: nat): Node
    requires from <= |text|
  {
    var end := AtomEnd(text, from);
    Atom(text[from..end], text[from..end], SpanAt(text, from, end))
  }

  /** What the text holds at an offset, whatever the state: white space or a comment, a
      parenthesis, or a node; a string may run out of text before it is closed. */
  datatype Token =
    | Blank(end: nat)
    | Open(end: nat, span: Span)
    | Close(end: nat, span: Span)
    | Leaf(end: nat, node: Node, closed: bool)

  function StringLeaf(text: string, at: nat): (token: Token)
    requires at < |text|
    ensures token.Leaf? && at < token.end <= |text|
  {
    var token := ScanString(text, at + 1);
    Leaf(token.end, StringAt(text, at), token.closed)
  }

  function TokenAt(text: string, at: nat): (token: Token)
    requires at < |text|
    ensures at < token.end <= |text|
  {
    var c := text[at];
    if IsSpace(c) then Blank(at + 1)
    else if c == ';' then Blank(CommentEnd(text, at))
    else if c == '(' then Open(at + 1, SpanAt(text, at, at + 1))
    else if c == ')' then Close(at + 1, SpanAt(text, at, at + 1))
    else if c == '"' then StringLeaf(text, at)
    else Leaf(AtomEnd(text, at), AtomAt(text, at), true)
  }

  // ------------------------------------------------------------------ the stack machine

  /** A list that has been opened and not yet closed. */
  datatype Frame = Frame(children: seq<Node>, start: Position)

  datatype State = State(offset: nat, nodes: seq<Node>, stack: seq<Frame>, errors: seq<ParseError>)

  function Start(offset: nat): State { State(offset, [], [], []) }

  function TopAppended(stack: seq<Frame>, node: Node): seq<Frame>
    requires stack != []
  {
    var top := stack[|stack| - 1];
    stack[..|stack| - 1] + [top.(children := top.children + [node])]
  }

  /** Adds a node where the innermost open list takes it. */
  function Appended(st: State, node: Node): State {
    if st.stack == [] then st.(nodes := st.nodes + [node]) else st.(stack := TopAppended(st.stack, node))
  }

  function WithError(st: State, kind: ErrorKind, span: Span): State {
    st.(errors := st.errors + [ParseError(kind, span)])
  }

  function OpenList(st: State, end: nat, span: Span): State {
    if |st.stack| >= MAX_NESTING_DEPTH then WithError(Moved(st, end), TooDeep, span)
    else State(end, st.nodes, st.stack + [Frame([], span.start)], st.errors)
  }

  /** The list a closing parenthesis completes. */
  function Completed(st: State, span: Span): Node
    requires st.stack != []
  {
    var top := st.stack[|st.stack| - 1];
    List(top.children, Span(top.start, span.end))
  }

  function CloseList(st: State, end: nat, span: Span): State {
    if st.stack == [] then WithError(Moved(st, end), UnexpectedClose, span)
    else Appended(State(end, st.nodes, st.stack[..|st.stack| - 1], st.errors), Completed(st, span))
  }

  function Moved(st: State, end: nat): State { State(end, st.nodes, st.stack, st.errors) }

  function AddLeaf(st: State, end: nat, node: Node, closed: bool): State {
    Appended(if closed then Moved(st, end) else WithError(Moved(st, end), UnclosedString, node.span), node)
  }

  /** What one token does to the state, whatever the text. */
  function Apply(st: State, token: Token): (next: State)
    ensures next.offset == token.end
  {
    match token
    case Blank(end) => Moved(st, end)
    case Open(end, span) => OpenList(st, end, span)
    case Close(end, span) => CloseList(st, end, span)
    case Leaf(end, node, closed) => AddLeaf(st, end, node, closed)
  }

  function Step(text: string, st: State): (next: State)
    requires st.offset < |text|
    ensures st.offset < next.offset <= |text|
  {
    Apply(st, TokenAt(text, st.offset))
  }

  /** Steps until the position reaches `end`. */
  function RunTo(text: string, st: State, end: nat): (last: State)
    requires end <= |text|
    ensures end <= last.offset && st.offset <= last.offset
    ensures st.offset <= |text| ==> last.offset <= |text|
    decreases end - st.offset
  {
    if end <= st.offset then st else RunTo(text, Step(text, st), end)
  }

  /** Lists still open at the end of the text, innermost first. */
  function UnclosedErrors(stack: seq<Frame>, end: Position): seq<ParseError> {
    if stack == [] then []
    else [ParseError(UnclosedList, Span(stack[|stack| - 1].start, end))] + UnclosedErrors(stack[..|stack| - 1], end)
  }

  /** The nodes of a document whose open lists end where the text does. */
  function NodesOf(nodes: seq<Node>, stack: seq<Frame>, end: Position): seq<Node>
    decreases |stack|
  {
    if stack == [] then nodes
    else
      var top, rest := stack[|stack| - 1], stack[..|stack| - 1];
      var list := List(top.children, Span(top.start, end));
      if rest == [] then nodes + [list] else NodesOf(nodes, TopAppended(rest, list), end)
  }

  function Finished(text: string, st: State): Document {
    var end := PositionAt(text, |text|);
    Document(text, NodesOf(st.nodes, st.stack, end), st.errors + UnclosedErrors(st.stack, end))
  }

  function Parse(text: string): Document {
    Finished(text, RunTo(text, Start(0), |text|))
  }
}
