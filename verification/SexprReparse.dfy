/** Slicing a list's source text out of a document and parsing it again: what
    `extractBlocks` followed by `sexprStringAfter` relies on (src/kicad/sexpr.ts). */
module SexprReparse {
  import opened Characters
  import opened SexprSyntax
  import opened SexprSlices
  import opened SexprSpans
  import opened Options

  // ------------------------------------------------------------------ shifted places

  /** A position as a text that starts at `origin` counts it. */
  function Shifted(p: Position, origin: Position): Position {
    Position(p.offset - origin.offset, p.line - origin.line + 1,
             if p.line == origin.line then p.column - origin.column + 1 else p.column)
  }

  function ShiftedSpan(span: Span, origin: Position): Span {
    Span(Shifted(span.start, origin), Shifted(span.end, origin))
  }

  function ShiftedNode(node: Node, origin: Position): (shifted: Node)
    ensures shifted.List? == node.List?
    decreases node, 1
  {
    match node
    case Atom(value, raw, span) => Atom(value, raw, ShiftedSpan(span, origin))
    case Str(value, raw, span) => Str(value, raw, ShiftedSpan(span, origin))
    case List(children, span) => List(ShiftedNodes(children, origin), ShiftedSpan(span, origin))
  }

  function ShiftedNodes(nodes: seq<Node>, origin: Position): (shifted: seq<Node>)
    ensures |shifted| == |nodes|
    decreases nodes, 0
  {
    if nodes == [] then [] else [ShiftedNode(nodes[0], origin)] + ShiftedNodes(nodes[1..], origin)
  }

  function ShiftedFrame(frame: Frame, origin: Position): Frame {
    Frame(ShiftedNodes(frame.children, origin), Shifted(frame.start, origin))
  }

  function ShiftedStack(stack: seq<Frame>, origin: Position): (shifted: seq<Frame>)
    ensures |shifted| == |stack|
  {
    if stack == [] then [] else [ShiftedFrame(stack[0], origin)] + ShiftedStack(stack[1..], origin)
  }

  function ShiftedErrors(errors: seq<ParseError>, origin: Position): (shifted: seq<ParseError>)
    ensures |shifted| == |errors|
  {
    if errors == [] then [] else [ShiftedError(errors[0], origin)] + ShiftedErrors(errors[1..], origin)
  }

  function ShiftedError(error: ParseError, origin: Position): ParseError {
    ParseError(error.kind, ShiftedSpan(error.span, origin))
  }

  function ShiftedToken(token: Token, origin: Position): Token
    requires 0 <= origin.offset <= token.end
  {
    match token
    case Blank(end) => Blank(end - origin.offset)
    case Open(end, span) => Open(end - origin.offset, ShiftedSpan(span, origin))
    case Close(end, span) => Close(end - origin.offset, ShiftedSpan(span, origin))
    case Leaf(end, node, closed) => Leaf(end - origin.offset, ShiftedNode(node, origin), closed)
  }

  function ShiftedState(st: State, origin: Position): State
    requires 0 <= origin.offset <= st.offset
  {
    State(st.offset - origin.offset, ShiftedNodes(st.nodes, origin), ShiftedStack(st.stack, origin),
          ShiftedErrors(st.errors, origin))
  }

  /** Counting lines and columns from `from` on is counting them in the slice. */
  lemma {:induction false} ShiftedPositionAt(text: string, from: nat, to: nat, offset: nat)
    requires from <= offset <= to <= |text|
    ensures PositionAt(text[from..to], offset - from) == Shifted(PositionAt(text, offset), PositionAt(text, from))
    ensures PositionAt(text, from).line <= PositionAt(text, offset).line
    decreases offset
  {
    if from < offset {
      ShiftedPositionAt(text, from, to, offset - 1);
      assert text[from..to][offset - 1 - from] == text[offset - 1];
    }
  }

  lemma ShiftedSpanAt(text: string, from: nat, to: nat, start: nat, end: nat)
    requires from <= start <= to && from <= end <= to <= |text|
    ensures SpanAt(text[from..to], start - from, end - from)
         == ShiftedSpan(SpanAt(text, start, end), PositionAt(text, from))
  {
    ShiftedPositionAt(text, from, to, start);
    ShiftedPositionAt(text, from, to, end);
  }

  // ------------------------------------------------------------------ tokens of a slice

  /** A token of the text that ends inside a slice is the same token of the slice. */
  lemma {:induction false} SlicedAtomEnd(text: string, from: nat, to: nat, at: nat)
    requires from <= at <= to <= |text|
    requires AtomEnd(text, at) <= to
    ensures AtomEnd(text[from..to], at - from) == AtomEnd(text, at) - from
    decreases |text| - at
  {
    if at < to {
      assert text[from..to][at - from] == text[at];
      if !EndsAtom(text[at]) {
        SlicedAtomEnd(text, from, to, at + 1);
      }
    }
  }

  lemma {:induction false} SlicedCommentEnd(text: string, from: nat, to: nat, at: nat)
    requires from <= at <= to <= |text|
    requires CommentEnd(text, at) <= to
    ensures CommentEnd(text[from..to], at - from) == CommentEnd(text, at) - from
    decreases |text| - at
  {
    if at < to {
      assert text[from..to][at - from] == text[at];
      if text[at] != '\n' {
        SlicedCommentEnd(text, from, to, at + 1);
      }
    }
  }

  lemma {:induction false} SlicedString(text: string, from: nat, to: nat, at: nat)
    requires from <= at <= to <= |text|
    requires ScanString(text, at).end <= to
    ensures ScanString(text[from..to], at - from)
         == ScanString(text, at).(end := ScanString(text, at).end - from)
    decreases |text| - at
  {
    if at < to {
      var slice := text[from..to];
      assert slice[at - from] == text[at];
      if text[at] == '"' {
      } else if text[at] == '\\' {
        if at + 1 < to {
          assert slice[at + 1 - from] == text[at + 1];
          SlicedString(text, from, to, at + 2);
        }
      } else {
        SlicedString(text, from, to, at + 1);
      }
    }
  }

  // ------------------------------------------------------------------ a run on a slice

  lemma {:induction false} ShiftedNodesAppend(nodes: seq<Node>, node: Node, origin: Position)
    ensures ShiftedNodes(nodes + [node], origin) == ShiftedNodes(nodes, origin) + [ShiftedNode(node, origin)]
  {
    if nodes != [] {
      assert (nodes + [node])[1..] == nodes[1..] + [node];
      ShiftedNodesAppend(nodes[1..], node, origin);
    }
  }

  lemma {:induction false} ShiftedStackAppend(stack: seq<Frame>, frame: Frame, origin: Position)
    ensures ShiftedStack(stack + [frame], origin) == ShiftedStack(stack, origin) + [ShiftedFrame(frame, origin)]
  {
    if stack != [] {
      assert (stack + [frame])[1..] == stack[1..] + [frame];
      ShiftedStackAppend(stack[1..], frame, origin);
    }
  }

  lemma {:induction false} ShiftedErrorsAppend(errors: seq<ParseError>, error: ParseError, origin: Position)
    ensures ShiftedErrors(errors + [error], origin) == ShiftedErrors(errors, origin) + [ShiftedError(error, origin)]
  {
    if errors != [] {
      assert (errors + [error])[1..] == errors[1..] + [error];
      ShiftedErrorsAppend(errors[1..], error, origin);
    }
  }

  /** The innermost open list of a shifted state. */
  lemma {:induction false} ShiftedStackTop(stack: seq<Frame>, origin: Position)
    requires stack != []
    ensures ShiftedStack(stack, origin)[|stack| - 1] == ShiftedFrame(stack[|stack| - 1], origin)
    ensures ShiftedStack(stack, origin)[..|stack| - 1] == ShiftedStack(stack[..|stack| - 1], origin)
  {
    var n := |stack| - 1;
    ShiftedStackAppend(stack[..n], stack[n], origin);
    assert stack == stack[..n] + [stack[n]];
  }

  lemma ShiftedTopAppended(stack: seq<Frame>, node: Node, origin: Position)
    requires stack != []
    ensures ShiftedStack(TopAppended(stack, node), origin)
         == TopAppended(ShiftedStack(stack, origin), ShiftedNode(node, origin))
  {
    var n := |stack| - 1;
    var top := stack[n];
    ShiftedStackTop(stack, origin);
    ShiftedNodesAppend(top.children, node, origin);
    ShiftedStackAppend(stack[..n], top.(children := top.children + [node]), origin);
  }

  lemma ShiftedAppended(st: State, node: Node, origin: Position)
    requires 0 <= origin.offset <= st.offset
    ensures ShiftedState(Appended(st, node), origin) == Appended(ShiftedState(st, origin), ShiftedNode(node, origin))
  {
    if st.stack == [] {
      ShiftedNodesAppend(st.nodes, node, origin);
    } else {
      ShiftedTopAppended(st.stack, node, origin);
    }
  }

  lemma ShiftedWithError(st: State, kind: ErrorKind, span: Span, origin: Position)
    requires 0 <= origin.offset <= st.offset
    ensures ShiftedState(WithError(st, kind, span), origin)
         == WithError(ShiftedState(st, origin), kind, ShiftedSpan(span, origin))
  {
    ShiftedErrorsAppend(st.errors, ParseError(kind, span), origin);
  }

  lemma ShiftedPopped(st: State, end: nat, origin: Position)
    requires 0 <= origin.offset <= end && origin.offset <= st.offset && st.stack != []
    ensures var shifted := ShiftedState(st, origin);
            ShiftedState(State(end, st.nodes, st.stack[..|st.stack| - 1], st.errors), origin)
            == State(end - origin.offset, shifted.nodes, shifted.stack[..|st.stack| - 1], shifted.errors)
  {
    ShiftedStackTop(st.stack, origin);
  }

  lemma ShiftedCompleted(st: State, span: Span, origin: Position)
    requires 0 <= origin.offset <= st.offset && st.stack != []
    ensures Completed(ShiftedState(st, origin), ShiftedSpan(span, origin)) == ShiftedNode(Completed(st, span), origin)
  {
    ShiftedStackTop(st.stack, origin);
  }

  lemma ShiftedClose(st: State, end: nat, span: Span, origin: Position)
    requires 0 <= origin.offset <= end && origin.offset <= st.offset
    ensures CloseList(ShiftedState(st, origin), end - origin.offset, ShiftedSpan(span, origin))
         == ShiftedState(CloseList(st, end, span), origin)
  {
    if st.stack == [] {
      ShiftedWithError(Moved(st, end), UnexpectedClose, span, origin);
    } else {
      ShiftedPopped(st, end, origin);
      ShiftedCompleted(st, span, origin);
      ShiftedAppended(State(end, st.nodes, st.stack[..|st.stack| - 1], st.errors), Completed(st, span), origin);
    }
  }

  lemma ShiftedOpen(st: State, end: nat, span: Span, origin: Position)
    requires 0 <= origin.offset <= end && origin.offset <= st.offset
    ensures OpenList(ShiftedState(st, origin), end - origin.offset, ShiftedSpan(span, origin))
         == ShiftedState(OpenList(st, end, span), origin)
  {
    ShiftedWithError(Moved(st, end), TooDeep, span, origin);
    ShiftedStackAppend(st.stack, Frame([], span.start), origin);
  }

  lemma ShiftedLeaf(st: State, end: nat, node: Node, closed: bool, origin: Position)
    requires 0 <= origin.offset <= end && origin.offset <= st.offset
    ensures AddLeaf(ShiftedState(st, origin), end - origin.offset, ShiftedNode(node, origin), closed)
         == ShiftedState(AddLeaf(st, end, node, closed), origin)
  {
    var moved := Moved(st, end);
    ShiftedWithError(moved, UnclosedString, node.span, origin);
    ShiftedAppended(if closed then moved else WithError(moved, UnclosedString, node.span), node, origin);
  }

  /** Shifting places commutes with what a token does. */
  lemma ShiftedApply(st: State, token: Token, origin: Position)
    requires 0 <= origin.offset <= st.offset && origin.offset <= token.end
    ensures Apply(ShiftedState(st, origin), ShiftedToken(token, origin)) == ShiftedState(Apply(st, token), origin)
  {
    match token {
      case Blank(end) =>
      case Open(end, span) => ShiftedOpen(st, end, span, origin);
      case Close(end, span) => ShiftedClose(st, end, span, origin);
      case Leaf(end, node, closed) => ShiftedLeaf(st, end, node, closed, origin);
    }
  }

  lemma SlicedStringAt(text: string, from: nat, to: nat, at: nat)
    requires from <= at < to <= |text|
    requires ScanString(text, at + 1).end <= to
    ensures StringAt(text[from..to], at - from) == ShiftedNode(StringAt(text, at), PositionAt(text, from))
  {
    var end := ScanString(text, at + 1).end;
    SlicedString(text, from, to, at + 1);
    ShiftedSpanAt(text, from, to, at, end);
    SubSlice(text, from, to, at, end);
  }

  lemma SubSlice(text: string, from: nat, to: nat, start: nat, end: nat)
    requires from <= start <= end <= to <= |text|
    ensures text[from..to][start - from..end - from] == text[start..end]
  {
    var sub := text[from..to][start - from..end - from];
    assert |sub| == |text[start..end]|;
    forall i | 0 <= i < end - start ensures sub[i] == text[start..end][i] {
      assert sub[i] == text[from..to][start - from + i] == text[start + i];
    }
  }

  lemma SlicedAtomAt(text: string, from: nat, to: nat, at: nat)
    requires from <= at < to <= |text|
    requires AtomEnd(text, at) <= to
    ensures AtomAt(text[from..to], at - from) == ShiftedNode(AtomAt(text, at), PositionAt(text, from))
  {
    var end := AtomEnd(text, at);
    SlicedAtomEnd(text, from, to, at);
    ShiftedSpanAt(text, from, to, at, end);
    SubSlice(text, from, to, at, end);
  }

  /** A token of the text that ends inside a slice is a token of the slice, at shifted places. */
  lemma SlicedToken(text: string, from: nat, to: nat, at: nat)
    requires from <= at < to <= |text| && TokenAt(text, at).end <= to
    ensures TokenAt(text[from..to], at - from) == ShiftedToken(TokenAt(text, at), PositionAt(text, from))
  {
    var c := text[at];
    assert text[from..to][at - from] == c;
    if IsSpace(c) {
    } else if c == ';' {
      SlicedCommentEnd(text, from, to, at);
    } else if c == '(' || c == ')' {
      ShiftedSpanAt(text, from, to, at, at + 1);
    } else if c == '"' {
      SlicedStringLeaf(text, from, to, at);
    } else {
      SlicedAtomEnd(text, from, to, at);
      SlicedAtomAt(text, from, to, at);
    }
  }

  lemma SlicedStringLeaf(text: string, from: nat, to: nat, at: nat)
    requires from <= at < to <= |text| && StringLeaf(text, at).end <= to
    ensures StringLeaf(text[from..to], at - from) == ShiftedToken(StringLeaf(text, at), PositionAt(text, from))
  {
    SlicedString(text, from, to, at + 1);
    SlicedStringAt(text, from, to, at);
  }

  lemma SlicedStep(text: string, from: nat, to: nat, st: State)
    requires from <= st.offset < to <= |text| && Step(text, st).offset <= to
    ensures var origin := PositionAt(text, from);
            Step(text[from..to], ShiftedState(st, origin)) == ShiftedState(Step(text, st), origin)
  {
    SlicedToken(text, from, to, st.offset);
    ShiftedApply(st, TokenAt(text, st.offset), PositionAt(text, from));
  }

  /** A run that ends exactly where a slice does is a run on the slice. */
  lemma {:induction false} SlicedRun(text: string, from: nat, to: nat, st: State)
    requires from <= st.offset <= to <= |text|
    requires RunTo(text, st, to).offset == to
    ensures var origin := PositionAt(text, from);
            RunTo(text[from..to], ShiftedState(st, origin), to - from) == ShiftedState(RunTo(text, st, to), origin)
    decreases |text| - st.offset
  {
    if st.offset < to {
      SlicedStep(text, from, to, st);
      SlicedRun(text, from, to, Step(text, st));
    }
  }

  /** A list that is a run of its own is all its source text parses to. */
  lemma OwnRunReparses(text: string, list: Node)
    requires list.List? && IsOwnRun(text, list)
    ensures var slice := text[list.span.start.offset..list.span.end.offset];
            Parse(slice) == Document(slice, [ShiftedNode(list, list.span.start)], [])
  {
    OwnRunSliced(text, list);
  }

  lemma OwnRunSliced(text: string, list: Node)
    requires list.List? && IsOwnRun(text, list)
    ensures var slice := text[list.span.start.offset..list.span.end.offset];
            RunTo(slice, Start(0), |slice|) == State(|slice|, [ShiftedNode(list, list.span.start)], [], [])
  {
    var from, to := list.span.start.offset, list.span.end.offset;
    var origin := list.span.start;
    SlicedRun(text, from, to, Start(from));
    assert ShiftedState(Start(from), origin) == Start(0);
    assert ShiftedNodes([list], origin) == [ShiftedNode(list, origin)];
  }

  // ------------------------------------------------------------------ searching

  ghost predicate InText(text: string, node: Node) {
    0 <= node.span.start.offset <= node.span.end.offset <= |text|
  }

  function SourceText(text: string, node: Node): string
    requires InText(text, node)
  {
    text[node.span.start.offset..node.span.end.offset]
  }

  function Scalar(children: seq<Node>, index: nat): Option<string> {
    if |children| <= index || children[index].List? then None else Some(children[index].value)
  }

  /** Every list with a given head, outer lists before the lists inside them. */
  function FindLists(nodes: seq<Node>, head: string): (found: seq<Node>)
    ensures forall n :: n in found ==> n.List? && Scalar(n.children, 0) == Some(head)
    decreases nodes
  {
    if nodes == [] then []
    else if !nodes[0].List? then FindLists(nodes[1..], head)
    else
      (if Scalar(nodes[0].children, 0) == Some(head) then [nodes[0]] else [])
      + FindLists(nodes[0].children, head) + FindLists(nodes[1..], head)
  }

  /** `sexprStringAfter`: the first value after a head, in a text of its own. */
  function StringAfter(block: string, head: string): Option<string> {
    var lists := FindLists(Parse(block).nodes, head);
    if lists == [] then None else Scalar(lists[0].children, 1)
  }

  lemma {:induction false} FoundListsAreRuns(text: string, nodes: seq<Node>, head: string)
    requires AllListsAreRuns(text, nodes)
    ensures forall n :: n in FindLists(nodes, head) ==> ListsAreRuns(text, n)
    decreases nodes
  {
    if nodes != [] {
      assert ListsAreRuns(text, nodes[0]);
      FoundListsAreRuns(text, nodes[1..], head);
      if nodes[0].List? {
        FoundListsAreRuns(text, nodes[0].children, head);
      }
    }
  }

  lemma {:induction false} FoundListsAreInText(text: string, nodes: seq<Node>, head: string, lo: int, hi: int)
    requires AllPlaced(text, nodes, lo, hi)
    ensures forall n :: n in FindLists(nodes, head) ==> InText(text, n)
    decreases nodes
  {
    if nodes != [] {
      FoundListsAreInText(text, nodes[1..], head, nodes[0].span.end.offset, hi);
      if nodes[0].List? {
        FoundListsAreInText(text, nodes[0].children, head, nodes[0].span.start.offset + 1, nodes[0].span.end.offset);
      }
    }
  }

  function SourceTexts(text: string, nodes: seq<Node>): (texts: seq<string>)
    requires forall n :: n in nodes ==> InText(text, n)
    ensures |texts| == |nodes|
    ensures forall i :: 0 <= i < |nodes| ==> texts[i] == SourceText(text, nodes[i])
  {
    if nodes == [] then [] else [SourceText(text, nodes[0])] + SourceTexts(text, nodes[1..])
  }

  /** `extractBlocks`: the source text of every list with a head, errors or not. */
  function ExtractBlocks(text: string, head: string): (blocks: seq<string>)
    ensures |blocks| == |FindLists(Parse(text).nodes, head)|
  {
    DocumentIsPlaced(text);
    FoundListsAreInText(text, Parse(text).nodes, head, 0, |text|);
    SourceTexts(text, FindLists(Parse(text).nodes, head))
  }

  /** Reading a value out of an extracted block is reading it out of the list in place, and
      the block is a document of its own, without errors. */
  lemma ExtractedBlocksReadTheSame(text: string, head: string, i: nat)
    requires Parse(text).errors == []
    requires i < |FindLists(Parse(text).nodes, head)|
    ensures var list, block := FindLists(Parse(text).nodes, head)[i], ExtractBlocks(text, head)[i];
            && StringAfter(block, head) == Scalar(list.children, 1)
            && Parse(block) == Document(block, [ShiftedNode(list, list.span.start)], [])
  {
    var lists := FindLists(Parse(text).nodes, head);
    var list := lists[i];
    DocumentListsAreRuns(text);
    FoundListsAreRuns(text, Parse(text).nodes, head);
    assert ListsAreRuns(text, list);
    OwnRunReparses(text, list);
    ShiftedReadsTheSame(list, head, list.span.start);
  }

  lemma ShiftedReadsTheSame(list: Node, head: string, origin: Position)
    requires list.List? && Scalar(list.children, 0) == Some(head)
    ensures var lists := FindLists([ShiftedNode(list, origin)], head);
            lists != [] && Scalar(lists[0].children, 1) == Scalar(list.children, 1)
  {
    ShiftedScalar(list.children, 0, origin);
    ShiftedScalar(list.children, 1, origin);
  }

  lemma {:induction false} ShiftedScalar(nodes: seq<Node>, i: nat, origin: Position)
    ensures Scalar(ShiftedNodes(nodes, origin), i) == Scalar(nodes, i)
  {
    if nodes != [] && i > 0 {
      ShiftedScalar(nodes[1..], i - 1, origin);
    }
  }
}
