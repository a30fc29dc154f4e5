/** Where the nodes of a document lie in its text, errors or not: siblings follow one another
    without overlap, children lie inside the list around them, a node's raw text is the text of
    its span, and lines and columns are those of the text before a place. The invariant is kept
    by every token for the nodes finished so far and for each list still open, and by the end of
    the text for the lists it closes. */
module SexprSpans {
  import opened SexprSyntax
  import opened SexprSlices

  /** A node covers a nonempty stretch of the text between two bounds, an atom or string is
      the text it covers, and the children of a list lie inside it. */
  ghost predicate Placed(text: string, node: Node, lo: int, hi: int)
    decreases node, 1
  {
    var start, end := node.span.start.offset, node.span.end.offset;
    && 0 <= lo <= start < end <= hi && end <= |text|
    && node.span == SpanAt(text, start, end)
    && match node
       case Atom(value, raw, _) => raw == text[start..end] && value == raw
       case Str(_, raw, _) => raw == text[start..end]
       case List(children, _) => text[start] == '(' && AllPlaced(text, children, start + 1, end)
  }

  /** Nodes one after the other: each starts at or after the end of the one before it. */
  ghost predicate AllPlaced(text: string, nodes: seq<Node>, lo: int, hi: int)
    decreases nodes, 0
  {
    if nodes == [] then 0 <= lo <= hi <= |text|
    else
      && Placed(text, nodes[0], lo, nodes[0].span.end.offset)
      && AllPlaced(text, nodes[1..], nodes[0].span.end.offset, hi)
  }

  lemma {:induction false} AllPlacedAppend(text: string, nodes: seq<Node>, node: Node, lo: int, mid: int, hi: int)
    requires AllPlaced(text, nodes, lo, mid)
    requires Placed(text, node, mid, node.span.end.offset) && node.span.end.offset <= hi <= |text|
    ensures AllPlaced(text, nodes + [node], lo, hi)
  {
    if nodes == [] {
      PlacedFrom(text, node, mid, lo);
      assert ([node])[1..] == [];
    } else {
      assert (nodes + [node])[1..] == nodes[1..] + [node];
      AllPlacedAppend(text, nodes[1..], node, nodes[0].span.end.offset, mid, hi);
    }
  }

  lemma PlacedFrom(text: string, node: Node, lo: int, lower: int)
    requires Placed(text, node, lo, node.span.end.offset) && 0 <= lower <= lo
    ensures Placed(text, node, lower, node.span.end.offset)
  {}

  lemma {:induction false} AllPlacedWiden(text: string, nodes: seq<Node>, lo: int, hi: int, higher: int)
    requires AllPlaced(text, nodes, lo, hi) && hi <= higher <= |text|
    ensures AllPlaced(text, nodes, lo, higher)
  {
    if nodes != [] {
      AllPlacedWiden(text, nodes[1..], nodes[0].span.end.offset, hi, higher);
    }
  }

  lemma {:induction false} AllPlacedBounds(text: string, nodes: seq<Node>, lo: int, hi: int)
    requires AllPlaced(text, nodes, lo, hi)
    ensures 0 <= lo <= hi <= |text|
  {
    if nodes != [] {
      AllPlacedBounds(text, nodes[1..], nodes[0].span.end.offset, hi);
    }
  }

  /** Open lists nest: what each has so far ends before the next one starts, and what the
      innermost has ends before `at`. */
  ghost predicate StackPlaced(text: string, nodes: seq<Node>, lo: int, stack: seq<Frame>, at: int)
    decreases |stack|
  {
    if stack == [] then AllPlaced(text, nodes, lo, at)
    else
      var start := stack[0].start.offset;
      && AllPlaced(text, nodes, lo, start)
      && 0 <= start < |text| && text[start] == '(' && stack[0].start == PositionAt(text, start)
      && StackPlaced(text, stack[0].children, start + 1, stack[1..], at)
  }

  ghost predicate StatePlaced(text: string, st: State) {
    StackPlaced(text, st.nodes, 0, st.stack, st.offset)
  }

  lemma {:induction false} StackPlacedBounds(text: string, nodes: seq<Node>, lo: int, stack: seq<Frame>, at: int)
    requires StackPlaced(text, nodes, lo, stack, at)
    ensures 0 <= lo <= at <= |text|
    decreases |stack|
  {
    if stack == [] {
      AllPlacedBounds(text, nodes, lo, at);
    } else {
      AllPlacedBounds(text, nodes, lo, stack[0].start.offset);
      StackPlacedBounds(text, stack[0].children, stack[0].start.offset + 1, stack[1..], at);
    }
  }

  lemma {:induction false} StackPlacedWiden(text: string, nodes: seq<Node>, lo: int, stack: seq<Frame>,
                                            at: int, end: int)
    requires StackPlaced(text, nodes, lo, stack, at) && at <= end <= |text|
    ensures StackPlaced(text, nodes, lo, stack, end)
    decreases |stack|
  {
    if stack == [] {
      AllPlacedWiden(text, nodes, lo, at, end);
    } else {
      StackPlacedWiden(text, stack[0].children, stack[0].start.offset + 1, stack[1..], at, end);
    }
  }

  /** Adding a node to the innermost open list. */
  lemma {:induction false} StackPlacedAppend(text: string, nodes: seq<Node>, lo: int, stack: seq<Frame>, at: int,
                                             node: Node, end: int)
    requires StackPlaced(text, nodes, lo, stack, at)
    requires Placed(text, node, at, node.span.end.offset) && node.span.end.offset <= end <= |text|
    ensures stack == [] ==> StackPlaced(text, nodes + [node], lo, [], end)
    ensures stack != [] ==> StackPlaced(text, nodes, lo, TopAppended(stack, node), end)
    decreases |stack|
  {
    if stack == [] {
      AllPlacedAppend(text, nodes, node, lo, at, end);
    } else {
      var start := stack[0].start.offset;
      StackPlacedAppend(text, stack[0].children, start + 1, stack[1..], at, node, end);
      var more := TopAppended(stack, node);
      if |stack| > 1 {
        InnerAppended(stack, node, 1);
      } else {
        assert more[1..] == [];
      }
    }
  }

  /** Opening a list. */
  lemma {:induction false} StackPlacedOpen(text: string, nodes: seq<Node>, lo: int, stack: seq<Frame>, at: nat)
    requires at < |text| && text[at] == '('
    requires StackPlaced(text, nodes, lo, stack, at)
    ensures StackPlaced(text, nodes, lo, stack + [Frame([], PositionAt(text, at))], at + 1)
    decreases |stack|
  {
    var frame := Frame([], PositionAt(text, at));
    if stack == [] {
      assert ([frame])[1..] == [];
    } else {
      assert (stack + [frame])[1..] == stack[1..] + [frame];
      StackPlacedOpen(text, stack[0].children, stack[0].start.offset + 1, stack[1..], at);
    }
  }

  /** Completing the innermost open list at `end`: the list is placed after what the list
      around it had. */
  lemma {:induction false} StackPlacedPop(text: string, nodes: seq<Node>, lo: int, stack: seq<Frame>, at: int, end: nat)
    requires stack != [] && StackPlaced(text, nodes, lo, stack, at) && at <= end <= |text|
    ensures var n := |stack| - 1;
            var start := stack[n].start.offset;
            && StackPlaced(text, nodes, lo, stack[..n], start)
            && Placed(text, List(stack[n].children, Span(stack[n].start, PositionAt(text, end))), start, end)
    decreases |stack|
  {
    var n := |stack| - 1;
    var start := stack[0].start.offset;
    StackPlacedBounds(text, stack[0].children, start + 1, stack[1..], at);
    if n == 0 {
      AllPlacedWiden(text, stack[0].children, start + 1, at, end);
      AllPlacedBounds(text, nodes, lo, start);
    } else {
      assert stack[..n][1..] == stack[1..][..n - 1];
      StackPlacedPop(text, stack[0].children, start + 1, stack[1..], at, end);
    }
  }

  lemma TokenPlaced(text: string, at: nat)
    requires at < |text| && TokenAt(text, at).Leaf?
    ensures var token := TokenAt(text, at);
            Placed(text, token.node, at, token.end) && token.node.span.end.offset == token.end
  {}

  lemma {:induction false} StepPlaced(text: string, st: State)
    requires st.offset < |text| && StatePlaced(text, st)
    ensures StatePlaced(text, Step(text, st))
  {
    var token := TokenAt(text, st.offset);
    StackPlacedWiden(text, st.nodes, 0, st.stack, st.offset, token.end);
    match token {
      case Blank(end) =>
      case Open(end, span) => StackPlacedOpen(text, st.nodes, 0, st.stack, st.offset);
      case Close(end, span) =>
        if st.stack != [] {
          var n := |st.stack| - 1;
          StackPlacedPop(text, st.nodes, 0, st.stack, st.offset, end);
          StackPlacedAppend(text, st.nodes, 0, st.stack[..n], st.stack[n].start.offset, Completed(st, span), end);
        }
      case Leaf(end, node, closed) =>
        TokenPlaced(text, st.offset);
        StackPlacedAppend(text, st.nodes, 0, st.stack, st.offset, node, end);
    }
  }

  lemma {:induction false} RunPlaced(text: string, st: State, end: nat)
    requires end <= |text| && st.offset <= |text| && StatePlaced(text, st)
    ensures StatePlaced(text, RunTo(text, st, end))
    decreases end - st.offset
  {
    if st.offset < end {
      StepPlaced(text, st);
      RunPlaced(text, Step(text, st), end);
    }
  }

  lemma {:induction false} ClosedPlaced(text: string, nodes: seq<Node>, stack: seq<Frame>)
    requires StackPlaced(text, nodes, 0, stack, |text|)
    ensures AllPlaced(text, NodesOf(nodes, stack, PositionAt(text, |text|)), 0, |text|)
    decreases |stack|
  {
    if stack != [] {
      var n := |stack| - 1;
      var list := List(stack[n].children, Span(stack[n].start, PositionAt(text, |text|)));
      StackPlacedPop(text, nodes, 0, stack, |text|, |text|);
      StackPlacedAppend(text, nodes, 0, stack[..n], stack[n].start.offset, list, |text|);
      if n == 0 {
        assert NodesOf(nodes, stack, PositionAt(text, |text|)) == nodes + [list];
      } else {
        ClosedPlaced(text, nodes, TopAppended(stack[..n], list));
      }
    }
  }

  /** In every document, malformed or not, nodes are ordered, disjoint and inside the list
      around them, and lines and columns follow from the text before a place. */
  lemma {:induction false} DocumentIsPlaced(text: string)
    ensures AllPlaced(text, Parse(text).nodes, 0, |text|)
  {
    RunPlaced(text, Start(0), |text|);
    var last := RunTo(text, Start(0), |text|);
    ClosedPlaced(text, last.nodes, last.stack);
  }

  // ------------------------------------------------------------------ lines and columns

  function LineBreaks(text: string, offset: nat): set<nat>
    requires offset <= |text|
  {
    set k: nat | k < offset && text[k] == '\n'
  }

  /** Where the line of an offset starts. */
  predicate IsLineStart(text: string, start: nat, offset: nat)
    requires offset <= |text|
  {
    start <= offset && (start == 0 || text[start - 1] == '\n') && '\n' !in text[start..offset]
  }

  /** A line is numbered by the line breaks before it, and a column by the characters since the line
      started, both from one. */
  lemma {:induction false} PositionIsCounted(text: string, offset: nat) returns (start: nat)
    requires offset <= |text|
    ensures IsLineStart(text, start, offset)
    ensures PositionAt(text, offset) == Position(offset, 1 + |LineBreaks(text, offset)|, 1 + offset - start)
  {
    if offset == 0 {
      start := 0;
      assert LineBreaks(text, 0) == {};
    } else {
      var last := offset - 1;
      start := PositionIsCounted(text, last);
      if text[last] == '\n' {
        start := offset;
        assert LineBreaks(text, offset) == LineBreaks(text, last) + {last};
      } else {
        assert LineBreaks(text, offset) == LineBreaks(text, last);
        assert text[start..offset] == text[start..last] + [text[last]];
      }
    }
  }
}
