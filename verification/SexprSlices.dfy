/** Runs of the S-expression machine, and what they say about slices: in a document without
    errors the source text of every list parses alone, to the same list at shifted places. */
module SexprSlices {
  import opened SexprSyntax

  // ------------------------------------------------------------------ runs

  lemma {:induction false} RunCompose(text: string, st: State, mid: nat, end: nat)
    requires mid <= end <= |text|
    ensures RunTo(text, RunTo(text, st, mid), end) == RunTo(text, st, end)
    decreases mid - st.offset
  {
    if st.offset < mid {
      RunCompose(text, Step(text, st), mid, end);
    }
  }

  /** A run to a token boundary and one more token. */
  lemma RunOneMore(text: string, st: State, mid: nat)
    requires mid < |text| && RunTo(text, st, mid).offset == mid
    ensures var next := Step(text, RunTo(text, st, mid)); RunTo(text, st, next.offset) == next
  {
    var next := Step(text, RunTo(text, st, mid));
    RunCompose(text, st, mid, next.offset);
  }

  lemma StepKeepsErrors(text: string, st: State)
    requires st.offset < |text|
    ensures st.errors <= Step(text, st).errors
  {}

  lemma {:induction false} RunKeepsErrors(text: string, st: State, end: nat)
    requires end <= |text|
    ensures st.errors <= RunTo(text, st, end).errors
    decreases end - st.offset
  {
    if st.offset < end {
      StepKeepsErrors(text, st);
      RunKeepsErrors(text, Step(text, st), end);
    }
  }

  // ------------------------------------------------------------------ sub-runs

  /** The part of a state that belongs to the open lists from number `k` on. */
  function Inner(st: State, k: nat): State
    requires k <= |st.stack|
  {
    State(st.offset, [], st.stack[k..], [])
  }

  predicate Closes(st: State, token: Token) { token.Close? && st.stack != [] }

  /** The lists opened before number `k` have no part in what a token does to the later ones. */
  lemma InnerApply(st: State, token: Token, k: nat)
    requires k < |st.stack|
    requires Apply(st, token).errors == st.errors == []
    requires !(Closes(st, token) && k == |st.stack| - 1)
    ensures k < |Apply(st, token).stack|
    ensures Apply(Inner(st, k), token) == Inner(Apply(st, token), k)
  {
    match token {
      case Blank(end) =>
      case Open(end, span) =>
      case Close(end, span) =>
        var n := |st.stack| - 1;
        assert st.stack[k..][..n - k] == st.stack[..n][k..];
        InnerAppended(st.stack[..n], Completed(st, span), k);
      case Leaf(end, node, closed) =>
        InnerAppended(st.stack, node, k);
    }
  }

  lemma InnerAppended(stack: seq<Frame>, node: Node, k: nat)
    requires k < |stack|
    ensures |TopAppended(stack, node)| == |stack|
    ensures TopAppended(stack, node)[k..] == TopAppended(stack[k..], node)
  {}

  // ------------------------------------------------------------------ every list is a run of its own

  /** Reading from where a list starts to where it ends, with nothing open before it, gives
      that list and no error. */
  ghost predicate IsOwnRun(text: string, list: Node)
    requires list.List?
  {
    var from, to := list.span.start.offset, list.span.end.offset;
    && 0 <= from < to <= |text|
    && list.span == SpanAt(text, from, to)
    && RunTo(text, Start(from), to) == State(to, [list], [], [])
  }

  ghost predicate ListsAreRuns(text: string, node: Node)
    decreases node, 1
  {
    node.List? ==> IsOwnRun(text, node) && AllListsAreRuns(text, node.children)
  }

  ghost predicate AllListsAreRuns(text: string, nodes: seq<Node>)
    decreases nodes, 0
  {
    forall n :: n in nodes ==> ListsAreRuns(text, n)
  }

  /** An open list whose contents so far are a run of their own. */
  ghost predicate OpenRun(text: string, st: State, k: nat)
    requires st.offset <= |text| && k < |st.stack|
  {
    var start := st.stack[k].start;
    && 0 <= start.offset < st.offset && start == PositionAt(text, start.offset)
    && RunTo(text, Start(start.offset), st.offset) == Inner(st, k)
    && AllListsAreRuns(text, st.stack[k].children)
  }

  ghost predicate OpenRuns(text: string, st: State)
    requires st.offset <= |text|
  {
    forall k :: 0 <= k < |st.stack| ==> OpenRun(text, st, k)
  }

  /** What every error-free run keeps. */
  ghost predicate RunInvariant(text: string, st: State) {
    && st.offset <= |text| && st.errors == []
    && AllListsAreRuns(text, st.nodes)
    && OpenRuns(text, st)
  }

  /** An open list stays a run of its own as long as it is open. */
  lemma OpenRunGrows(text: string, st: State, k: nat)
    requires RunInvariant(text, st) && st.offset < |text| && k < |st.stack|
    requires Step(text, st).errors == []
    requires !(Closes(st, TokenAt(text, st.offset)) && k == |st.stack| - 1)
    ensures k < |Step(text, st).stack| && Step(text, st).stack[k].start == st.stack[k].start
    ensures 0 <= st.stack[k].start.offset
    ensures RunTo(text, Start(st.stack[k].start.offset), Step(text, st).offset) == Inner(Step(text, st), k)
  {
    assert OpenRun(text, st, k);
    InnerApply(st, TokenAt(text, st.offset), k);
    RunOneMore(text, Start(st.stack[k].start.offset), st.offset);
  }

  /** The list a closing parenthesis completes has been a run of its own. */
  lemma CompletedIsRun(text: string, st: State)
    requires RunInvariant(text, st) && st.offset < |text| && Closes(st, TokenAt(text, st.offset))
    ensures ListsAreRuns(text, Completed(st, TokenAt(text, st.offset).span))
  {
    var k := |st.stack| - 1;
    assert OpenRun(text, st, k);
    RunOneMore(text, Start(st.stack[k].start.offset), st.offset);
  }

  /** The node a token adds, if it adds one, and where. */
  lemma StepKeepsInvariant(text: string, st: State)
    requires RunInvariant(text, st) && st.offset < |text|
    requires Step(text, st).errors == []
    ensures RunInvariant(text, Step(text, st))
  {
    var next := Step(text, st);
    forall k | 0 <= k < |next.stack| ensures OpenRun(text, next, k) {
      if k < |st.stack| {
        OpenRunGrows(text, st, k);
        assert OpenRun(text, st, k);
        ChildrenAreRuns(text, st, k);
      } else {
        assert next.stack[k..] == [next.stack[k]];
      }
    }
    NodesAreRuns(text, st);
  }

  lemma ChildrenAreRuns(text: string, st: State, k: nat)
    requires RunInvariant(text, st) && st.offset < |text| && k < |st.stack| && k < |Step(text, st).stack|
    ensures AllListsAreRuns(text, Step(text, st).stack[k].children)
  {
    assert OpenRun(text, st, k);
    if Closes(st, TokenAt(text, st.offset)) {
      CompletedIsRun(text, st);
    }
  }

  lemma NodesAreRuns(text: string, st: State)
    requires RunInvariant(text, st) && st.offset < |text|
    ensures AllListsAreRuns(text, Step(text, st).nodes)
  {
    if Closes(st, TokenAt(text, st.offset)) {
      CompletedIsRun(text, st);
    }
  }

  lemma {:induction false} RunKeepsInvariant(text: string, st: State, end: nat)
    requires end <= |text| && RunInvariant(text, st)
    requires RunTo(text, st, end).errors == []
    ensures RunInvariant(text, RunTo(text, st, end))
    decreases end - st.offset
  {
    if st.offset < end {
      RunKeepsErrors(text, Step(text, st), end);
      StepKeepsInvariant(text, st);
      RunKeepsInvariant(text, Step(text, st), end);
    }
  }

  /** In a document without errors every list at any depth is a run of its own. */
  lemma DocumentListsAreRuns(text: string)
    requires Parse(text).errors == []
    ensures AllListsAreRuns(text, Parse(text).nodes)
  {
    var last := RunTo(text, Start(0), |text|);
    assert last.errors == [] && last.stack == [];
    RunKeepsInvariant(text, Start(0), |text|);
  }
}
