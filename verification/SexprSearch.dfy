/** What searching a document finds (src/kicad/sexpr.ts). */
module SexprSearch {
  // A list is found by its head wherever it stands, and the blocks extracted are the source texts
  // of those lists, in the order of the text.
  import opened SexprSyntax
  import opened SexprSlices
  import opened SexprSpans
  import opened SexprReparse
  import opened Options

  // ------------------------------------------------------------------ where a node stands

  /** The node at a place: which node of the document, which child of that, and so on. */
  function NodeAt(nodes: seq<Node>, place: seq<nat>): Option<Node>
    decreases place
  {
    if place == [] || place[0] >= |nodes| then None
    else
      var node := nodes[place[0]];
      if place[1..] == [] then Some(node)
      else if node.List? then NodeAt(node.children, place[1..])
      else None
  }

  /** A list that starts with an atom or a string of this value. */
  predicate HasHead(node: Node, head: string) {
    node.List? && node.children != [] && !node.children[0].List? && node.children[0].value == head
  }

  /** The second child, if it is there and no list. */
  function SecondValue(list: Node): Option<string>
    requires list.List?
  {
    if |list.children| < 2 || list.children[1].List? then None else Some(list.children[1].value)
  }

  lemma NextPlace(nodes: seq<Node>, place: seq<nat>)
    requires nodes != [] && place != []
    ensures NodeAt(nodes, [place[0] + 1] + place[1..]) == NodeAt(nodes[1..], place)
  {
    assert ([place[0] + 1] + place[1..])[1..] == place[1..];
  }

  lemma InnerPlace(nodes: seq<Node>, place: seq<nat>)
    requires nodes != [] && nodes[0].List? && place != []
    ensures NodeAt(nodes, [0] + place) == NodeAt(nodes[0].children, place)
  {
    assert ([0] + place)[1..] == place;
  }

  // ------------------------------------------------------------------ what is found

  /** What is found has the head and stands at some place. */
  lemma {:induction false} FoundStands(nodes: seq<Node>, head: string, node: Node) returns (place: seq<nat>)
    requires node in FindLists(nodes, head)
    ensures NodeAt(nodes, place) == Some(node) && HasHead(node, head)
    decreases nodes
  {
    var first := nodes[0];
    if first.List? && node == first && HasHead(first, head) {
      place := [0];
    } else if first.List? && node in FindLists(first.children, head) {
      var inner := FoundStands(first.children, head, node);
      InnerPlace(nodes, inner);
      place := [0] + inner;
    } else {
      var later := FoundStands(nodes[1..], head, node);
      NextPlace(nodes, later);
      place := [later[0] + 1] + later[1..];
    }
  }

  /** What has the head at some place is found. */
  lemma {:induction false} StandingIsFound(nodes: seq<Node>, head: string, place: seq<nat>)
    requires NodeAt(nodes, place).Some? && HasHead(NodeAt(nodes, place).value, head)
    ensures NodeAt(nodes, place).value in FindLists(nodes, head)
    decreases nodes
  {
    if place[0] > 0 {
      var later := [place[0] - 1] + place[1..];
      assert [later[0] + 1] + later[1..] == place;
      NextPlace(nodes, later);
      StandingIsFound(nodes[1..], head, later);
    } else if place[1..] != [] {
      assert [0] + place[1..] == place;
      InnerPlace(nodes, place[1..]);
      StandingIsFound(nodes[0].children, head, place[1..]);
    }
  }

  ghost predicate StandsSomewhere(nodes: seq<Node>, node: Node) { exists place :: NodeAt(nodes, place) == Some(node) }

  /** A node is found if and only if it is a list with the head, at any depth. */
  lemma FoundExactly(nodes: seq<Node>, head: string, node: Node)
    ensures node in FindLists(nodes, head) <==> StandsSomewhere(nodes, node) && HasHead(node, head)
  {
    if node in FindLists(nodes, head) {
      var place := FoundStands(nodes, head, node);
    }
    if StandsSomewhere(nodes, node) && HasHead(node, head) {
      var place :| NodeAt(nodes, place) == Some(node);
      StandingIsFound(nodes, head, place);
    }
  }

  // ------------------------------------------------------------------ in what order

  predicate InOrder(nodes: seq<Node>) {
    forall i, j :: 0 <= i < j < |nodes| ==> nodes[i].span.start.offset < nodes[j].span.start.offset
  }

  predicate StartWithin(nodes: seq<Node>, lo: int, hi: int) {
    forall n :: n in nodes ==> lo <= n.span.start.offset < hi
  }

  lemma OrderedConcat(a: seq<Node>, b: seq<Node>, lo: int, mid: int, hi: int)
    requires InOrder(a) && StartWithin(a, lo, mid) && InOrder(b) && StartWithin(b, mid, hi) && lo <= mid <= hi
    ensures InOrder(a + b) && StartWithin(a + b, lo, hi)
  {
    forall i, j | 0 <= i < j < |a + b| ensures (a + b)[i].span.start.offset < (a + b)[j].span.start.offset {
      if i < |a| <= j {
        assert a[i] in a && b[j - |a|] in b;
      }
    }
  }

  lemma {:induction false} FoundInOrder(text: string, nodes: seq<Node>, head: string, lo: int, hi: int)
    requires AllPlaced(text, nodes, lo, hi)
    ensures InOrder(FindLists(nodes, head)) && StartWithin(FindLists(nodes, head), lo, hi)
    decreases nodes
  {
    if nodes != [] {
      var first, rest := nodes[0], nodes[1..];
      var start, end := first.span.start.offset, first.span.end.offset;
      FoundInOrder(text, rest, head, end, hi);
      AllPlacedBounds(text, rest, end, hi);
      if first.List? {
        FoundInOrder(text, first.children, head, start + 1, end);
        var own := if Scalar(first.children, 0) == Some(head) then [first] else [];
        var inner := FindLists(first.children, head);
        assert StartWithin(own, lo, start + 1);
        OrderedConcat(own, inner, lo, start + 1, end);
        OrderedConcat(own + inner, FindLists(rest, head), lo, end, hi);
      }
    }
  }

  /** No two places of a document hold the same node. */
  lemma {:induction false} PlacesDiffer(text: string, nodes: seq<Node>, lo: int, hi: int, p: seq<nat>, q: seq<nat>)
    requires AllPlaced(text, nodes, lo, hi) && NodeAt(nodes, p).Some? && NodeAt(nodes, q).Some? && p != q
    ensures NodeAt(nodes, p).value.span.start.offset != NodeAt(nodes, q).value.span.start.offset
    decreases nodes
  {
    var first, rest := nodes[0], nodes[1..];
    var start, end := first.span.start.offset, first.span.end.offset;
    StandsWithin(text, nodes, lo, hi, p);
    StandsWithin(text, nodes, lo, hi, q);
    if p[0] > 0 && q[0] > 0 {
      var before, other := [p[0] - 1] + p[1..], [q[0] - 1] + q[1..];
      assert [before[0] + 1] + before[1..] == p && [other[0] + 1] + other[1..] == q;
      NextPlace(nodes, before);
      NextPlace(nodes, other);
      PlacesDiffer(text, rest, end, hi, before, other);
    } else if p[0] == q[0] == 0 && p[1..] != [] && q[1..] != [] {
      assert [0] + p[1..] == p && [0] + q[1..] == q;
      InnerPlace(nodes, p[1..]);
      InnerPlace(nodes, q[1..]);
      PlacesDiffer(text, first.children, start + 1, end, p[1..], q[1..]);
    }
  }

  /** A node starts after the list around it and before the next sibling of that list. */
  lemma {:induction false} StandsWithin(text: string, nodes: seq<Node>, lo: int, hi: int, place: seq<nat>)
    requires AllPlaced(text, nodes, lo, hi) && NodeAt(nodes, place).Some?
    ensures var at, first := NodeAt(nodes, place).value.span.start.offset, nodes[0].span;
            && lo <= at < hi
            && (place[0] == 0 ==> at < first.end.offset && (if place[1..] == [] then at == first.start.offset
                                                            else at > first.start.offset))
            && (place[0] > 0 ==> at >= first.end.offset)
    decreases nodes
  {
    var first := nodes[0];
    AllPlacedBounds(text, nodes[1..], first.span.end.offset, hi);
    if place[0] > 0 {
      var later := [place[0] - 1] + place[1..];
      assert [later[0] + 1] + later[1..] == place;
      NextPlace(nodes, later);
      StandsWithin(text, nodes[1..], first.span.end.offset, hi, later);
    } else if place[1..] != [] {
      assert [0] + place[1..] == place;
      InnerPlace(nodes, place[1..]);
      StandsWithin(text, first.children, first.span.start.offset + 1, first.span.end.offset, place[1..]);
    }
  }

  // ------------------------------------------------------------------ the blocks

  /** The lists with a head in the order of the text: all of them, each once. */
  ghost predicate AreTheLists(lists: seq<Node>, nodes: seq<Node>, head: string) {
    && InOrder(lists)
    && forall n :: n in lists <==> StandsSomewhere(nodes, n) && HasHead(n, head)
  }

  /** The blocks extracted from any text are the source texts of its lists with the head, at any
      depth, in the order of the text. */
  lemma BlocksAreTheLists(text: string, head: string) returns (lists: seq<Node>)
    ensures AreTheLists(lists, Parse(text).nodes, head) && |ExtractBlocks(text, head)| == |lists|
    ensures forall i :: 0 <= i < |lists| ==>
              InText(text, lists[i]) && ExtractBlocks(text, head)[i] == SourceText(text, lists[i])
  {
    var nodes := Parse(text).nodes;
    lists := FindLists(nodes, head);
    DocumentIsPlaced(text);
    FoundInOrder(text, nodes, head, 0, |text|);
    FoundListsAreInText(text, nodes, head, 0, |text|);
    forall n ensures n in lists <==> StandsSomewhere(nodes, n) && HasHead(n, head) {
      FoundExactly(nodes, head, n);
    }
  }

  /** In a document without errors every list, at any depth, is extracted as a block that is a
      document of its own and gives the list's value under its head. */
  lemma ListsAreExtracted(text: string, head: string, place: seq<nat>)
    requires Parse(text).errors == []
    requires NodeAt(Parse(text).nodes, place).Some? && HasHead(NodeAt(Parse(text).nodes, place).value, head)
    ensures var list := NodeAt(Parse(text).nodes, place).value;
            && InText(text, list)
            && var block := SourceText(text, list);
               && block in ExtractBlocks(text, head)
               && Parse(block) == Document(block, [ShiftedNode(list, list.span.start)], [])
               && StringAfter(block, head) == SecondValue(list)
  {
    var nodes := Parse(text).nodes;
    var list := NodeAt(nodes, place).value;
    StandingIsFound(nodes, head, place);
    var lists := FindLists(nodes, head);
    var i :| 0 <= i < |lists| && lists[i] == list;
    DocumentIsPlaced(text);
    FoundListsAreInText(text, nodes, head, 0, |text|);
    ExtractedBlocksReadTheSame(text, head, i);
    assert ExtractBlocks(text, head)[i] == SourceText(text, list);
  }
}
