/** The S-expression reader itself (src/kicad/sexpr.ts), which advances a mutable position and
    pushes and pops open lists, proved to compute the document that `SexprSyntax.Parse` gives
    to the text. */
module SexprReader {
  import opened Characters
  import opened SexprSyntax

  ghost function Prefixed(value: string, token: StringToken): StringToken {
    token.(value := value + token.value)
  }

  class Reader {
    const text: string
    var offset: nat
    var line: nat
    var column: nat
    var nodes: seq<Node>
    var stack: seq<Frame>
    var errors: seq<ParseError>

    /** Line and column are always those of the offset. */
    ghost predicate Valid()
      reads this
    {
      offset <= |text| && Mark() == PositionAt(text, offset)
    }

    ghost function Contents(): State
      reads this
    {
      State(offset, nodes, stack, errors)
    }

    constructor (text: string)
      ensures Valid() && this.text == text && Contents() == Start(0)
    {
      this.text := text;
      offset, line, column := 0, 1, 1;
      nodes, stack, errors := [], [], [];
    }

    function Mark(): Position
      reads this
    {
      Position(offset, line, column)
    }

    method Advance(c: char)
      requires Valid() && offset < |text| && c == text[offset]
      modifies this`offset, this`line, this`column
      ensures Valid() && offset == old(offset) + 1
    {
      offset := offset + 1;
      if c == '\n' {
        line := line + 1;
        column := 1;
      } else {
        column := column + 1;
      }
    }

    method SkipComment()
      requires Valid()
      modifies this`offset, this`line, this`column
      ensures Valid() && offset == CommentEnd(text, old(offset))
    {
      while offset < |text|
        invariant Valid() && CommentEnd(text, offset) == CommentEnd(text, old(offset))
        decreases |text| - offset
      {
        var c := text[offset];
        Advance(c);
        if c == '\n' {
          return;
        }
      }
    }

    method ParseAtom() returns (node: Node)
      requires Valid()
      modifies this`offset, this`line, this`column
      ensures Valid() && offset == AtomEnd(text, old(offset))
      ensures node == AtomAt(text, old(offset))
    {
      var start := Mark();
      var from := offset;
      while offset < |text|
        invariant Valid() && from <= offset
        invariant AtomEnd(text, offset) == AtomEnd(text, from)
        decreases |text| - offset
      {
        var c := text[offset];
        if EndsAtom(c) {
          break;
        }
        Advance(c);
      }
      var raw := text[from..offset];
      node := Atom(raw, raw, Span(start, Mark()));
    }

    method ParseString() returns (node: Node)
      requires Valid() && offset < |text| && text[offset] == '"'
      modifies this`offset, this`line, this`column, this`errors
      ensures Valid()
      ensures offset == ScanString(text, old(offset) + 1).end && node == StringAt(text, old(offset))
      ensures errors == if ScanString(text, old(offset) + 1).closed then old(errors)
                        else old(errors) + [ParseError(UnclosedString, node.span)]
    {
      var start := Mark();
      var from := offset;
      var value := "";
      Advance('"');
      var closed := false;
      ghost var token := ScanString(text, offset);
      while offset < |text|
        invariant Valid() && from < offset && !closed && errors == old(errors)
        invariant token == Prefixed(value, ScanString(text, offset))
        decreases |text| - offset
      {
        var c := text[offset];
        ghost var rest := ScanString(text, offset);
        if c == '"' {
          Advance(c);
          closed := true;
          break;
        }
        if c == '\\' {
          Advance(c);
          if offset == |text| {
            break;
          }
          var escaped := text[offset];
          ghost var after := ScanString(text, offset + 1);
          assert value + rest.value == (value + [DecodeEscape(escaped)]) + after.value;
          value := value + [DecodeEscape(escaped)];
          Advance(escaped);
        } else {
          ghost var after := ScanString(text, offset + 1);
          assert value + rest.value == (value + [c]) + after.value;
          value := value + [c];
          Advance(c);
        }
      }
      assert token == StringToken(value, offset, closed);
      var span := Span(start, Mark());
      if !closed {
        errors := errors + [ParseError(UnclosedString, span)];
      }
      node := Str(value, text[from..offset], span);
    }

    method AppendNode(node: Node)
      modifies this`nodes, this`stack
      ensures Contents() == Appended(old(Contents()), node)
    {
      if stack != [] {
        stack := TopAppended(stack, node);
      } else {
        nodes := nodes + [node];
      }
    }

    method ProcessToken()
      requires Valid() && offset < |text|
      modifies this
      ensures Valid() && Contents() == Step(text, old(Contents()))
    {
      var c := text[offset];
      if IsSpace(c) {
        Advance(c);
      } else if c == ';' {
        SkipComment();
      } else if c == '(' {
        var start := Mark();
        Advance(c);
        if |stack| >= MAX_NESTING_DEPTH {
          errors := errors + [ParseError(TooDeep, Span(start, Mark()))];
        } else {
          stack := stack + [Frame([], start)];
        }
      } else if c == ')' {
        var start := Mark();
        Advance(c);
        if stack == [] {
          errors := errors + [ParseError(UnexpectedClose, Span(start, Mark()))];
        } else {
          var top := stack[|stack| - 1];
          stack := stack[..|stack| - 1];
          AppendNode(List(top.children, Span(top.start, Mark())));
        }
      } else if c == '"' {
        var node := ParseString();
        AppendNode(node);
      } else {
        var node := ParseAtom();
        AppendNode(node);
      }
    }

    /** Ends every open list where the text ends, innermost first. */
    method CloseOpenLists()
      requires Valid()
      modifies this`nodes, this`stack, this`errors
      ensures nodes == NodesOf(old(nodes), old(stack), Mark())
      ensures errors == old(errors) + UnclosedErrors(old(stack), Mark())
    {
      var end := Mark();
      while stack != []
        invariant Valid() && Mark() == end == old(Mark())
        invariant NodesOf(nodes, stack, end) == NodesOf(old(nodes), old(stack), end)
        invariant errors + UnclosedErrors(stack, end) == old(errors) + UnclosedErrors(old(stack), end)
        decreases |stack|
      {
        var top := stack[|stack| - 1];
        var error := ParseError(UnclosedList, Span(top.start, end));
        assert errors + UnclosedErrors(stack, end) == (errors + [error]) + UnclosedErrors(stack[..|stack| - 1], end);
        errors := errors + [error];
        stack := stack[..|stack| - 1];
        AppendNode(List(top.children, Span(top.start, end)));
      }
    }
  }

  method ParseSexprDocument(text: string) returns (document: Document)
    ensures document == Parse(text)
  {
    var reader := new Reader(text);
    while reader.offset < |text|
      invariant fresh(reader) && reader.Valid() && reader.text == text
      invariant RunTo(text, reader.Contents(), |text|) == RunTo(text, Start(0), |text|)
      decreases |text| - reader.offset
    {
      reader.ProcessToken();
    }
    reader.CloseOpenLists();
    document := Document(text, reader.nodes, reader.errors);
  }
}
