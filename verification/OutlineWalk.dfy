/** The greedy walk over outline segments (src/kicad/pcb.ts). */
module OutlineWalk {
  // It takes the first unused segment that touches the tail of the chain until the chain returns
  // to its start.
  import opened BoardOutline
  import opened Options

  /** A walked chain: its points, and the segments between them in the order they were used. */
  datatype Chain = Chain(points: seq<Point>, edges: seq<Segment>)

  predicate Touches(segment: Segment, p: Point) { SamePoint(segment.start, p) || SamePoint(segment.end, p) }

  /** The first segment that touches a point, or -1. */
  function FirstTouching(unused: seq<Segment>, p: Point): (index: int)
    ensures -1 <= index < |unused|
    ensures 0 <= index ==> Touches(unused[index], p)
    ensures index == -1 ==> forall s :: s in unused ==> !Touches(s, p)
  {
    if unused == [] then -1
    else if Touches(unused[0], p) then 0
    else
      var rest := FirstTouching(unused[1..], p);
      if rest == -1 then -1 else rest + 1
  }

  function FarEnd(segment: Segment, p: Point): Point {
    if SamePoint(segment.start, p) then segment.end else segment.start
  }

  function Without(unused: seq<Segment>, i: nat): seq<Segment>
    requires i < |unused|
  {
    unused[..i] + unused[i + 1..]
  }

  function Tail(chain: Chain): Point
    requires chain.points != []
  {
    chain.points[|chain.points| - 1]
  }

  predicate IsClosedChain(chain: Chain)
    requires chain.points != []
  {
    SamePoint(chain.points[0], Tail(chain))
  }

  function Extended(chain: Chain, segment: Segment): Chain
    requires chain.points != []
  {
    Chain(chain.points + [FarEnd(segment, Tail(chain))], chain.edges + [segment])
  }

  datatype Followed = DeadEnd | Closed(chain: Chain, left: seq<Segment>)

  /** Extends a chain until it closes. */
  function Follow(chain: Chain, unused: seq<Segment>): Followed
    requires chain.points != []
    decreases |unused|
  {
    if IsClosedChain(chain) then Closed(chain, unused)
    else
      var i := FirstTouching(unused, Tail(chain));
      if i == -1 then DeadEnd else Follow(Extended(chain, unused[i]), Without(unused, i))
  }

  function Begun(segment: Segment): Chain { Chain([segment.start, segment.end], [segment]) }

  lemma {:induction false} FollowShrinks(chain: Chain, unused: seq<Segment>)
    requires chain.points != []
    ensures Follow(chain, unused).Closed? ==> |Follow(chain, unused).left| <= |unused|
    decreases |unused|
  {
    if !IsClosedChain(chain) {
      var i := FirstTouching(unused, Tail(chain));
      if i != -1 {
        FollowShrinks(Extended(chain, unused[i]), Without(unused, i));
      }
    }
  }

  /** All chains of the walk, or nothing if one of them runs into a dead end. */
  function Walk(unused: seq<Segment>): Option<seq<Chain>>
    decreases |unused|
  {
    if unused == [] then Some([])
    else
      FollowShrinks(Begun(unused[0]), unused[1..]);
      match Follow(Begun(unused[0]), unused[1..])
      case DeadEnd => None
      case Closed(chain, left) =>
        match Walk(left)
        case None => None
        case Some(chains) => Some([chain] + chains)
  }

  // ------------------------------------------------------------------ the program

  /** The area a chain encloses; its last point is its first again. */
  function ChainArea(chain: Chain): real {
    if chain.points == [] then 0.0 else AreaOf(chain.points[..|chain.points| - 1])
  }

  function Inserted(area: real, areas: seq<real>): seq<real> {
    if areas == [] || area >= areas[0] then [area] + areas else [areas[0]] + Inserted(area, areas[1..])
  }

  function SortedDescending(areas: seq<real>): seq<real> {
    if areas == [] then [] else Inserted(areas[0], SortedDescending(areas[1..]))
  }

  function Sum(areas: seq<real>): real { if areas == [] then 0.0 else areas[0] + Sum(areas[1..]) }

  /** The largest area less all the others; nothing when the largest is zero. */
  function NetArea(areas: seq<real>): Option<real> {
    var sorted := SortedDescending(areas);
    if sorted == [] || sorted[0] == 0.0 then None
    else
      var net := sorted[0] - Sum(sorted[1..]);
      Some(if net < 0.0 then 0.0 else net)
  }

  function AreasOf(chains: seq<Chain>): seq<real> {
    if chains == [] then [] else [ChainArea(chains[0])] + AreasOf(chains[1..])
  }

  /** What the walk makes of the segments: nothing for fewer than three, for a dead end, and
      for a largest area of zero. */
  function OutlineArea(segments: seq<Segment>): Option<real> {
    if |segments| < 3 || Walk(segments).None? then None else NetArea(AreasOf(Walk(segments).value))
  }

  method OrderedLoopArea(segments: seq<Segment>) returns (area: Option<real>)
    ensures area == OutlineArea(segments)
  {
    if |segments| < 3 {
      return None;
    }
    var unused := segments;
    var areas: seq<real> := [];
    ghost var chains: seq<Chain> := [];
    AddedNone(Walk(segments));
    while unused != []
      invariant Walk(segments) == Added(chains, Walk(unused))
      invariant areas == AreasOf(chains)
      decreases |unused|
    {
      var first := unused[0];
      ghost var outcome := Follow(Begun(first), unused[1..]);
      FollowShrinks(Begun(first), unused[1..]);
      WalkUnfolds(unused);
      var points, left, deadEnd := FollowSegments(first, unused[1..]);
      if deadEnd {
        return None;
      }
      unused := left;
      var polygon := PolygonArea(points[..|points| - 1]);
      AreasOfAppend(chains, outcome.chain);
      AddedOne(chains, outcome.chain, Walk(left));
      areas := areas + [polygon];
      chains := chains + [outcome.chain];
    }
    assert Added(chains, Some([])) == Some(chains) by { assert chains + [] == chains; }
    var sorted := SortedDescending(areas);
    if sorted == [] || sorted[0] == 0.0 {
      return None;
    }
    var net := sorted[0] - Sum(sorted[1..]);
    return Some(if net < 0.0 then 0.0 else net);
  }

  /** The inner loop of the walk: extends a chain until it closes. */
  method FollowSegments(first: Segment, rest: seq<Segment>)
    returns (points: seq<Point>, unused: seq<Segment>, deadEnd: bool)
    ensures deadEnd <==> Follow(Begun(first), rest).DeadEnd?
    ensures !deadEnd ==> points != [] && points == Follow(Begun(first), rest).chain.points
                         && unused == Follow(Begun(first), rest).left
  {
    unused := rest;
    points := [first.start, first.end];
    ghost var edges := [first];
    while !SamePoint(points[0], points[|points| - 1])
      invariant points != []
      invariant Follow(Chain(points, edges), unused) == Follow(Begun(first), rest)
      decreases |unused|
    {
      var tail := points[|points| - 1];
      var nextIndex := FirstTouching(unused, tail);
      if nextIndex == -1 {
        return points, unused, true;
      }
      var next := unused[nextIndex];
      unused := unused[..nextIndex] + unused[nextIndex + 1..];
      points := points + [if SamePoint(next.start, tail) then next.end else next.start];
      edges := edges + [next];
    }
    deadEnd := false;
  }

  /** Chains found so far, with what the walk makes of the rest. */
  ghost function Added(chains: seq<Chain>, rest: Option<seq<Chain>>): Option<seq<Chain>> {
    if rest.None? then None else Some(chains + rest.value)
  }

  lemma AddedNone(rest: Option<seq<Chain>>)
    ensures Added([], rest) == rest
  {
    assert rest.Some? ==> [] + rest.value == rest.value;
  }

  lemma AddedOne(chains: seq<Chain>, chain: Chain, rest: Option<seq<Chain>>)
    ensures Added(chains + [chain], rest) == Added(chains, Added([chain], rest))
  {
    assert rest.Some? ==> chains + [chain] + rest.value == chains + ([chain] + rest.value);
  }

  lemma WalkUnfolds(unused: seq<Segment>)
    requires unused != []
    ensures var outcome := Follow(Begun(unused[0]), unused[1..]);
            Walk(unused) == if outcome.DeadEnd? then None else Added([outcome.chain], Walk(outcome.left))
  {}

  lemma {:induction false} AreasOfAppend(chains: seq<Chain>, chain: Chain)
    ensures AreasOf(chains + [chain]) == AreasOf(chains) + [ChainArea(chain)]
  {
    if chains != [] {
      assert (chains + [chain])[1..] == chains[1..] + [chain];
      AreasOfAppend(chains[1..], chain);
    }
  }
}
