/** The greedy shortest-edit-script search behind the fix-plan display (src/cli/fix-diff.ts). */
module MyersDiff {
  // A forward search keeps, per diagonal, the furthest point reached, and a backtrack reads the
  // saved frontiers. The main results are at the end: the script turns `before` into `after`, and
  // no script that does so is shorter.

  datatype Prefix = Keep | Delete | Insert

  datatype Operation = Operation(prefix: Prefix, line: string)

  // ------------------------------------------------------------------ edit scripts

  /** The lines a script reads: everything but the insertions. */
  function BeforeOf(ops: seq<Operation>): seq<string> {
    if ops == [] then [] else if ops[0].prefix.Insert? then BeforeOf(ops[1..]) else [ops[0].line] + BeforeOf(ops[1..])
  }

  /** The lines a script writes: everything but the deletions. */
  function AfterOf(ops: seq<Operation>): seq<string> {
    if ops == [] then [] else if ops[0].prefix.Delete? then AfterOf(ops[1..]) else [ops[0].line] + AfterOf(ops[1..])
  }

  /** How many `+` and `-` lines a script shows. */
  function Cost(ops: seq<Operation>): nat {
    if ops == [] then 0 else (if ops[0].prefix.Keep? then 0 else 1) + Cost(ops[1..])
  }

  ghost predicate IsScript(ops: seq<Operation>, before: seq<string>, after: seq<string>) {
    BeforeOf(ops) == before && AfterOf(ops) == after
  }

  function Reversed(ops: seq<Operation>): seq<Operation> {
    if ops == [] then [] else Reversed(ops[1..]) + [ops[0]]
  }

  lemma {:induction false} BeforeConcat(s: seq<Operation>, t: seq<Operation>)
    ensures BeforeOf(s + t) == BeforeOf(s) + BeforeOf(t)
  {
    if s == [] {
      assert s + t == t;
    } else {
      assert (s + t)[1..] == s[1..] + t;
      BeforeConcat(s[1..], t);
    }
  }

  lemma {:induction false} AfterConcat(s: seq<Operation>, t: seq<Operation>)
    ensures AfterOf(s + t) == AfterOf(s) + AfterOf(t)
  {
    if s == [] {
      assert s + t == t;
    } else {
      assert (s + t)[1..] == s[1..] + t;
      AfterConcat(s[1..], t);
    }
  }

  lemma {:induction false} CostConcat(s: seq<Operation>, t: seq<Operation>)
    ensures Cost(s + t) == Cost(s) + Cost(t)
  {
    if s == [] {
      assert s + t == t;
    } else {
      assert (s + t)[1..] == s[1..] + t;
      CostConcat(s[1..], t);
    }
  }

  /** A script and one more operation at its end. */
  lemma ScriptPush(ops: seq<Operation>, op: Operation)
    ensures BeforeOf(ops + [op]) == if op.prefix.Insert? then BeforeOf(ops) else BeforeOf(ops) + [op.line]
    ensures AfterOf(ops + [op]) == if op.prefix.Delete? then AfterOf(ops) else AfterOf(ops) + [op.line]
    ensures Cost(ops + [op]) == Cost(ops) + if op.prefix.Keep? then 0 else 1
  {
    BeforeConcat(ops, [op]);
    AfterConcat(ops, [op]);
    CostConcat(ops, [op]);
    assert BeforeOf([op]) == if op.prefix.Insert? then [] else [op.line];
    assert AfterOf([op]) == if op.prefix.Delete? then [] else [op.line];
    assert Cost([op]) == if op.prefix.Keep? then 0 else 1;
  }

  lemma {:induction false} ReversedPush(ops: seq<Operation>, op: Operation)
    ensures Reversed(ops + [op]) == [op] + Reversed(ops)
  {
    if ops != [] {
      assert (ops + [op])[1..] == ops[1..] + [op];
      ReversedPush(ops[1..], op);
    }
  }

  // ------------------------------------------------------- the furthest-reaching points

  /** Diagonals the search visits at a given distance. */
  ghost predicate OnFront(distance: int, diagonal: int) {
    -distance <= diagonal <= distance && (diagonal + distance) % 2 == 0
  }

  /** The lines a diagonal pairs at `before` index `i` exist and are equal. */
  ghost predicate Matches(a: seq<string>, b: seq<string>, i: int, diagonal: int) {
    0 <= i < |a| && 0 <= i - diagonal < |b| && a[i] == b[i - diagonal]
  }

  ghost predicate MatchRun(a: seq<string>, b: seq<string>, from: int, to: int, diagonal: int) {
    from <= to && forall i :: from <= i < to ==> Matches(a, b, i, diagonal)
  }

  /** Where a run of equal lines along a diagonal ends. */
  ghost function Snake(a: seq<string>, b: seq<string>, x: int, diagonal: int): (end: int)
    ensures !Matches(a, b, end, diagonal)
    ensures MatchRun(a, b, x, end, diagonal)
    decreases |a| - x
  {
    if Matches(a, b, x, diagonal) then Snake(a, b, x + 1, diagonal) else x
  }

  /** A map lookup whose missing entries read as minus infinity. */
  datatype Reach = NegInfinity | At(index: int) {
    predicate Less(other: Reach) {
      match (this, other)
      case (_, NegInfinity) => false
      case (NegInfinity, At(_)) => true
      case (At(i), At(j)) => i < j
    }
  }

  function GetFrontier(frontier: map<int, int>, diagonal: int): Reach {
    if diagonal in frontier then At(frontier[diagonal]) else NegInfinity
  }

  /** The choice between moving down from the diagonal above and right from the one below. */
  predicate Insertion(frontier: map<int, int>, distance: int, diagonal: int) {
    diagonal == -distance
    || (diagonal != distance && GetFrontier(frontier, diagonal - 1).Less(GetFrontier(frontier, diagonal + 1)))
  }

  /** A frontier from which a round can start: every diagonal of the round before it is there,
      at a point that is not above or left of the grid. It may be below or right of it. */
  ghost predicate Readable(frontier: map<int, int>, distance: int) {
    if distance == 0 then frontier == map[1 := 0]
    else forall k :: OnFront(distance - 1, k) ==> k in frontier && 0 <= frontier[k] && 0 <= frontier[k] - k
  }

  /** The diagonal a step comes from. */
  function PreviousDiagonal(frontier: map<int, int>, distance: int, diagonal: int): int {
    if Insertion(frontier, distance, diagonal) then diagonal + 1 else diagonal - 1
  }

  /** The missing-diagonal default is never the start of a step: the diagonal the choice
      picks is always in the frontier. */
  lemma StepIsPresent(frontier: map<int, int>, distance: int, diagonal: int)
    requires 0 <= distance && OnFront(distance, diagonal) && Readable(frontier, distance)
    ensures PreviousDiagonal(frontier, distance, diagonal) in frontier
    ensures 0 < distance ==>
              var previous := PreviousDiagonal(frontier, distance, diagonal);
              OnFront(distance - 1, previous) && 0 <= frontier[previous] && 0 <= frontier[previous] - previous
    ensures 0 <= StepFrom(frontier, distance, diagonal) && 0 <= StepFrom(frontier, distance, diagonal) - diagonal
  {
    if distance > 0 {
      assert diagonal != -distance ==> OnFront(distance - 1, diagonal - 1);
      assert diagonal != distance ==> OnFront(distance - 1, diagonal + 1);
    }
  }

  /** The diagonal the choice picks is the one that leads further. */
  lemma StepIsFurther(frontier: map<int, int>, distance: int, diagonal: int, other: int)
    requires 0 < distance && OnFront(distance, diagonal) && Readable(frontier, distance)
    requires OnFront(distance - 1, other) && (other == diagonal - 1 || other == diagonal + 1)
    ensures other in frontier
            && frontier[other] + (if other < diagonal then 1 else 0) <= StepFrom(frontier, distance, diagonal)
  {
    assert diagonal != -distance ==> OnFront(distance - 1, diagonal - 1);
    assert diagonal != distance ==> OnFront(distance - 1, diagonal + 1);
  }

  /** The point one edit away from the frontier, before following equal lines. */
  ghost function StepFrom(frontier: map<int, int>, distance: int, diagonal: int): int {
    var previous := PreviousDiagonal(frontier, distance, diagonal);
    (if previous in frontier then frontier[previous] else 0) + (if previous < diagonal then 1 else 0)
  }

  /** The furthest point of a diagonal in the round that starts from `frontier`. */
  ghost function Furthest(a: seq<string>, b: seq<string>, frontier: map<int, int>, distance: int, diagonal: int): int {
    Snake(a, b, StepFrom(frontier, distance, diagonal), diagonal)
  }

  /** `next` holds the furthest points of the round that starts from `frontier`. */
  ghost predicate Follows(a: seq<string>, b: seq<string>, frontier: map<int, int>, next: map<int, int>, distance: int) {
    forall k :: OnFront(distance, k) ==> k in next && next[k] == Furthest(a, b, frontier, distance, k)
  }

  function RoundStart(trace: seq<map<int, int>>, distance: nat): map<int, int>
    requires distance <= |trace|
  {
    if distance == 0 then map[1 := 0] else trace[distance - 1]
  }

  /** The saved frontiers are those of the rounds of one search. */
  ghost predicate Rounds(a: seq<string>, b: seq<string>, trace: seq<map<int, int>>) {
    forall d :: 0 <= d < |trace| ==> Round(a, b, trace, d)
  }

  ghost predicate Round(a: seq<string>, b: seq<string>, trace: seq<map<int, int>>, distance: nat)
    requires distance < |trace|
  {
    Follows(a, b, RoundStart(trace, distance), trace[distance], distance)
  }

  lemma RoundsReadable(a: seq<string>, b: seq<string>, trace: seq<map<int, int>>, distance: nat)
    requires Rounds(a, b, trace) && distance <= |trace|
    ensures Readable(RoundStart(trace, distance), distance)
  {
    if distance > 0 {
      RoundsReadable(a, b, trace, distance - 1);
      var frontier := RoundStart(trace, distance - 1);
      assert Round(a, b, trace, distance - 1);
      var next := trace[distance - 1];
      forall k | OnFront(distance - 1, k) ensures k in next && 0 <= next[k] && 0 <= next[k] - k {
        StepIsPresent(frontier, distance - 1, k);
      }
    }
  }

  /** No script can get ahead of the frontier: a script of cost `c` that has read `x` lines
      and written `y` is on a diagonal of round `c`, at or behind its furthest point. */
  lemma {:induction false} FrontierIsFurthest(a: seq<string>, b: seq<string>, trace: seq<map<int, int>>,
                                              ops: seq<Operation>, x: nat, y: nat)
    requires Rounds(a, b, trace) && Cost(ops) < |trace|
    requires x <= |a| && y <= |b|
    requires IsScript(ops, a[..x], b[..y])
    ensures OnFront(Cost(ops), x - y)
    ensures x - y in trace[Cost(ops)] && x <= trace[Cost(ops)][x - y]
    decreases |ops|
  {
    if ops == [] {
      assert Round(a, b, trace, 0);
    } else {
      var n := |ops| - 1;
      var x', y' := WithoutLast(a, b, ops, x, y);
      FrontierIsFurthest(a, b, trace, ops[..n], x', y');
      FrontierAdvances(a, b, trace, Cost(ops[..n]), x', y', ops[n].prefix);
    }
  }

  /** Where a nonempty script stood before its last operation. */
  lemma {:induction false} WithoutLast(a: seq<string>, b: seq<string>, ops: seq<Operation>, x: nat, y: nat)
      returns (x': nat, y': nat)
    requires x <= |a| && y <= |b| && ops != []
    requires IsScript(ops, a[..x], b[..y])
    ensures var n := |ops| - 1; var prefix := ops[n].prefix;
            && x == (if prefix.Insert? then x' else x' + 1) && y == (if prefix.Delete? then y' else y' + 1)
            && IsScript(ops[..n], a[..x'], b[..y'])
            && Cost(ops) == Cost(ops[..n]) + (if prefix.Keep? then 0 else 1)
            && (prefix.Keep? ==> a[x'] == b[y'])
  {
    var n := |ops| - 1;
    var rest, last := ops[..n], ops[n];
    assert ops == rest + [last];
    ScriptPush(rest, last);
    x' := if last.prefix.Insert? then x else x - 1;
    y' := if last.prefix.Delete? then y else y - 1;
    assert BeforeOf(rest) == a[..x'] by {
      assert !last.prefix.Insert? ==> a[..x][..x'] == a[..x'] && BeforeOf(ops)[..x'] == BeforeOf(rest);
    }
    assert AfterOf(rest) == b[..y'] by {
      assert !last.prefix.Delete? ==> b[..y][..y'] == b[..y'] && AfterOf(ops)[..y'] == AfterOf(rest);
    }
    if last.prefix.Keep? {
      assert a[x'] == BeforeOf(ops)[x'] == last.line;
      assert b[y'] == AfterOf(ops)[y'] == last.line;
    }
  }

  /** The frontier stays ahead of any point when that point makes one more move. */
  lemma FrontierAdvances(a: seq<string>, b: seq<string>, trace: seq<map<int, int>>, distance: nat, x: nat, y: nat,
                         prefix: Prefix)
    requires Rounds(a, b, trace) && distance + (if prefix.Keep? then 0 else 1) < |trace|
    requires OnFront(distance, x - y) && x - y in trace[distance] && x <= trace[distance][x - y]
    requires !prefix.Insert? ==> x < |a|
    requires !prefix.Delete? ==> y < |b|
    requires prefix.Keep? ==> a[x] == b[y]
    ensures prefix.Keep? ==> x + 1 <= trace[distance][x - y]
    ensures prefix.Delete? ==> OnFront(distance + 1, x + 1 - y) && x + 1 - y in trace[distance + 1]
                               && x + 1 <= trace[distance + 1][x + 1 - y]
    ensures prefix.Insert? ==> OnFront(distance + 1, x - y - 1) && x - y - 1 in trace[distance + 1]
                               && x <= trace[distance + 1][x - y - 1]
  {
    if prefix.Keep? {
      assert Round(a, b, trace, distance);
    } else {
      var diagonal := if prefix.Insert? then x - y - 1 else x - y + 1;
      assert OnFront(distance + 1, diagonal);
      RoundsReadable(a, b, trace, distance + 1);
      StepIsFurther(trace[distance], distance + 1, diagonal, x - y);
      assert Round(a, b, trace, distance + 1);
    }
  }

  function Min(i: int, j: int): int { if i < j then i else j }

  /** How many steps of a point lie beyond the last line of either side. */
  ghost function Overshoot(a: seq<string>, b: seq<string>, x: int, y: int): nat
    requires 0 <= x && 0 <= y
  {
    (x - Min(x, |a|)) + (y - Min(y, |b|))
  }

  /** A script that reaches the grid point nearest to (x, y), within a budget that also
      pays for the overshoot. */
  ghost predicate Clips(a: seq<string>, b: seq<string>, ops: seq<Operation>, x: int, y: int, budget: int) {
    && 0 <= x && 0 <= y
    && IsScript(ops, a[..Min(x, |a|)], b[..Min(y, |b|)])
    && Cost(ops) + Overshoot(a, b, x, y) <= budget
  }

  /** Clipping an off-grid frontier point back onto the grid gives a script that saves one
      edit per step of overshoot. */
  lemma {:induction false} ClippedPoint(a: seq<string>, b: seq<string>, trace: seq<map<int, int>>, distance: nat,
                                        diagonal: int)
    returns (ops: seq<Operation>)
    requires Rounds(a, b, trace) && distance <= |trace|
    requires OnFront(distance, diagonal)
    ensures var x := Furthest(a, b, RoundStart(trace, distance), distance, diagonal);
            Clips(a, b, ops, x, x - diagonal, distance)
    decreases distance
  {
    var frontier := RoundStart(trace, distance);
    var x := StepFrom(frontier, distance, diagonal);
    if distance == 0 {
      ops := [];
    } else {
      RoundsReadable(a, b, trace, distance);
      StepIsPresent(frontier, distance, diagonal);
      var previous := PreviousDiagonal(frontier, distance, diagonal);
      ops := ClippedPoint(a, b, trace, distance - 1, previous);
      assert Round(a, b, trace, distance - 1);
      var from := frontier[previous];
      ops := ClippedStep(a, b, ops, from, from - previous, if diagonal < previous then Insert else Delete,
                         distance - 1);
    }
    ops := FollowedSnake(a, b, ops, x, diagonal, distance);
  }

  /** One edit from a possibly off-grid point costs one operation, or one step of overshoot. */
  lemma ClippedStep(a: seq<string>, b: seq<string>, ops: seq<Operation>, x: int, y: int, prefix: Prefix,
                    budget: int)
    returns (longer: seq<Operation>)
    requires !prefix.Keep?
    requires Clips(a, b, ops, x, y, budget)
    ensures prefix.Insert? ==> Clips(a, b, longer, x, y + 1, budget + 1)
    ensures prefix.Delete? ==> Clips(a, b, longer, x + 1, y, budget + 1)
  {
    longer := ops;
    if if prefix.Insert? then y < |b| else x < |a| {
      longer := ExtendedScript(a, b, ops, Min(x, |a|), Min(y, |b|), prefix);
    }
  }

  /** Extends a script of a grid point by one operation. */
  lemma ExtendedScript(a: seq<string>, b: seq<string>, ops: seq<Operation>, x: nat, y: nat, prefix: Prefix)
    returns (longer: seq<Operation>)
    requires x <= |a| && y <= |b| && IsScript(ops, a[..x], b[..y])
    requires !prefix.Insert? ==> x < |a|
    requires !prefix.Delete? ==> y < |b|
    requires prefix.Keep? ==> a[x] == b[y]
    ensures IsScript(longer, a[..if prefix.Insert? then x else x + 1], b[..if prefix.Delete? then y else y + 1])
    ensures Cost(longer) == Cost(ops) + if prefix.Keep? then 0 else 1
  {
    var last := Operation(prefix, if prefix.Insert? then b[y] else a[x]);
    longer := ops + [last];
    ScriptPush(ops, last);
    if !prefix.Insert? { assert a[..x + 1] == a[..x] + [a[x]]; }
    if !prefix.Delete? { assert b[..y + 1] == b[..y] + [b[y]]; }
  }

  lemma {:induction false} FollowedSnake(a: seq<string>, b: seq<string>, ops: seq<Operation>, x: int, diagonal: int,
                                         budget: int)
    returns (longer: seq<Operation>)
    requires Clips(a, b, ops, x, x - diagonal, budget)
    ensures Clips(a, b, longer, Snake(a, b, x, diagonal), Snake(a, b, x, diagonal) - diagonal, budget)
    decreases |a| - x
  {
    longer := ops;
    if x < |a| && x - diagonal < |b| && a[x] == b[x - diagonal] {
      longer := ExtendedScript(a, b, ops, x, x - diagonal, Keep);
      longer := FollowedSnake(a, b, longer, x + 1, diagonal, budget);
    }
  }

  /** No saved round has a point that passes the test that ends the search. */
  ghost predicate NoEnd(a: seq<string>, b: seq<string>, trace: seq<map<int, int>>) {
    forall d :: 0 <= d < |trace| ==> NoEndIn(a, b, trace[d], d)
  }

  ghost predicate NoEndIn(a: seq<string>, b: seq<string>, frontier: map<int, int>, distance: int) {
    forall k :: OnFront(distance, k) && k in frontier ==> !(|a| <= frontier[k] && |b| <= frontier[k] - k)
  }

  /** A search whose rounds have not ended needs scripts at least as long as its next round. */
  lemma NoEndNoScript(a: seq<string>, b: seq<string>, trace: seq<map<int, int>>, ops: seq<Operation>)
    requires Rounds(a, b, trace) && NoEnd(a, b, trace)
    requires IsScript(ops, a, b)
    ensures |trace| <= Cost(ops)
  {
    if Cost(ops) < |trace| {
      assert a[..|a|] == a && b[..|b|] == b;
      FrontierIsFurthest(a, b, trace, ops, |a|, |b|);
      assert false;
    }
  }

  /** The search never stops at an off-grid point: the first point that passes the end test
      is exactly the end of both sides. */
  lemma FirstEndIsExact(a: seq<string>, b: seq<string>, trace: seq<map<int, int>>, diagonal: int)
    requires OnFront(|trace|, diagonal)
    requires Rounds(a, b, trace) && NoEnd(a, b, trace)
    requires var x := Furthest(a, b, RoundStart(trace, |trace|), |trace|, diagonal); |a| <= x && |b| <= x - diagonal
    ensures diagonal == |a| - |b|
    ensures Furthest(a, b, RoundStart(trace, |trace|), |trace|, diagonal) == |a|
  {
    var ops := ClippedPoint(a, b, trace, |trace|, diagonal);
    assert a[..|a|] == a && b[..|b|] == b;
    NoEndNoScript(a, b, trace, ops);
  }

  /** Once a search has run its full bound it must have ended: every pair has the script
      that deletes everything and inserts everything. */
  lemma SearchEnds(a: seq<string>, b: seq<string>, trace: seq<map<int, int>>)
    requires Rounds(a, b, trace) && |trace| == |a| + |b| + 1
    ensures !NoEnd(a, b, trace)
  {
    if NoEnd(a, b, trace) {
      var ops := ReplaceAll(a, b);
      NoEndNoScript(a, b, trace, ops);
      assert false;
    }
  }

  lemma {:induction false} ReplaceAll(a: seq<string>, b: seq<string>) returns (ops: seq<Operation>)
    ensures IsScript(ops, a, b)
    ensures Cost(ops) == |a| + |b|
    decreases |a| + |b|
  {
    if a != [] {
      ops := ReplaceAll(a[1..], b);
      ops := [Operation(Delete, a[0])] + ops;
    } else if b != [] {
      ops := ReplaceAll(a, b[1..]);
      ops := [Operation(Insert, b[0])] + ops;
    } else {
      ops := [];
    }
  }

  // ------------------------------------------------------- longest common subsequence

  /** The length of a longest common subsequence, by the textbook recursion. */
  ghost function Lcs(a: seq<string>, b: seq<string>): nat
    decreases |a| + |b|
  {
    if a == [] || b == [] then 0
    else if a[0] == b[0] then 1 + Lcs(a[1..], b[1..])
    else if Lcs(a[1..], b) < Lcs(a, b[1..]) then Lcs(a, b[1..])
    else Lcs(a[1..], b)
  }

  lemma {:induction false} LcsDropsAtMostOne(a: seq<string>, b: seq<string>)
    ensures a != [] ==> Lcs(a[1..], b) <= Lcs(a, b) <= Lcs(a[1..], b) + 1
    ensures b != [] ==> Lcs(a, b[1..]) <= Lcs(a, b) <= Lcs(a, b[1..]) + 1
    decreases |a| + |b|
  {
    if a != [] && b != [] {
      LcsDropsAtMostOne(a[1..], b);
      LcsDropsAtMostOne(a, b[1..]);
      LcsDropsAtMostOne(a[1..], b[1..]);
    }
  }

  lemma {:induction false} ScriptsKeepACommonSubsequence(ops: seq<Operation>)
    ensures |BeforeOf(ops)| + |AfterOf(ops)| <= Cost(ops) + 2 * Lcs(BeforeOf(ops), AfterOf(ops))
  {
    if ops != [] {
      var before, after := BeforeOf(ops), AfterOf(ops);
      ScriptsKeepACommonSubsequence(ops[1..]);
      LcsDropsAtMostOne(before, after);
      match ops[0].prefix {
        case Keep =>
          assert before[1..] == BeforeOf(ops[1..]) && after[1..] == AfterOf(ops[1..]);
        case Delete =>
          assert before[1..] == BeforeOf(ops[1..]) && after == AfterOf(ops[1..]);
        case Insert =>
          assert after[1..] == AfterOf(ops[1..]) && before == BeforeOf(ops[1..]);
      }
    }
  }

  /** The script that keeps a longest common subsequence. */
  lemma {:induction false} LcsScript(a: seq<string>, b: seq<string>) returns (ops: seq<Operation>)
    ensures IsScript(ops, a, b)
    ensures Cost(ops) + 2 * Lcs(a, b) == |a| + |b|
    decreases |a| + |b|
  {
    if a == [] || b == [] {
      ops := ReplaceAll(a, b);
    } else if a[0] == b[0] {
      ops := LcsScript(a[1..], b[1..]);
      ops := [Operation(Keep, a[0])] + ops;
    } else if Lcs(a[1..], b) < Lcs(a, b[1..]) {
      ops := LcsScript(a, b[1..]);
      ops := [Operation(Insert, b[0])] + ops;
    } else {
      ops := LcsScript(a[1..], b);
      ops := [Operation(Delete, a[0])] + ops;
    }
  }

  /** The least cost over all scripts is |a| + |b| - 2 * Lcs(a, b). */
  lemma {:induction false} LeastCost(a: seq<string>, b: seq<string>, ops: seq<Operation>)
    requires IsScript(ops, a, b)
    requires forall other :: IsScript(other, a, b) ==> Cost(ops) <= Cost(other)
    ensures Cost(ops) == |a| + |b| - 2 * Lcs(a, b)
  {
    ScriptsKeepACommonSubsequence(ops);
    var shortest := LcsScript(a, b);
  }

  /** A script that costs no more than the number of rounds without an end cannot be beaten. */
  lemma {:induction false} FirstEndIsBest(a: seq<string>, b: seq<string>, trace: seq<map<int, int>>,
                                          ops: seq<Operation>)
    requires Rounds(a, b, trace) && NoEnd(a, b, trace)
    requires IsScript(ops, a, b) && Cost(ops) == |trace|
    ensures forall other :: IsScript(other, a, b) ==> Cost(ops) <= Cost(other)
    ensures Cost(ops) == |a| + |b| - 2 * Lcs(a, b)
  {
    forall other | IsScript(other, a, b) ensures Cost(ops) <= Cost(other) {
      NoEndNoScript(a, b, trace, other);
    }
    LeastCost(a, b, ops);
  }

  // ------------------------------------------------------------------ the program

  /** The diagonals below `bound` of one round are recorded, and none of them ended the search. */
  ghost predicate RoundPart(a: seq<string>, b: seq<string>, frontier: map<int, int>, next: map<int, int>, distance: int,
                            bound: int)
  {
    forall k :: OnFront(distance, k) && k < bound ==>
      k in next && next[k] == Furthest(a, b, frontier, distance, k) && !(|a| <= next[k] && |b| <= next[k] - k)
  }

  lemma RoundPartGrows(a: seq<string>, b: seq<string>, frontier: map<int, int>, next: map<int, int>, distance: int,
                       diagonal: int)
    requires RoundPart(a, b, frontier, next, distance, diagonal) && OnFront(distance, diagonal)
    requires var x := Furthest(a, b, frontier, distance, diagonal); !(|a| <= x && |b| <= x - diagonal)
    ensures var x := Furthest(a, b, frontier, distance, diagonal);
            RoundPart(a, b, frontier, next[diagonal := x], distance, diagonal + 2)
  {
    assert forall k :: OnFront(distance, k) && k < diagonal + 2 ==> k <= diagonal;
  }

  lemma RoundAdded(a: seq<string>, b: seq<string>, trace: seq<map<int, int>>, next: map<int, int>)
    requires Rounds(a, b, trace) && NoEnd(a, b, trace)
    requires RoundPart(a, b, RoundStart(trace, |trace|), next, |trace|, |trace| + 1)
    ensures Rounds(a, b, trace + [next]) && NoEnd(a, b, trace + [next])
  {
    forall d | 0 <= d < |trace + [next]|
      ensures Round(a, b, trace + [next], d) && NoEndIn(a, b, (trace + [next])[d], d)
    {
      assert RoundStart(trace + [next], d) == RoundStart(trace, d);
      if d < |trace| {
        assert Round(a, b, trace, d) && NoEndIn(a, b, trace[d], d);
      }
    }
  }

  method DiffLines(beforeLines: seq<string>, afterLines: seq<string>) returns (operations: seq<Operation>)
    ensures BeforeOf(operations) == beforeLines
    ensures AfterOf(operations) == afterLines
    ensures forall other :: IsScript(other, beforeLines, afterLines) ==> Cost(operations) <= Cost(other)
    ensures Cost(operations) == |beforeLines| + |afterLines| - 2 * Lcs(beforeLines, afterLines)
  {
    var maxDistance := |beforeLines| + |afterLines|;
    var frontier := map[1 := 0];
    var trace: seq<map<int, int>> := [];
    var distance := 0;
    while distance <= maxDistance
      invariant distance == |trace| <= maxDistance + 1
      invariant frontier == RoundStart(trace, distance)
      invariant Rounds(beforeLines, afterLines, trace)
      invariant NoEnd(beforeLines, afterLines, trace)
    {
      RoundsReadable(beforeLines, afterLines, trace, distance);
      var nextFrontier := frontier;
      var diagonal := -distance;
      while diagonal <= distance
        invariant -distance <= diagonal <= distance + 2 && (diagonal + distance) % 2 == 0
        invariant RoundPart(beforeLines, afterLines, frontier, nextFrontier, distance, diagonal)
      {
        var beforeIndex, afterIndex := FurthestOnDiagonal(beforeLines, afterLines, frontier, distance, diagonal);
        ghost var recorded := nextFrontier;
        nextFrontier := nextFrontier[diagonal := beforeIndex];
        if beforeIndex >= |beforeLines| && afterIndex >= |afterLines| {
          FirstEndIsExact(beforeLines, afterLines, trace, diagonal);
          assert (trace + [nextFrontier])[..|trace|] == trace;
          operations := BacktrackDiff(trace + [nextFrontier], beforeLines, afterLines);
          FirstEndIsBest(beforeLines, afterLines, trace, operations);
          return;
        }
        RoundPartGrows(beforeLines, afterLines, frontier, recorded, distance, diagonal);
        diagonal := diagonal + 2;
      }
      RoundAdded(beforeLines, afterLines, trace, nextFrontier);
      trace := trace + [nextFrontier];
      frontier := nextFrontier;
      distance := distance + 1;
    }
    SearchEnds(beforeLines, afterLines, trace);
    assert false;
  }

  /** One diagonal of one round: the step from the frontier and the equal lines after it. */
  method FurthestOnDiagonal(beforeLines: seq<string>, afterLines: seq<string>, frontier: map<int, int>, distance: int,
                            diagonal: int)
    returns (beforeIndex: int, afterIndex: int)
    requires 0 <= distance && OnFront(distance, diagonal) && Readable(frontier, distance)
    ensures beforeIndex == Furthest(beforeLines, afterLines, frontier, distance, diagonal)
    ensures afterIndex == beforeIndex - diagonal
  {
    StepIsPresent(frontier, distance, diagonal);
    var insertion := Insertion(frontier, distance, diagonal);
    var from := GetFrontier(frontier, if insertion then diagonal + 1 else diagonal - 1);
    beforeIndex := if insertion then from.index else from.index + 1;
    afterIndex := beforeIndex - diagonal;
    while beforeIndex < |beforeLines| && afterIndex < |afterLines| && beforeLines[beforeIndex] == afterLines[afterIndex]
      invariant 0 <= beforeIndex && 0 <= afterIndex == beforeIndex - diagonal
      invariant Snake(beforeLines, afterLines, beforeIndex, diagonal)
             == Furthest(beforeLines, afterLines, frontier, distance, diagonal)
      decreases |beforeLines| - beforeIndex
    {
      beforeIndex := beforeIndex + 1;
      afterIndex := afterIndex + 1;
    }
  }

  /** Retraces the search from the end of both sides. All but the last saved frontier are read. */
  method BacktrackDiff(trace: seq<map<int, int>>, beforeLines: seq<string>, afterLines: seq<string>)
    returns (script: seq<Operation>)
    requires trace != []
    requires Rounds(beforeLines, afterLines, trace[..|trace| - 1])
    requires OnPath(beforeLines, afterLines, trace[..|trace| - 1], |trace| - 1, |beforeLines|, |afterLines|)
    ensures BeforeOf(script) == beforeLines
    ensures AfterOf(script) == afterLines
    ensures Cost(script) == |trace| - 1
  {
    ghost var saved := trace[..|trace| - 1];
    ghost var path := SearchPath(beforeLines, afterLines, saved, |trace| - 1, |beforeLines|, |afterLines|);
    var operations: seq<Operation> := [];
    var beforeIndex := |beforeLines|;
    var afterIndex := |afterLines|;
    var distance := |trace| - 1;
    while distance > 0
      invariant 0 <= distance < |trace|
      invariant path[distance] == (beforeIndex, afterIndex)
      invariant Retraced(beforeLines, afterLines, operations, beforeIndex, afterIndex)
      invariant Cost(Reversed(operations)) == |trace| - 1 - distance
    {
      assert Linked(beforeLines, afterLines, saved[distance - 1], distance, path[distance - 1], path[distance]);
      beforeIndex, afterIndex, operations := RetraceRound(
        beforeLines, afterLines, trace[distance - 1], distance, operations, beforeIndex, afterIndex,
        path[distance - 1]);
      distance := distance - 1;
    }
    beforeIndex, afterIndex, operations := RetraceEqualLines(
      beforeLines, afterLines, operations, beforeIndex, afterIndex, 0, 0);
    operations := RetraceRest(beforeLines, afterLines, operations, beforeIndex, afterIndex);
    assert beforeLines[0..] == beforeLines && afterLines[0..] == afterLines;
    script := Reversed(operations);
  }

  /** The last two loops of the backtrack. The search leaves them nothing to do, because its
      first round starts at the origin. */
  method RetraceRest(beforeLines: seq<string>, afterLines: seq<string>, pushed: seq<Operation>, x: int, y: int)
    returns (operations: seq<Operation>)
    requires Retraced(beforeLines, afterLines, pushed, x, y)
    ensures Retraced(beforeLines, afterLines, operations, 0, 0)
    ensures Cost(Reversed(operations)) == Cost(Reversed(pushed)) + x + y
  {
    var beforeIndex, afterIndex := x, y;
    operations := pushed;
    while beforeIndex > 0
      invariant Retraced(beforeLines, afterLines, operations, beforeIndex, afterIndex)
      invariant Cost(Reversed(operations)) == Cost(Reversed(pushed)) + x - beforeIndex
    {
      beforeIndex := beforeIndex - 1;
      operations := Pushed(beforeLines, afterLines, operations, beforeIndex, afterIndex, Delete);
    }
    while afterIndex > 0
      invariant Retraced(beforeLines, afterLines, operations, beforeIndex, afterIndex)
      invariant Cost(Reversed(operations)) == Cost(Reversed(pushed)) + x + y - afterIndex
    {
      afterIndex := afterIndex - 1;
      operations := Pushed(beforeLines, afterLines, operations, beforeIndex, afterIndex, Insert);
    }
  }

  /** One round of the backtrack. */
  method RetraceRound(beforeLines: seq<string>, afterLines: seq<string>, previousFrontier: map<int, int>, distance: int,
                      pushed: seq<Operation>, x: int, y: int, ghost from: (int, int))
    returns (beforeIndex: int, afterIndex: int, operations: seq<Operation>)
    requires Linked(beforeLines, afterLines, previousFrontier, distance, from, (x, y))
    requires Retraced(beforeLines, afterLines, pushed, x, y)
    ensures (beforeIndex, afterIndex) == from
    ensures Retraced(beforeLines, afterLines, operations, beforeIndex, afterIndex)
    ensures Cost(Reversed(operations)) == Cost(Reversed(pushed)) + 1
  {
    var diagonal := x - y;
    var insertion := Insertion(previousFrontier, distance, diagonal);
    var previousDiagonal := if insertion then diagonal + 1 else diagonal - 1;
    var previousBeforeIndex := GetFrontier(previousFrontier, previousDiagonal).index;
    var previousAfterIndex := previousBeforeIndex - previousDiagonal;
    beforeIndex, afterIndex, operations :=
      RetraceEqualLines(beforeLines, afterLines, pushed, x, y, previousBeforeIndex, previousAfterIndex);
    if insertion {
      afterIndex := afterIndex - 1;
      operations := Pushed(beforeLines, afterLines, operations, beforeIndex, afterIndex, Insert);
    } else {
      beforeIndex := beforeIndex - 1;
      operations := Pushed(beforeLines, afterLines, operations, beforeIndex, afterIndex, Delete);
    }
  }

  /** The two loops that push equal lines on the way back, down to a row or column bound. */
  method RetraceEqualLines(beforeLines: seq<string>, afterLines: seq<string>, pushed: seq<Operation>, x: int, y: int,
                           beforeBound: int, afterBound: int)
    returns (beforeIndex: int, afterIndex: int, operations: seq<Operation>)
    requires 0 <= beforeBound <= x && 0 <= afterBound <= y
    requires Retraced(beforeLines, afterLines, pushed, x, y)
    requires MatchRun(beforeLines, afterLines, if x - beforeBound < y - afterBound then beforeBound
                      else x - y + afterBound,
                      x, x - y)
    ensures beforeIndex == if x - beforeBound < y - afterBound then beforeBound else x - y + afterBound
    ensures beforeIndex - afterIndex == x - y
    ensures Retraced(beforeLines, afterLines, operations, beforeIndex, afterIndex)
    ensures Cost(Reversed(operations)) == Cost(Reversed(pushed))
  {
    beforeIndex, afterIndex, operations := x, y, pushed;
    while beforeIndex > beforeBound && afterIndex > afterBound
      invariant beforeBound <= beforeIndex <= x && afterBound <= afterIndex && beforeIndex - afterIndex == x - y
      invariant Retraced(beforeLines, afterLines, operations, beforeIndex, afterIndex)
      invariant Cost(Reversed(operations)) == Cost(Reversed(pushed))
      decreases beforeIndex
    {
      beforeIndex := beforeIndex - 1;
      afterIndex := afterIndex - 1;
      assert Matches(beforeLines, afterLines, beforeIndex, x - y);
      operations := Pushed(beforeLines, afterLines, operations, beforeIndex, afterIndex, Keep);
    }
  }

  /** The search passed through (x, y) as the furthest point of its diagonal. */
  ghost predicate OnPath(a: seq<string>, b: seq<string>, saved: seq<map<int, int>>, distance: nat, x: int, y: int)
    requires distance <= |saved|
  {
    OnFront(distance, x - y) && x == Furthest(a, b, RoundStart(saved, distance), distance, x - y)
  }

  /** Two successive points of a search: the choice made again on the saved frontier names
      the earlier one, and every step between them is a pair of equal lines. */
  ghost predicate Linked(a: seq<string>, b: seq<string>, frontier: map<int, int>, distance: int, from: (int, int),
                         to: (int, int))
  {
    && GetFrontier(frontier, PreviousDiagonal(frontier, distance, to.0 - to.1)) == At(from.0)
    && from.0 - from.1 == PreviousDiagonal(frontier, distance, to.0 - to.1)
    && 0 <= from.0 && 0 <= from.1
    && MatchRun(a, b, if to.0 - to.1 < from.0 - from.1 then from.0 else from.0 + 1, to.0, to.0 - to.1)
  }

  /** The points of a search, one for each round. */
  ghost predicate Path(a: seq<string>, b: seq<string>, saved: seq<map<int, int>>, path: seq<(int, int)>) {
    && 0 < |path| <= |saved| + 1
    && path[0].0 == path[0].1 && MatchRun(a, b, 0, path[0].0, 0)
    && forall d :: 0 < d < |path| ==> Linked(a, b, saved[d - 1], d, path[d - 1], path[d])
  }

  /** The points a search passed through, one for each round up to `distance`. */
  lemma {:induction false} SearchPath(a: seq<string>, b: seq<string>, saved: seq<map<int, int>>,
                                      distance: nat, x: int, y: int)
    returns (path: seq<(int, int)>)
    requires distance <= |saved| && Rounds(a, b, saved)
    requires OnPath(a, b, saved, distance, x, y)
    ensures Path(a, b, saved, path)
    ensures |path| == distance + 1 && path[distance] == (x, y)
    decreases distance
  {
    if distance == 0 {
      path := SearchOrigin(a, b, saved, x, y);
    } else {
      var from := SearchStep(a, b, saved, distance, x, y);
      var shorter := SearchPath(a, b, saved, distance - 1, from.0, from.1);
      path := PathGrows(a, b, saved, shorter, (x, y));
    }
  }

  lemma SearchOrigin(a: seq<string>, b: seq<string>, saved: seq<map<int, int>>, x: int, y: int)
    returns (path: seq<(int, int)>)
    requires OnPath(a, b, saved, 0, x, y)
    ensures Path(a, b, saved, path) && path == [(x, y)]
  {
    path := [(x, y)];
  }

  lemma SearchStep(a: seq<string>, b: seq<string>, saved: seq<map<int, int>>, distance: nat, x: int, y: int)
    returns (from: (int, int))
    requires 0 < distance <= |saved| && Rounds(a, b, saved)
    requires OnPath(a, b, saved, distance, x, y)
    ensures OnPath(a, b, saved, distance - 1, from.0, from.1)
    ensures Linked(a, b, saved[distance - 1], distance, from, (x, y))
  {
    RoundsReadable(a, b, saved, distance);
    from := PathStep(a, b, saved[distance - 1], distance, (x, y));
    assert Round(a, b, saved, distance - 1);
  }

  lemma PathGrows(a: seq<string>, b: seq<string>, saved: seq<map<int, int>>, path: seq<(int, int)>, to: (int, int))
    returns (longer: seq<(int, int)>)
    requires Path(a, b, saved, path) && |path| <= |saved|
    requires Linked(a, b, saved[|path| - 1], |path|, path[|path| - 1], to)
    ensures Path(a, b, saved, longer) && longer == path + [to]
  {
    longer := path + [to];
    forall d | 0 < d < |longer| ensures Linked(a, b, saved[d - 1], d, longer[d - 1], longer[d]) {
      assert d < |path| ==> Linked(a, b, saved[d - 1], d, path[d - 1], path[d]);
    }
  }

  lemma PathStep(a: seq<string>, b: seq<string>, frontier: map<int, int>, distance: int, to: (int, int))
    returns (from: (int, int))
    requires 0 < distance && Readable(frontier, distance)
    requires OnFront(distance, to.0 - to.1) && to.0 == Furthest(a, b, frontier, distance, to.0 - to.1)
    ensures OnFront(distance - 1, from.0 - from.1)
    ensures from.0 - from.1 in frontier && frontier[from.0 - from.1] == from.0
    ensures Linked(a, b, frontier, distance, from, to)
  {
    var diagonal := to.0 - to.1;
    var previous := PreviousDiagonal(frontier, distance, diagonal);
    assert previous in frontier && OnFront(distance - 1, previous)
        && 0 <= frontier[previous] && 0 <= frontier[previous] - previous by {
      StepIsPresent(frontier, distance, diagonal);
    }
    from := (frontier[previous], frontier[previous] - previous);
    assert from.0 - from.1 == previous;
  }

  /** The operations pushed so far, last one first, are a script of what lies past the
      two indices. */
  ghost predicate Retraced(a: seq<string>, b: seq<string>, ops: seq<Operation>, x: int, y: int) {
    && 0 <= x <= |a| && 0 <= y <= |b|
    && IsScript(Reversed(ops), a[x..], b[y..])
  }

  /** Pushes the operation that leads from (x, y) to where the pushed operations start. */
  method Pushed(a: seq<string>, b: seq<string>, ops: seq<Operation>, x: int, y: int, prefix: Prefix)
    returns (more: seq<Operation>)
    requires 0 <= x && 0 <= y
    requires Retraced(a, b, ops, if prefix.Insert? then x else x + 1, if prefix.Delete? then y else y + 1)
    requires prefix.Keep? ==> a[x] == b[y]
    ensures more == ops + [Operation(prefix, if prefix.Insert? then b[y] else a[x])]
    ensures Retraced(a, b, more, x, y)
    ensures Cost(Reversed(more)) == Cost(Reversed(ops)) + if prefix.Keep? then 0 else 1
  {
    var op := Operation(prefix, if prefix.Insert? then b[y] else a[x]);
    more := ops + [op];
    ReversedPush(ops, op);
    assert !prefix.Insert? ==> a[x..] == [a[x]] + a[x + 1..];
    assert !prefix.Delete? ==> b[y..] == [b[y]] + b[y + 1..];
    ScriptFront(op, Reversed(ops));
  }

  /** A script and one more operation before it. */
  lemma ScriptFront(op: Operation, ops: seq<Operation>)
    ensures BeforeOf([op] + ops) == if op.prefix.Insert? then BeforeOf(ops) else [op.line] + BeforeOf(ops)
    ensures AfterOf([op] + ops) == if op.prefix.Delete? then AfterOf(ops) else [op.line] + AfterOf(ops)
    ensures Cost([op] + ops) == Cost(ops) + if op.prefix.Keep? then 0 else 1
  {
    assert ([op] + ops)[1..] == ops;
  }
}
