/** What the closure test of the board outline says about the walk. */
module OutlineTheory {
  // Closed outlines are walked without a dead end exactly where being the same point by tolerance
  // is transitive. The walk keeps the number of ends at each point, counting those of the open
  // chain, as odd or even as it was.
  import opened BoardOutline
  import opened Options
  import opened OutlineWalk
  import opened Reals

  // ------------------------------------------------------------------ tolerance and rounding

  /** Points printed alike are the same point by tolerance, whatever their coordinates. */
  lemma SameKeyIsSamePoint(p: Point, q: Point)
    requires KeyOf(p) == KeyOf(q)
    ensures SamePoint(p, q)
  {
    SameFixedIsClose(p.x, q.x);
    SameFixedIsClose(p.y, q.y);
  }

  lemma SameFixedIsClose(a: real, b: real)
    requires ToFixed4(a) == ToFixed4(b)
    ensures Abs(a - b) < 0.0001
  {
    var u := ToFixed4(a).units as real;
    assert u <= Abs(a) * 10000.0 + 0.5 < u + 1.0;
    assert u <= Abs(b) * 10000.0 + 0.5 < u + 1.0;
  }

  /** A coordinate on the 0.0001 grid. */
  ghost predicate OnGrid(r: real) { (r * 10000.0).Floor as real == r * 10000.0 }

  lemma GridPointsAgree(a: real, b: real)
    requires OnGrid(a) && OnGrid(b) && Abs(a - b) < 0.0001
    ensures a == b
  {
    var m, n := (a * 10000.0).Floor, (b * 10000.0).Floor;
    assert (m - n) as real == (a - b) * 10000.0;
    assert -1.0 < (m - n) as real < 1.0;
    assert m == n;
  }

  ghost predicate EndsOnGrid(segment: Segment) {
    OnGrid(segment.start.x) && OnGrid(segment.start.y) && OnGrid(segment.end.x) && OnGrid(segment.end.y)
  }

  /** Tolerance and rounding tell the same points apart. */
  ghost predicate Agree(p: Point, q: Point) { SamePoint(p, q) <==> KeyOf(p) == KeyOf(q) }

  ghost predicate IsEnd(segment: Segment, p: Point) { segment.start == p || segment.end == p }

  ghost predicate IsEndOf(segments: seq<Segment>, p: Point) {
    exists s :: s in segments && IsEnd(s, p)
  }

  ghost function Ends(segments: seq<Segment>): iset<Point> { iset p: Point | IsEndOf(segments, p) }

  ghost predicate EndsIn(segments: seq<Segment>, points: iset<Point>) {
    forall s :: s in segments ==> s.start in points && s.end in points
  }

  lemma EndsAreEnds(segments: seq<Segment>)
    ensures EndsIn(segments, Ends(segments))
  {
    forall s | s in segments ensures s.start in Ends(segments) && s.end in Ends(segments) {
      assert IsEnd(s, s.start) && IsEnd(s, s.end);
    }
  }

  /** Of points of the set, two that are the same as a third by tolerance are the same. */
  ghost predicate Transitive(points: iset<Point>) {
    forall p, q, r :: p in points && q in points && r in points && SamePoint(p, q) && SamePoint(q, r) ==>
      SamePoint(p, r)
  }

  ghost predicate AgreeOn(points: iset<Point>) {
    forall p, q :: p in points && q in points ==> Agree(p, q)
  }

  /** Tolerance and rounding tell the same ends of the segments apart. */
  ghost predicate Separated(segments: seq<Segment>) { AgreeOn(Ends(segments)) }

  lemma AgreementIsTransitive(points: iset<Point>)
    requires AgreeOn(points)
    ensures Transitive(points)
  {
    forall p, q, r | p in points && q in points && r in points && SamePoint(p, q) && SamePoint(q, r)
      ensures SamePoint(p, r)
    {
      assert Agree(p, q) && Agree(q, r) && Agree(p, r);
    }
  }

  /** In exact numbers they always do so on the 0.0001 grid. */
  lemma GridIsSeparated(segments: seq<Segment>)
    requires forall s :: s in segments ==> EndsOnGrid(s)
    ensures Separated(segments)
  {
    forall p, q | p in Ends(segments) && q in Ends(segments) ensures Agree(p, q) {
      var s :| s in segments && IsEnd(s, p);
      var t :| t in segments && IsEnd(t, q);
      assert EndsOnGrid(s) && EndsOnGrid(t);
      if SamePoint(p, q) {
        GridPointsAgree(p.x, q.x);
        GridPointsAgree(p.y, q.y);
      }
      if KeyOf(p) == KeyOf(q) {
        SameKeyIsSamePoint(p, q);
      }
    }
  }

  // ------------------------------------------------------------------ the load of a point

  function Near(q: Point, p: Point): nat { if SamePoint(q, p) then 1 else 0 }

  function EndsNear(segment: Segment, p: Point): nat { Near(segment.start, p) + Near(segment.end, p) }

  /** How many segment ends are the same as a point by tolerance. */
  function Crowd(segments: seq<Segment>, p: Point): nat {
    if segments == [] then 0 else EndsNear(segments[0], p) + Crowd(segments[1..], p)
  }

  /** The crowd of a point among the unused segments, and one for each open end of the chain
      that is the same point. */
  function Load(chain: Chain, unused: seq<Segment>, p: Point): nat
    requires chain.points != []
  {
    Crowd(unused, p) + Near(chain.points[0], p) + Near(Tail(chain), p)
  }

  /** The chain and the unused segments have their ends among points on which the tolerance is
      transitive. */
  ghost predicate Within(points: iset<Point>, chain: Chain, unused: seq<Segment>) {
    && Transitive(points) && chain.points != [] && EndsIn(unused, points)
    && chain.points[0] in points && Tail(chain) in points
  }

  lemma WithoutKeepsMembers(unused: seq<Segment>, i: nat)
    requires i < |unused|
    ensures forall s :: s in Without(unused, i) ==> s in unused
    ensures multiset(Without(unused, i)) + multiset{unused[i]} == multiset(unused)
  {
    assert unused == unused[..i] + [unused[i]] + unused[i + 1..];
  }

  lemma {:induction false} CrowdConcat(left: seq<Segment>, right: seq<Segment>, p: Point)
    ensures Crowd(left + right, p) == Crowd(left, p) + Crowd(right, p)
  {
    if left == [] {
      assert left + right == right;
    } else {
      assert (left + right)[1..] == left[1..] + right;
      CrowdConcat(left[1..], right, p);
    }
  }

  lemma CrowdWithout(unused: seq<Segment>, i: nat, p: Point)
    requires i < |unused|
    ensures Crowd(Without(unused, i), p) == Crowd(unused, p) - EndsNear(unused[i], p)
  {
    var left, right := unused[..i], unused[i + 1..];
    assert unused == left + ([unused[i]] + right);
    CrowdConcat(left, right, p);
    CrowdConcat(left, [unused[i]] + right, p);
    CrowdConcat([unused[i]], right, p);
  }

  lemma WithinExtended(points: iset<Point>, chain: Chain, unused: seq<Segment>, i: nat)
    requires Within(points, chain, unused) && i < |unused|
    ensures Within(points, Extended(chain, unused[i]), Without(unused, i))
  {
    WithoutKeepsMembers(unused, i);
  }

  /** The end of a segment that touches the tail is where the tail is. */
  lemma NearEndIsTail(points: iset<Point>, segment: Segment, tail: Point, p: Point)
    requires Transitive(points) && segment.start in points && segment.end in points
    requires tail in points && p in points && Touches(segment, tail)
    ensures EndsNear(segment, p) == Near(tail, p) + Near(FarEnd(segment, tail), p)
  {
    var end := if SamePoint(segment.start, tail) then segment.start else segment.end;
    assert SamePoint(end, tail) && SamePoint(tail, end);
    assert SamePoint(end, p) <==> SamePoint(tail, p);
  }

  /** Extending a chain takes two off the load of the points it leaves, and nothing else. */
  lemma LoadStep(points: iset<Point>, chain: Chain, unused: seq<Segment>, i: nat, p: Point)
    requires Within(points, chain, unused) && p in points && i < |unused| && Touches(unused[i], Tail(chain))
    ensures Load(Extended(chain, unused[i]), Without(unused, i), p)
         == Load(chain, unused, p) - 2 * Near(Tail(chain), p)
  {
    assert unused[i] in unused;
    CrowdWithout(unused, i, p);
    NearEndIsTail(points, unused[i], Tail(chain), p);
  }

  lemma {:induction false} CrowdTouches(unused: seq<Segment>, p: Point)
    requires Crowd(unused, p) > 0
    ensures exists s :: s in unused && Touches(s, p)
  {
    if EndsNear(unused[0], p) > 0 {
      assert unused[0] in unused && Touches(unused[0], p);
    } else {
      CrowdTouches(unused[1..], p);
    }
  }

  /** An open chain can be extended as long as the load of its tail is even. */
  lemma EvenLoadHasNext(chain: Chain, unused: seq<Segment>)
    requires chain.points != [] && !IsClosedChain(chain)
    requires Load(chain, unused, Tail(chain)) % 2 == 0
    ensures FirstTouching(unused, Tail(chain)) != -1
  {
    CrowdTouches(unused, Tail(chain));
  }

  // ------------------------------------------------------------------ dead ends

  lemma ClosedLoad(points: iset<Point>, chain: Chain, unused: seq<Segment>, p: Point)
    requires Within(points, chain, unused) && IsClosedChain(chain) && p in points
    ensures Load(chain, unused, p) == Crowd(unused, p) + 2 * Near(Tail(chain), p)
  {
    var first, tail := chain.points[0], Tail(chain);
    assert SamePoint(tail, first);
    assert SamePoint(first, p) <==> SamePoint(tail, p);
  }

  lemma ParityStep(a: int, b: int, c: int, d: int)
    requires b == c - 2 * d && a % 2 == b % 2
    ensures a % 2 == c % 2
  {}

  /** Following a chain leaves every crowd as odd or even as the load it started from. */
  lemma {:induction false} FollowKeepsParity(points: iset<Point>, chain: Chain, unused: seq<Segment>, p: Point)
    requires Within(points, chain, unused) && p in points && Follow(chain, unused).Closed?
    ensures Crowd(Follow(chain, unused).left, p) % 2 == Load(chain, unused, p) % 2
    decreases |unused|
  {
    if IsClosedChain(chain) {
      ClosedLoad(points, chain, unused, p);
      ParityStep(Crowd(unused, p), Crowd(unused, p), Load(chain, unused, p), Near(Tail(chain), p));
    } else {
      var i := FirstTouching(unused, Tail(chain));
      var longer, fewer := Extended(chain, unused[i]), Without(unused, i);
      LoadStep(points, chain, unused, i, p);
      WithinExtended(points, chain, unused, i);
      FollowKeepsParity(points, longer, fewer, p);
      ParityStep(Crowd(Follow(longer, fewer).left, p), Load(longer, fewer, p), Load(chain, unused, p),
                 Near(Tail(chain), p));
    }
  }

  /** Every segment is either used for the chain or left. */
  lemma {:induction false} FollowUses(chain: Chain, unused: seq<Segment>)
    requires chain.points != [] && Follow(chain, unused).Closed?
    ensures var followed := Follow(chain, unused);
            multiset(followed.chain.edges) + multiset(followed.left) == multiset(chain.edges) + multiset(unused)
    decreases |unused|
  {
    if !IsClosedChain(chain) {
      var i := FirstTouching(unused, Tail(chain));
      WithoutKeepsMembers(unused, i);
      FollowUses(Extended(chain, unused[i]), Without(unused, i));
    }
  }

  lemma {:induction false} FollowLeavesMembers(chain: Chain, unused: seq<Segment>)
    requires chain.points != [] && Follow(chain, unused).Closed?
    ensures forall s :: s in Follow(chain, unused).left ==> s in unused
    decreases |unused|
  {
    if !IsClosedChain(chain) {
      var i := FirstTouching(unused, Tail(chain));
      WithoutKeepsMembers(unused, i);
      FollowLeavesMembers(Extended(chain, unused[i]), Without(unused, i));
    }
  }

  ghost predicate EvenLoads(points: iset<Point>, chain: Chain, unused: seq<Segment>)
    requires chain.points != []
  {
    forall p :: p in points ==> Load(chain, unused, p) % 2 == 0
  }

  lemma {:induction false} EvenChainCloses(points: iset<Point>, chain: Chain, unused: seq<Segment>)
    requires Within(points, chain, unused) && EvenLoads(points, chain, unused)
    ensures Follow(chain, unused).Closed?
    decreases |unused|
  {
    if !IsClosedChain(chain) {
      EvenLoadHasNext(chain, unused);
      var i := FirstTouching(unused, Tail(chain));
      forall p | p in points ensures Load(Extended(chain, unused[i]), Without(unused, i), p) % 2 == 0 {
        LoadStep(points, chain, unused, i, p);
      }
      WithinExtended(points, chain, unused, i);
      EvenChainCloses(points, Extended(chain, unused[i]), Without(unused, i));
    }
  }

  ghost predicate EveryCrowdIsEven(points: iset<Point>, segments: seq<Segment>) {
    forall p :: p in points ==> Crowd(segments, p) % 2 == 0
  }

  lemma BegunLoad(unused: seq<Segment>, p: Point)
    requires unused != []
    ensures Load(Begun(unused[0]), unused[1..], p) == Crowd(unused, p)
  {}

  lemma {:induction false} WalkParity(points: iset<Point>, unused: seq<Segment>)
    requires Transitive(points) && EndsIn(unused, points)
    ensures Walk(unused).Some? <==> EveryCrowdIsEven(points, unused)
    decreases |unused|
  {
    if unused != [] {
      var first, rest := unused[0], unused[1..];
      var chain := Begun(first);
      var followed := Follow(chain, rest);
      FollowShrinks(chain, rest);
      forall p ensures Load(chain, rest, p) == Crowd(unused, p) {
        BegunLoad(unused, p);
      }
      if EveryCrowdIsEven(points, unused) {
        EvenChainCloses(points, chain, rest);
      }
      if followed.Closed? {
        forall p | p in points ensures Crowd(followed.left, p) % 2 == Crowd(unused, p) % 2 {
          FollowKeepsParity(points, chain, rest, p);
        }
        FollowLeavesMembers(chain, rest);
        WalkParity(points, followed.left);
        WalkUnfolds(unused);
      }
    }
  }

  /** Where the tolerance is transitive, the walk never meets a dead end exactly when every
      end is the same point as an even number of ends. */
  lemma WalkSucceedsExactlyWhenCrowdsAreEven(segments: seq<Segment>)
    requires Transitive(Ends(segments))
    ensures Walk(segments).Some? <==> EveryCrowdIsEven(Ends(segments), segments)
  {
    EndsAreEnds(segments);
    WalkParity(Ends(segments), segments);
  }

  // ------------------------------------------------------------------ from keys to crowds

  ghost predicate EveryDegreeIsEven(segments: seq<Segment>) {
    forall k :: Degree(segments, k) % 2 == 0
  }

  function EndList(segments: seq<Segment>): seq<Point> {
    if segments == [] then [] else [segments[0].start, segments[0].end] + EndList(segments[1..])
  }

  function CountKey(ends: seq<Point>, key: Key): nat {
    if ends == [] then 0 else (if KeyOf(ends[0]) == key then 1 else 0) + CountKey(ends[1..], key)
  }

  function CountNear(ends: seq<Point>, p: Point): nat {
    if ends == [] then 0 else Near(ends[0], p) + CountNear(ends[1..], p)
  }

  lemma {:induction false} EndListCounts(segments: seq<Segment>, points: iset<Point>)
    requires EndsIn(segments, points)
    ensures forall k :: CountKey(EndList(segments), k) == Degree(segments, k)
    ensures forall p :: CountNear(EndList(segments), p) == Crowd(segments, p)
    ensures forall e :: e in EndList(segments) ==> e in points
  {
    if segments != [] {
      EndListCounts(segments[1..], points);
      var rest := EndList(segments[1..]);
      var ends := EndList(segments);
      assert segments[0] in segments;
      assert ends[1..] == [segments[0].end] + rest && ends[1..][1..] == rest;
    }
  }

  /** The ends that are not printed as a key. */
  function Dropped(ends: seq<Point>, key: Key): (others: seq<Point>)
    ensures |others| == |ends| - CountKey(ends, key)
    ensures forall e :: e in others ==> e in ends
  {
    if ends == [] then []
    else if KeyOf(ends[0]) == key then Dropped(ends[1..], key)
    else [ends[0]] + Dropped(ends[1..], key)
  }

  lemma {:induction false} DroppedCountsKey(ends: seq<Point>, key: Key, other: Key)
    ensures CountKey(Dropped(ends, key), other) == if other == key then 0 else CountKey(ends, other)
  {
    if ends != [] {
      DroppedCountsKey(ends[1..], key, other);
      var rest := Dropped(ends[1..], key);
      assert ([ends[0]] + rest)[1..] == rest;
    }
  }

  lemma SameKeyIsNearAlike(points: iset<Point>, q: Point, e: Point, p: Point)
    requires Transitive(points) && q in points && e in points && p in points && KeyOf(q) == KeyOf(e)
    ensures Near(q, p) == Near(e, p)
  {
    SameKeyIsSamePoint(q, e);
    assert SamePoint(e, q);
  }

  /** Ends of one key are the same point, so a point is the same as all of them or none. */
  lemma {:induction false} DroppedCountsNear(points: iset<Point>, ends: seq<Point>, e: Point, p: Point)
    requires Transitive(points) && e in points && p in points && forall q :: q in ends ==> q in points
    ensures CountNear(Dropped(ends, KeyOf(e)), p)
         == CountNear(ends, p) - if Near(e, p) == 1 then CountKey(ends, KeyOf(e)) else 0
  {
    if ends != [] {
      DroppedCountsNear(points, ends[1..], e, p);
      var first := ends[0];
      assert first in ends;
      if KeyOf(first) == KeyOf(e) {
        SameKeyIsNearAlike(points, first, e, p);
      } else {
        var rest := Dropped(ends[1..], KeyOf(e));
        assert ([first] + rest)[1..] == rest;
      }
    }
  }

  lemma {:induction false} EvenKeysGiveEvenCrowd(points: iset<Point>, ends: seq<Point>, p: Point)
    requires Transitive(points) && p in points && forall e :: e in ends ==> e in points
    requires forall k :: CountKey(ends, k) % 2 == 0
    ensures CountNear(ends, p) % 2 == 0
    decreases |ends|
  {
    if ends != [] {
      var e := ends[0];
      var others := Dropped(ends, KeyOf(e));
      assert e in ends && CountKey(ends, KeyOf(e)) > 0;
      forall k ensures CountKey(others, k) % 2 == 0 {
        DroppedCountsKey(ends, KeyOf(e), k);
      }
      DroppedCountsNear(points, ends, e, p);
      EvenKeysGiveEvenCrowd(points, others, p);
    }
  }

  lemma EvenDegreesGiveEvenCrowds(points: iset<Point>, segments: seq<Segment>)
    requires Transitive(points) && EndsIn(segments, points) && EveryDegreeIsEven(segments)
    ensures EveryCrowdIsEven(points, segments)
  {
    var ends := EndList(segments);
    EndListCounts(segments, points);
    assert forall k :: CountKey(ends, k) == Degree(segments, k);
    forall p | p in points ensures Crowd(segments, p) % 2 == 0 {
      EvenKeysGiveEvenCrowd(points, ends, p);
    }
  }

  /** Where tolerance and rounding agree, the crowd of a point is the degree of its key. */
  lemma {:induction false} CrowdIsDegree(points: iset<Point>, segments: seq<Segment>, p: Point)
    requires AgreeOn(points) && EndsIn(segments, points) && p in points
    ensures Crowd(segments, p) == Degree(segments, KeyOf(p))
  {
    if segments != [] {
      var first := segments[0];
      assert first in segments;
      assert Agree(first.start, p) && Agree(first.end, p);
      CrowdIsDegree(points, segments[1..], p);
    }
  }

  lemma {:induction false} KeyWithDegreeHasEnd(segments: seq<Segment>, key: Key)
    requires Degree(segments, key) > 0
    ensures exists p :: p in Ends(segments) && KeyOf(p) == key
  {
    var first := segments[0];
    assert first in segments && IsEnd(first, first.start) && IsEnd(first, first.end);
    assert first.start in Ends(segments) && first.end in Ends(segments);
    if EndsAt(first, key) == 0 {
      KeyWithDegreeHasEnd(segments[1..], key);
      var p :| p in Ends(segments[1..]) && KeyOf(p) == key;
      var s :| s in segments[1..] && IsEnd(s, p);
      assert s in segments && p in Ends(segments);
    }
  }

  lemma EvenCrowdsGiveEvenDegree(segments: seq<Segment>, key: Key)
    requires Separated(segments) && EveryCrowdIsEven(Ends(segments), segments)
    ensures Degree(segments, key) % 2 == 0
  {
    if Degree(segments, key) > 0 {
      KeyWithDegreeHasEnd(segments, key);
      var p :| p in Ends(segments) && KeyOf(p) == key;
      EndsAreEnds(segments);
      CrowdIsDegree(Ends(segments), segments, p);
    }
  }

  /** Where tolerance and rounding agree, the walk never meets a dead end exactly when every
      key ends an even number of segments. */
  lemma WalkSucceedsExactlyWhenEven(segments: seq<Segment>)
    requires Separated(segments)
    ensures Walk(segments).Some? <==> EveryDegreeIsEven(segments)
  {
    var ends := Ends(segments);
    AgreementIsTransitive(ends);
    EndsAreEnds(segments);
    WalkSucceedsExactlyWhenCrowdsAreEven(segments);
    if EveryDegreeIsEven(segments) {
      EvenDegreesGiveEvenCrowds(ends, segments);
    }
    if EveryCrowdIsEven(ends, segments) {
      forall k ensures Degree(segments, k) % 2 == 0 {
        EvenCrowdsGiveEvenDegree(segments, k);
      }
    }
  }

  // ------------------------------------------------------------------ when closed outlines are walked

  /** Every outline through these points that passes the closure test is walked. */
  ghost predicate ClosedOutlinesAreWalked(points: iset<Point>) {
    forall s :: EndsIn(s, points) && EveryDegreeIsTwo(s) ==> Walk(s).Some?
  }

  /** Through points on which the tolerance is transitive no closed outline meets a dead end. */
  lemma TransitiveOutlineIsWalked(points: iset<Point>, segments: seq<Segment>)
    requires Transitive(points) && EndsIn(segments, points) && EveryDegreeIsEven(segments)
    ensures Walk(segments).Some?
  {
    EvenDegreesGiveEvenCrowds(points, segments);
    WalkParity(points, segments);
  }

  /** Three points of which the outer two are the same as the middle one, but not as each other. */
  ghost predicate NotTransitiveAt(x: Point, y: Point, z: Point) {
    SamePoint(x, y) && SamePoint(y, z) && !SamePoint(x, z)
  }

  lemma DegreeOfThree(s: seq<Segment>, k: Key)
    requires |s| == 3
    ensures Degree(s, k) == EndsAt(s[0], k) + EndsAt(s[1], k) + EndsAt(s[2], k)
  {
    assert s[1..][1..] == s[2..] && s[2..][1..] == [];
    assert Degree(s[2..], k) == EndsAt(s[2], k) + Degree([], k);
  }

  /** Whatever three such points of different keys: the chain from the first to the last closes
      by way of the middle, and the way back is left open. */
  function NearMiss(x: Point, y: Point, z: Point): seq<Segment> {
    [Segment(x, z), Segment(y, y), Segment(z, x)]
  }

  lemma LoneSegmentDeadEnds(segment: Segment)
    requires !SamePoint(segment.start, segment.end)
    ensures Walk([segment]).None?
  {
    assert [segment][1..] == [];
    assert FirstTouching([], segment.end) == -1;
  }

  lemma NearMissDeadEnds(x: Point, y: Point, z: Point)
    requires NotTransitiveAt(x, y, z)
    ensures Walk(NearMiss(x, y, z)).None?
  {
    var s := NearMiss(x, y, z);
    var chain := Begun(s[0]);
    var rest := s[1..];
    assert rest == [s[1], s[2]] && Touches(s[1], z);
    assert FirstTouching(rest, z) == 0;
    assert Without(rest, 0) == [s[2]];
    assert Extended(chain, s[1]) == Chain([x, z, y], [s[0], s[1]]);
    assert Follow(chain, rest) == Closed(Extended(chain, s[1]), [s[2]]);
    LoneSegmentDeadEnds(s[2]);
    WalkUnfolds(s);
  }

  lemma NearMissPasses(x: Point, y: Point, z: Point)
    requires KeyOf(x) != KeyOf(y) && KeyOf(y) != KeyOf(z) && KeyOf(x) != KeyOf(z)
    ensures EveryDegreeIsTwo(NearMiss(x, y, z))
  {
    forall k ensures Degree(NearMiss(x, y, z), k) == 0 || Degree(NearMiss(x, y, z), k) == 2 {
      DegreeOfThree(NearMiss(x, y, z), k);
    }
  }

  /** The same with two segments where the middle point is printed as one of the others. */
  lemma PairDeadEnds(x: Point, y: Point, z: Point)
    requires SamePoint(z, y) && !SamePoint(z, x) && KeyOf(x) == KeyOf(y)
    ensures EveryDegreeIsTwo([Segment(z, y), Segment(z, x)]) && Walk([Segment(z, y), Segment(z, x)]).None?
  {
    var s := [Segment(z, y), Segment(z, x)];
    assert s[1..] == [s[1]] && [s[1]][1..] == [];
    if KeyOf(z) == KeyOf(x) {
      SameKeyIsSamePoint(z, x);
    }
    forall k ensures Degree(s, k) == 0 || Degree(s, k) == 2 {
      assert Degree([s[1]], k) == EndsAt(s[1], k);
    }
    LoneSegmentDeadEnds(s[1]);
    WalkUnfolds(s);
  }

  lemma NotTransitiveFails(points: iset<Point>, x: Point, y: Point, z: Point)
    requires x in points && y in points && z in points && NotTransitiveAt(x, y, z)
    ensures !ClosedOutlinesAreWalked(points)
  {
    var s := if KeyOf(x) == KeyOf(y) then [Segment(z, y), Segment(z, x)]
             else if KeyOf(z) == KeyOf(y) then [Segment(x, y), Segment(x, z)]
             else NearMiss(x, y, z);
    assert EndsIn(s, points);
    if KeyOf(x) == KeyOf(y) {
      PairDeadEnds(x, y, z);
    } else if KeyOf(z) == KeyOf(y) {
      PairDeadEnds(z, y, x);
    } else {
      if KeyOf(x) == KeyOf(z) {
        SameKeyIsSamePoint(x, z);
      }
      NearMissPasses(x, y, z);
      NearMissDeadEnds(x, y, z);
    }
    assert EveryDegreeIsTwo(s) && Walk(s).None?;
  }

  /** The main result: for any set of points, every outline through them that passes the closure
      test is walked without a dead end if and only if the tolerance is transitive on them. */
  lemma ClosedOutlinesAreWalkedExactlyWhenTransitive(points: iset<Point>)
    ensures ClosedOutlinesAreWalked(points) <==> Transitive(points)
  {
    if Transitive(points) {
      forall s | EndsIn(s, points) && EveryDegreeIsTwo(s) ensures Walk(s).Some? {
        TransitiveOutlineIsWalked(points, s);
      }
    } else {
      var x, y, z :| x in points && y in points && z in points && NotTransitiveAt(x, y, z);
      NotTransitiveFails(points, x, y, z);
    }
  }

  /** It is not on points 0.00008 apart: an outline of three segments passes the closure test and
      has no area, because its walk meets a dead end. */
  lemma ClosedOutlineCanDeadEnd()
    ensures var x, y, z := Point(0.00004, 0.0), Point(0.00012, 0.0), Point(0.0002, 0.0);
            EveryDegreeIsTwo(NearMiss(x, y, z)) && OutlineArea(NearMiss(x, y, z)).None?
  {
    var x, y, z := Point(0.00004, 0.0), Point(0.00012, 0.0), Point(0.0002, 0.0);
    assert ToFixed4(x.x).units == 0 && ToFixed4(y.x).units == 1 && ToFixed4(z.x).units == 2;
    NearMissPasses(x, y, z);
    NearMissDeadEnds(x, y, z);
  }

  // ------------------------------------------------------------------ what the walk covers

  /** A segment whose ends lie, one way round or the other, on two successive points. */
  ghost predicate Joins(segment: Segment, from: Point, to: Point) {
    || (SamePoint(segment.start, from) && segment.end == to)
    || (SamePoint(segment.end, from) && segment.start == to)
  }

  /** A chain that follows its segments from point to point. */
  ghost predicate FollowsEdges(chain: Chain) {
    && |chain.points| == |chain.edges| + 1
    && forall i :: 0 <= i < |chain.edges| ==> Joins(chain.edges[i], chain.points[i], chain.points[i + 1])
  }

  lemma {:induction false} FollowFollowsEdges(chain: Chain, unused: seq<Segment>)
    requires FollowsEdges(chain) && Follow(chain, unused).Closed?
    ensures var closed := Follow(chain, unused).chain; FollowsEdges(closed) && IsClosedChain(closed)
    decreases |unused|
  {
    if !IsClosedChain(chain) {
      var i := FirstTouching(unused, Tail(chain));
      var longer := Extended(chain, unused[i]);
      forall j | 0 <= j < |longer.edges| ensures Joins(longer.edges[j], longer.points[j], longer.points[j + 1]) {
        assert j < |chain.edges| ==> Joins(chain.edges[j], chain.points[j], chain.points[j + 1]);
      }
      FollowFollowsEdges(longer, Without(unused, i));
    }
  }

  ghost function EdgesOf(chains: seq<Chain>): multiset<Segment> {
    if chains == [] then multiset{} else multiset(chains[0].edges) + EdgesOf(chains[1..])
  }

  ghost predicate IsLoop(chain: Chain) { FollowsEdges(chain) && IsClosedChain(chain) }

  /** A walk without a dead end uses every segment exactly once, in chains that follow their
      segments from point to point and return to where they started. */
  lemma {:induction false} WalkCoversEverySegment(unused: seq<Segment>)
    requires Walk(unused).Some?
    ensures EdgesOf(Walk(unused).value) == multiset(unused)
    ensures forall c :: c in Walk(unused).value ==> IsLoop(c)
    decreases |unused|
  {
    if unused != [] {
      var chain := Begun(unused[0]);
      var followed := Follow(chain, unused[1..]);
      FollowShrinks(chain, unused[1..]);
      SameEnd(unused[0].start);
      FollowUses(chain, unused[1..]);
      FollowFollowsEdges(chain, unused[1..]);
      WalkCoversEverySegment(followed.left);
      var others := Walk(followed.left).value;
      assert Walk(unused).value == [followed.chain] + others && ([followed.chain] + others)[1..] == others;
      assert unused == [unused[0]] + unused[1..];
    }
  }

  lemma SameEnd(p: Point)
    ensures SamePoint(p, p)
  {}

  // ------------------------------------------------------------------ simple chains

  /** No end is the same point as more than one other. */
  ghost predicate EveryCrowdIsTwo(points: iset<Point>, segments: seq<Segment>) {
    forall p :: p in points ==> Crowd(segments, p) == 0 || Crowd(segments, p) == 2
  }

  ghost predicate LoadsAtMostTwo(points: iset<Point>, chain: Chain, unused: seq<Segment>)
    requires chain.points != []
  {
    forall p :: p in points ==> Load(chain, unused, p) == 0 || Load(chain, unused, p) == 2
  }

  ghost predicate VisitsNoPointTwice(chain: Chain) {
    && |chain.points| > 1
    && forall i, j :: 0 <= i < j < |chain.points| - 1 ==> !SamePoint(chain.points[i], chain.points[j])
  }

  /** The points of a chain before its last are different, and the inner ones have no unused
      segment left. */
  ghost predicate SimpleSoFar(points: iset<Point>, chain: Chain, unused: seq<Segment>) {
    && VisitsNoPointTwice(chain)
    && (forall i :: 0 <= i < |chain.points| ==> chain.points[i] in points)
    && (forall i :: 0 < i < |chain.points| - 1 ==> Load(chain, unused, chain.points[i]) == 0)
  }

  /** The tail of an open chain is none of the points before it. */
  lemma TailIsNew(points: iset<Point>, chain: Chain, unused: seq<Segment>, j: nat)
    requires chain.points != [] && SimpleSoFar(points, chain, unused) && !IsClosedChain(chain)
    requires j < |chain.points| - 1
    ensures !SamePoint(chain.points[j], Tail(chain))
  {
    assert SamePoint(chain.points[j], Tail(chain)) <==> SamePoint(Tail(chain), chain.points[j]);
    assert j > 0 ==> Load(chain, unused, chain.points[j]) == 0;
  }

  lemma StillVisitsNoPointTwice(points: iset<Point>, chain: Chain, unused: seq<Segment>, p: Point, edge: Segment)
    requires chain.points != [] && SimpleSoFar(points, chain, unused) && !IsClosedChain(chain)
    ensures VisitsNoPointTwice(Chain(chain.points + [p], chain.edges + [edge]))
  {
    forall j: nat | j < |chain.points| - 1 ensures !SamePoint(chain.points[j], Tail(chain)) {
      TailIsNew(points, chain, unused, j);
    }
  }

  lemma LoadsStep(points: iset<Point>, chain: Chain, unused: seq<Segment>, i: nat)
    requires Within(points, chain, unused) && LoadsAtMostTwo(points, chain, unused)
    requires i < |unused| && Touches(unused[i], Tail(chain))
    ensures LoadsAtMostTwo(points, Extended(chain, unused[i]), Without(unused, i))
    ensures Load(Extended(chain, unused[i]), Without(unused, i), Tail(chain)) == 0
    ensures forall p :: p in points && Load(chain, unused, p) == 0 ==>
              Load(Extended(chain, unused[i]), Without(unused, i), p) == 0
  {
    var longer, fewer := Extended(chain, unused[i]), Without(unused, i);
    var tail := Tail(chain);
    forall p | p in points ensures Load(longer, fewer, p) == Load(chain, unused, p) - 2 * Near(tail, p) {
      LoadStep(points, chain, unused, i, p);
    }
    SameEnd(tail);
    assert Load(chain, unused, tail) == 2;
  }

  lemma SimpleStep(points: iset<Point>, chain: Chain, unused: seq<Segment>, i: nat)
    requires Within(points, chain, unused) && LoadsAtMostTwo(points, chain, unused)
    requires SimpleSoFar(points, chain, unused)
    requires i < |unused| && Touches(unused[i], Tail(chain)) && !IsClosedChain(chain)
    ensures SimpleSoFar(points, Extended(chain, unused[i]), Without(unused, i))
  {
    var longer, fewer := Extended(chain, unused[i]), Without(unused, i);
    LoadsStep(points, chain, unused, i);
    StillVisitsNoPointTwice(points, chain, unused, FarEnd(unused[i], Tail(chain)), unused[i]);
    assert unused[i] in unused;
    forall j | 0 < j < |chain.points| ensures Load(longer, fewer, longer.points[j]) == 0 {
      assert j < |chain.points| - 1 ==> Load(chain, unused, chain.points[j]) == 0;
    }
  }

  /** A closed chain that visits no point twice, with nothing left to reach from its points. */
  ghost predicate Simple(chain: Chain, left: seq<Segment>) {
    && VisitsNoPointTwice(chain)
    && forall i :: 0 <= i < |chain.points| ==> Crowd(left, chain.points[i]) == 0
  }

  lemma {:induction false} FollowIsSimple(points: iset<Point>, chain: Chain, unused: seq<Segment>)
    requires Within(points, chain, unused) && LoadsAtMostTwo(points, chain, unused)
    requires SimpleSoFar(points, chain, unused) && Follow(chain, unused).Closed?
    ensures Simple(Follow(chain, unused).chain, Follow(chain, unused).left)
    ensures EveryCrowdIsTwo(points, Follow(chain, unused).left)
    decreases |unused|
  {
    if IsClosedChain(chain) {
      forall p | p in points ensures Load(chain, unused, p) == Crowd(unused, p) + 2 * Near(Tail(chain), p) {
        ClosedLoad(points, chain, unused, p);
      }
      forall i | 0 <= i < |chain.points| ensures Crowd(unused, chain.points[i]) == 0 {
        assert 0 < i < |chain.points| - 1 ==> Load(chain, unused, chain.points[i]) == 0;
      }
    } else {
      var i := FirstTouching(unused, Tail(chain));
      LoadsStep(points, chain, unused, i);
      SimpleStep(points, chain, unused, i);
      WithinExtended(points, chain, unused, i);
      FollowIsSimple(points, Extended(chain, unused[i]), Without(unused, i));
    }
  }

  ghost predicate Apart(chain: Chain, other: Chain) {
    forall p, q :: p in chain.points && q in other.points ==> !SamePoint(p, q)
  }

  /** Chains each of which visits no point twice, no two of which share a point. */
  ghost predicate DisjointSimple(chains: seq<Chain>) {
    && (forall c :: c in chains ==> VisitsNoPointTwice(c))
    && forall i, j :: 0 <= i < j < |chains| ==> Apart(chains[i], chains[j])
  }

  lemma {:induction false} FollowPointsAreEnds(chain: Chain, unused: seq<Segment>, points: iset<Point>)
    requires chain.points != [] && Follow(chain, unused).Closed? && EndsIn(unused, points)
    requires forall p :: p in chain.points ==> p in points
    ensures forall p :: p in Follow(chain, unused).chain.points ==> p in points
    decreases |unused|
  {
    if !IsClosedChain(chain) {
      var i := FirstTouching(unused, Tail(chain));
      assert unused[i] in unused;
      WithoutKeepsMembers(unused, i);
      FollowPointsAreEnds(Extended(chain, unused[i]), Without(unused, i), points);
    }
  }

  lemma {:induction false} WalkPointsAreEnds(unused: seq<Segment>, points: iset<Point>)
    requires Walk(unused).Some? && EndsIn(unused, points)
    ensures forall c, p :: c in Walk(unused).value && p in c.points ==> p in points
    decreases |unused|
  {
    if unused != [] {
      var first, rest := unused[0], unused[1..];
      FollowShrinks(Begun(first), rest);
      FollowPointsAreEnds(Begun(first), rest, points);
      FollowLeavesMembers(Begun(first), rest);
      WalkPointsAreEnds(Follow(Begun(first), rest).left, points);
      WalkUnfolds(unused);
    }
  }

  lemma {:induction false} EndHasCrowd(segments: seq<Segment>, p: Point, q: Point)
    requires q in Ends(segments) && SamePoint(p, q)
    ensures Crowd(segments, p) > 0
  {
    var s :| s in segments && IsEnd(s, q);
    if s != segments[0] {
      assert s in segments[1..] && q in Ends(segments[1..]);
      EndHasCrowd(segments[1..], p, q);
    }
  }

  lemma NothingLeftNear(chain: Chain, left: seq<Segment>, p: Point, q: Point)
    requires Simple(chain, left) && p in chain.points && q in Ends(left)
    ensures !SamePoint(p, q)
  {
    if SamePoint(p, q) {
      EndHasCrowd(left, p, q);
    }
  }

  lemma LaterChainIsApart(chain: Chain, left: seq<Segment>, later: Chain)
    requires Simple(chain, left) && Walk(left).Some? && later in Walk(left).value
    ensures Apart(chain, later)
  {
    EndsAreEnds(left);
    WalkPointsAreEnds(left, Ends(left));
    forall p, q | p in chain.points && q in later.points ensures !SamePoint(p, q) {
      NothingLeftNear(chain, left, p, q);
    }
  }

  lemma FirstChainIsApart(chain: Chain, left: seq<Segment>)
    requires Simple(chain, left) && Walk(left).Some? && DisjointSimple(Walk(left).value)
    ensures DisjointSimple([chain] + Walk(left).value)
  {
    var others := Walk(left).value;
    var chains := [chain] + others;
    forall j | 0 < j < |chains| ensures chains[j] in others && Apart(chain, chains[j]) {
      assert chains[j] == others[j - 1];
      LaterChainIsApart(chain, left, chains[j]);
    }
    forall i, j | 0 < i < j < |chains| ensures Apart(chains[i], chains[j]) {
      assert Apart(others[i - 1], others[j - 1]);
    }
  }

  lemma FirstChainIsSimple(points: iset<Point>, unused: seq<Segment>)
    requires Transitive(points) && EndsIn(unused, points) && EveryCrowdIsTwo(points, unused) && unused != []
    requires Follow(Begun(unused[0]), unused[1..]).Closed?
    ensures var followed := Follow(Begun(unused[0]), unused[1..]);
            Simple(followed.chain, followed.left) && EveryCrowdIsTwo(points, followed.left)
  {
    var chain, rest := Begun(unused[0]), unused[1..];
    assert unused[0] in unused;
    forall p | p in points ensures Load(chain, rest, p) == 0 || Load(chain, rest, p) == 2 {
      BegunLoad(unused, p);
    }
    FollowIsSimple(points, chain, rest);
  }

  lemma {:induction false} WalkIsSimple(points: iset<Point>, unused: seq<Segment>)
    requires Transitive(points) && EndsIn(unused, points) && EveryCrowdIsTwo(points, unused)
    ensures Walk(unused).Some? && DisjointSimple(Walk(unused).value)
    decreases |unused|
  {
    WalkParity(points, unused) by { assert EveryCrowdIsEven(points, unused); }
    if unused != [] {
      var chain, rest := Begun(unused[0]), unused[1..];
      var followed := Follow(chain, rest);
      FirstChainIsSimple(points, unused);
      FollowShrinks(chain, rest);
      FollowLeavesMembers(chain, rest);
      WalkIsSimple(points, followed.left);
      FirstChainIsApart(followed.chain, followed.left);
      WalkUnfolds(unused);
    }
  }

  /** Where tolerance and rounding agree, an outline that passes the closure test is walked through
      every segment exactly once, in closed chains that visit no point twice and share no point. */
  lemma ClosedOutlineIsWalked(segments: seq<Segment>)
    requires EveryDegreeIsTwo(segments) && Separated(segments)
    ensures Walk(segments).Some?
    ensures EdgesOf(Walk(segments).value) == multiset(segments)
    ensures forall c :: c in Walk(segments).value ==> IsLoop(c)
    ensures DisjointSimple(Walk(segments).value)
  {
    var ends := Ends(segments);
    EndsAreEnds(segments);
    AgreementIsTransitive(ends);
    forall p | p in ends ensures Crowd(segments, p) == 0 || Crowd(segments, p) == 2 {
      CrowdIsDegree(ends, segments, p);
    }
    WalkIsSimple(ends, segments);
    WalkCoversEverySegment(segments);
  }

  // ------------------------------------------------------------------ the area that comes out

  lemma {:induction false} InsertedSum(area: real, areas: seq<real>)
    ensures Sum(Inserted(area, areas)) == area + Sum(areas)
    ensures multiset(Inserted(area, areas)) == multiset([area] + areas)
  {
    if areas != [] && area < areas[0] {
      InsertedSum(area, areas[1..]);
      assert areas == [areas[0]] + areas[1..];
      assert [area] + areas == [area] + [areas[0]] + areas[1..];
    }
  }

  lemma {:induction false} SortedIsPermutation(areas: seq<real>)
    ensures Sum(SortedDescending(areas)) == Sum(areas)
    ensures multiset(SortedDescending(areas)) == multiset(areas)
  {
    if areas != [] {
      SortedIsPermutation(areas[1..]);
      InsertedSum(areas[0], SortedDescending(areas[1..]));
      assert areas == [areas[0]] + areas[1..];
    }
  }

  ghost predicate Descending(areas: seq<real>) {
    forall i, j :: 0 <= i < j < |areas| ==> areas[i] >= areas[j]
  }

  lemma {:induction false} InsertedDescending(area: real, areas: seq<real>)
    requires Descending(areas)
    ensures Descending(Inserted(area, areas))
    ensures forall a :: a in Inserted(area, areas) ==> a == area || a in areas
  {
    if areas != [] && area < areas[0] {
      InsertedDescending(area, areas[1..]);
      var rest := Inserted(area, areas[1..]);
      forall i | 0 <= i < |rest| ensures areas[0] >= rest[i] {
        assert rest[i] in rest;
      }
    }
  }

  lemma {:induction false} SortedIsDescending(areas: seq<real>)
    ensures Descending(SortedDescending(areas))
  {
    if areas != [] {
      SortedIsDescending(areas[1..]);
      InsertedDescending(areas[0], SortedDescending(areas[1..]));
    }
  }

  /** The net area is the largest less the sum of the others, and not below zero; there is
      none exactly when no area is larger than zero. */
  lemma NetAreaIsOuterLessHoles(areas: seq<real>, outer: real)
    requires outer in areas && forall a :: a in areas ==> 0.0 <= a <= outer
    ensures NetArea(areas).None? <==> outer == 0.0
    ensures outer > 0.0 ==> var net := outer - (Sum(areas) - outer);
                            NetArea(areas) == Some(if net < 0.0 then 0.0 else net)
  {
    var sorted := SortedDescending(areas);
    SortedIsPermutation(areas);
    SortedIsDescending(areas);
    assert outer in multiset(areas) && outer in sorted;
    assert sorted[0] in multiset(sorted) && sorted[0] in areas;
    var i :| 0 <= i < |sorted| && sorted[i] == outer;
    assert sorted[0] == outer;
  }

  lemma {:induction false} AreasAreNonNegative(chains: seq<Chain>)
    ensures forall a :: a in AreasOf(chains) ==> 0.0 <= a
  {
    if chains != [] {
      AreasAreNonNegative(chains[1..]);
    }
  }

  /** What a walk without a dead end reports: the largest loop less all the others, and
      nothing only when no loop encloses an area. */
  lemma {:induction false} WalkedOutlineArea(segments: seq<Segment>, areas: seq<real>, outer: real)
    requires |segments| >= 3 && Walk(segments).Some? && areas == AreasOf(Walk(segments).value)
    requires outer in areas && forall a :: a in areas ==> a <= outer
    ensures OutlineArea(segments).None? <==> outer == 0.0
    ensures outer > 0.0 ==> var net := outer - (Sum(areas) - outer);
                            OutlineArea(segments) == Some(if net < 0.0 then 0.0 else net)
  {
    AreasAreNonNegative(Walk(segments).value);
    NetAreaIsOuterLessHoles(areas, outer);
  }
}
