/** Schematic hierarchy traversal (src/kicad/schematic-graph.ts): its invariant. */
module SchematicGraph {
  // A breadth-first walk over sheet references that may be cyclic, under a cap on the number of
  // sheets.
  import opened Options

  type File = string

  /** A reference to a sheet, with the path it resolves to from the file that makes it. */
  datatype Reference = Reference(fileName: string, resolved: File, sheetName: Option<string>, pins: seq<string>)

  datatype Parsed = Parsed(localLabels: set<string>, globalLabels: set<string>, hierarchicalLabels: set<string>,
                           references: seq<Reference>)

  datatype Source = Readable(parsed: Parsed) | Oversized

  /** The files that exist, and what parsing each of them gives; one that cannot be read counts
      as empty. */
  type World = map<File, Source>

  datatype Pending = Pending(file: File, parent: Option<File>, sheetName: Option<string>, pins: seq<string>)

  datatype Sheet = Sheet(file: File, parent: Option<File>, sheetName: Option<string>, pins: seq<string>,
                         localLabels: set<string>, globalLabels: set<string>, hierarchicalLabels: set<string>)

  datatype MissingSheet = MissingSheet(parent: File, sheetName: Option<string>, fileName: string, resolved: File)

  datatype UnresolvedPin = UnresolvedPin(parent: File, child: File, sheetName: Option<string>, pin: string)

  datatype Failure = TooManySheets | TooLarge(file: File)

  datatype Graph = Graph(roots: seq<File>, sheets: seq<Sheet>, visibleLabels: set<string>, allLabels: set<string>,
                         missing: seq<MissingSheet>, unresolved: seq<UnresolvedPin>)

  datatype Outcome = Built(graph: Graph) | Threw(failure: Failure)

  const MAX_SHEETS: nat := 5000

  // ------------------------------------------------------------------ reachability

  const NOTHING_PARSED := Parsed({}, {}, {}, [])

  predicate CanRead(world: World, file: File) { file in world ==> world[file].Readable? }

  /** What a file holds; a root that does not exist holds nothing. */
  function Contents(world: World, file: File): Parsed
    requires CanRead(world, file)
  {
    if file in world then world[file].parsed else NOTHING_PARSED
  }

  /** A file refers to another that exists. */
  predicate Links(world: World, from: File, to: File) {
    CanRead(world, from) && to in world && exists r :: r in Contents(world, from).references && r.resolved == to
  }

  ghost predicate IsPath(world: World, roots: seq<File>, path: seq<File>) {
    path != [] && path[0] in roots && forall i :: 0 <= i < |path| - 1 ==> Links(world, path[i], path[i + 1])
  }

  /** A path of `steps` references from a root. */
  ghost predicate ReachesIn(world: World, roots: seq<File>, file: File, steps: nat) {
    exists path :: IsPath(world, roots, path) && |path| == steps + 1 && path[steps] == file
  }

  ghost predicate IsReachable(world: World, roots: seq<File>, file: File) {
    exists steps: nat :: ReachesIn(world, roots, file, steps)
  }

  ghost function Reachable(world: World, roots: seq<File>): set<File> {
    set file | file in world.Keys + (set r | r in roots) && IsReachable(world, roots, file)
  }

  /** The length of a shortest path to a file. */
  ghost predicate IsDepth(world: World, roots: seq<File>, file: File, depth: nat) {
    ReachesIn(world, roots, file, depth) && forall steps: nat :: ReachesIn(world, roots, file, steps) ==> depth <= steps
  }

  lemma RootReaches(world: World, roots: seq<File>, root: File)
    requires root in roots
    ensures ReachesIn(world, roots, root, 0)
  {
    assert IsPath(world, roots, [root]);
  }

  lemma LinkReaches(world: World, roots: seq<File>, from: File, steps: nat, to: File)
    requires ReachesIn(world, roots, from, steps) && Links(world, from, to)
    ensures ReachesIn(world, roots, to, steps + 1)
  {
    var path :| IsPath(world, roots, path) && |path| == steps + 1 && path[steps] == from;
    var longer := path + [to];
    forall i | 0 <= i < |longer| - 1 ensures Links(world, longer[i], longer[i + 1]) {
      if i < |path| - 1 {
        assert Links(world, path[i], path[i + 1]);
      }
    }
    assert IsPath(world, roots, longer);
  }

  lemma PathReaches(world: World, roots: seq<File>, path: seq<File>, n: nat)
    requires IsPath(world, roots, path) && n < |path|
    ensures ReachesIn(world, roots, path[n], n)
  {
    assert IsPath(world, roots, path[..n + 1]);
  }

  lemma ReachableExists(world: World, roots: seq<File>, file: File, steps: nat)
    requires ReachesIn(world, roots, file, steps)
    ensures file in Reachable(world, roots)
  {
    var path :| IsPath(world, roots, path) && |path| == steps + 1 && path[steps] == file;
    if steps > 0 {
      assert Links(world, path[steps - 1], path[steps]);
    }
  }

  // ------------------------------------------------------------------ what one sheet adds

  function Distinct(pins: seq<string>): seq<string> {
    if pins == [] then []
    else
      var before, last := Distinct(pins[..|pins| - 1]), pins[|pins| - 1];
      if last in before then before else before + [last]
  }

  function SheetOf(file: File, next: Pending, parsed: Parsed): Sheet {
    Sheet(file, next.parent, next.sheetName, Distinct(next.pins), parsed.localLabels, parsed.globalLabels,
          parsed.hierarchicalLabels)
  }

  function UnresolvedIn(sheet: Sheet, pins: seq<string>): seq<UnresolvedPin> {
    if pins == [] then []
    else
      var pin := pins[|pins| - 1];
      UnresolvedIn(sheet, pins[..|pins| - 1])
      + (if pin in sheet.hierarchicalLabels then []
         else [UnresolvedPin(if sheet.parent.Some? then sheet.parent.value else sheet.file, sheet.file, sheet.sheetName,
                             pin)])
  }

  function PendingIn(world: World, file: File, references: seq<Reference>): seq<Pending> {
    if references == [] then []
    else
      var r := references[|references| - 1];
      PendingIn(world, file, references[..|references| - 1])
      + (if r.resolved in world then [Pending(r.resolved, Some(file), r.sheetName, r.pins)] else [])
  }

  function MissingIn(world: World, file: File, references: seq<Reference>): seq<MissingSheet> {
    if references == [] then []
    else
      var r := references[|references| - 1];
      MissingIn(world, file, references[..|references| - 1])
      + (if r.resolved in world then [] else [MissingSheet(file, r.sheetName, r.fileName, r.resolved)])
  }

  /** What is missing or unresolved, sheet by sheet. */
  function MissingAmong(world: World, sheets: seq<Sheet>): seq<MissingSheet> {
    if sheets == [] then []
    else
      var file := sheets[|sheets| - 1].file;
      MissingAmong(world, sheets[..|sheets| - 1])
      + (if CanRead(world, file) then MissingIn(world, file, Contents(world, file).references) else [])
  }

  function UnresolvedAmong(sheets: seq<Sheet>): seq<UnresolvedPin> {
    if sheets == [] then []
    else
      var sheet := sheets[|sheets| - 1];
      UnresolvedAmong(sheets[..|sheets| - 1]) + UnresolvedIn(sheet, sheet.pins)
  }

  lemma {:induction false} PendingAreLinked(world: World, file: File, references: seq<Reference>)
    requires CanRead(world, file)
    requires forall r :: r in references ==> r in Contents(world, file).references
    ensures forall p :: p in PendingIn(world, file, references) ==> p.parent == Some(file) && Links(world, file, p.file)
    decreases |references|
  {
    if references != [] {
      PendingAreLinked(world, file, references[..|references| - 1]);
    }
  }

  lemma {:induction false} LinksArePending(world: World, file: File, references: seq<Reference>, to: File)
    requires to in world && exists r :: r in references && r.resolved == to
    ensures exists k :: 0 <= k < |PendingIn(world, file, references)|
                    && PendingIn(world, file, references)[k].file == to
    decreases |references|
  {
    var front, last := references[..|references| - 1], references[|references| - 1];
    var pending := PendingIn(world, file, references);
    if last.resolved == to {
      assert pending[|pending| - 1].file == to;
    } else {
      LinksArePending(world, file, front, to);
      var k :| 0 <= k < |PendingIn(world, file, front)| && PendingIn(world, file, front)[k].file == to;
      assert pending[k].file == to;
    }
  }

  // ------------------------------------------------------------------ the invariant of the walk

  predicate Listed(sheets: seq<Sheet>, file: File) { exists i :: 0 <= i < |sheets| && sheets[i].file == file }

  predicate Ordered(depths: seq<nat>) { forall i, j :: 0 <= i < j < |depths| ==> depths[i] <= depths[j] }

  /** A sheet listed one level above a depth. */
  predicate ListedAbove(sheets: seq<Sheet>, depths: seq<nat>, k: nat, file: File, depth: nat)
    requires |sheets| == |depths|
  {
    k < |sheets| && sheets[k].file == file && depths[k] + 1 == depth
  }

  /** A file was reached from a root, or from a sheet listed one level up. */
  ghost predicate ComesFrom(world: World, roots: seq<File>, sheets: seq<Sheet>, depths: seq<nat>, file: File,
                      parent: Option<File>, depth: nat)
    requires |sheets| == |depths|
  {
    match parent
    case None => file in roots && depth == 0
    case Some(p) => Links(world, p, file) && exists k: nat :: ListedAbove(sheets, depths, k, p, depth)
  }

  ghost predicate QueuedWithin(queue: seq<Pending>, queued: seq<nat>, k: nat, file: File, depth: nat)
    requires |queue| == |queued|
  {
    k < |queue| && queue[k].file == file && queued[k] <= depth
  }

  /** A file is listed, or waits at a depth no greater than this. */
  ghost predicate IsDue(sheets: seq<Sheet>, queue: seq<Pending>, queued: seq<nat>, file: File, depth: nat)
    requires |queue| == |queued|
  {
    Listed(sheets, file) || exists k: nat :: QueuedWithin(queue, queued, k, file, depth)
  }

  ghost predicate ListedRight(world: World, roots: seq<File>, sheets: seq<Sheet>, depths: seq<nat>, i: nat)
    requires |sheets| == |depths|
  {
    i < |sheets| ==>
      && CanRead(world, sheets[i].file)
      && IsDepth(world, roots, sheets[i].file, depths[i])
      && ComesFrom(world, roots, sheets, depths, sheets[i].file, sheets[i].parent, depths[i])
      && !Listed(sheets[..i], sheets[i].file)
  }

  ghost predicate QueuedRight(world: World, roots: seq<File>, sheets: seq<Sheet>, depths: seq<nat>, queue: seq<Pending>,
                        queued: seq<nat>, i: nat)
    requires |sheets| == |depths| && |queue| == |queued|
  {
    i < |queue| ==> ComesFrom(world, roots, sheets, depths, queue[i].file, queue[i].parent, queued[i])
  }

  ghost predicate LinksDue(world: World, sheets: seq<Sheet>, depths: seq<nat>, queue: seq<Pending>,
                           queued: seq<nat>, i: nat)
    requires |sheets| == |depths| && |queue| == |queued|
  {
    i < |sheets| ==>
      forall to :: Links(world, sheets[i].file, to) ==> IsDue(sheets, queue, queued, to, depths[i] + 1)
  }

  ghost predicate RootsDue(roots: seq<File>, sheets: seq<Sheet>, queue: seq<Pending>, queued: seq<nat>)
    requires |queue| == |queued|
  {
    forall root :: root in roots ==> IsDue(sheets, queue, queued, root, 0)
  }

  /** The queue holds at most two levels, in order. */
  predicate Levels(depths: seq<nat>, queued: seq<nat>) {
    Ordered(depths + queued) && (queued != [] ==> queued[|queued| - 1] <= queued[0] + 1)
  }

  ghost predicate Walking(world: World, roots: seq<File>, sheets: seq<Sheet>, depths: seq<nat>, queue: seq<Pending>,
                          queued: seq<nat>)
  {
    && |sheets| == |depths| && |queue| == |queued|
    && Levels(depths, queued)
    && (forall i: nat :: ListedRight(world, roots, sheets, depths, i))
    && (forall i: nat :: QueuedRight(world, roots, sheets, depths, queue, queued, i))
    && (forall i: nat :: LinksDue(world, sheets, depths, queue, queued, i))
    && RootsDue(roots, sheets, queue, queued)
  }

  // ------------------------------------------------------------------ why the first in line is nearest

  /** No path to an unlisted file is shorter than the depth of the first in line. */
  lemma {:induction false} HeadIsNearest(world: World, roots: seq<File>, sheets: seq<Sheet>, depths: seq<nat>,
                                         queue: seq<Pending>, queued: seq<nat>, path: seq<File>)
    requires Walking(world, roots, sheets, depths, queue, queued)
    requires IsPath(world, roots, path) && !Listed(sheets, path[|path| - 1])
    ensures queue != [] && queued[0] <= |path| - 1
    decreases |path|
  {
    var n := |path| - 1;
    if n == 0 {
      assert IsDue(sheets, queue, queued, path[0], 0);
      var k: nat :| QueuedWithin(queue, queued, k, path[0], 0);
      HeadIsLeast(depths, queued, k);
    } else {
      var before := path[..n];
      assert IsPath(world, roots, before) && before[|before| - 1] == path[n - 1];
      if !Listed(sheets, path[n - 1]) {
        HeadIsNearest(world, roots, sheets, depths, queue, queued, before);
      } else {
        var i :| 0 <= i < |sheets| && sheets[i].file == path[n - 1];
        assert ListedRight(world, roots, sheets, depths, i);
        PathReaches(world, roots, path, n - 1);
        assert LinksDue(world, sheets, depths, queue, queued, i);
        assert Links(world, path[n - 1], path[n - 1 + 1]);
        assert IsDue(sheets, queue, queued, path[n], depths[i] + 1);
        var k: nat :| QueuedWithin(queue, queued, k, path[n], depths[i] + 1);
        HeadIsLeast(depths, queued, k);
      }
    }
  }

  lemma HeadIsLeast(depths: seq<nat>, queued: seq<nat>, k: nat)
    requires Levels(depths, queued) && k < |queued|
    ensures queued[0] <= queued[k]
  {
    assert (depths + queued)[|depths|] == queued[0] && (depths + queued)[|depths| + k] == queued[k];
  }

  lemma QueuedReaches(world: World, roots: seq<File>, sheets: seq<Sheet>, depths: seq<nat>, queue: seq<Pending>,
                      queued: seq<nat>, i: nat)
    requires Walking(world, roots, sheets, depths, queue, queued) && i < |queue|
    ensures ReachesIn(world, roots, queue[i].file, queued[i])
  {
    assert QueuedRight(world, roots, sheets, depths, queue, queued, i);
    match queue[i].parent {
      case None => RootReaches(world, roots, queue[i].file);
      case Some(p) =>
        var k: nat :| ListedAbove(sheets, depths, k, p, queued[i]);
        assert ListedRight(world, roots, sheets, depths, k);
        LinkReaches(world, roots, p, queued[i] - 1, queue[i].file);
    }
  }

  /** The first in line, when not yet listed, waits at its depth. */
  lemma HeadIsAtItsDepth(world: World, roots: seq<File>, sheets: seq<Sheet>, depths: seq<nat>, queue: seq<Pending>,
                         queued: seq<nat>)
    requires Walking(world, roots, sheets, depths, queue, queued) && queue != [] && !Listed(sheets, queue[0].file)
    ensures IsDepth(world, roots, queue[0].file, queued[0])
  {
    QueuedReaches(world, roots, sheets, depths, queue, queued, 0);
    forall steps: nat | ReachesIn(world, roots, queue[0].file, steps) ensures queued[0] <= steps {
      var path :| IsPath(world, roots, path) && |path| == steps + 1 && path[steps] == queue[0].file;
      HeadIsNearest(world, roots, sheets, depths, queue, queued, path);
    }
  }

  /** With nothing in line, every reachable file is listed. */
  lemma EmptyQueueMeansDone(world: World, roots: seq<File>, sheets: seq<Sheet>, depths: seq<nat>,
                            file: File, steps: nat)
    requires Walking(world, roots, sheets, depths, [], []) && ReachesIn(world, roots, file, steps)
    ensures Listed(sheets, file)
  {
    if !Listed(sheets, file) {
      var path :| IsPath(world, roots, path) && |path| == steps + 1 && path[steps] == file;
      HeadIsNearest(world, roots, sheets, depths, [], [], path);
    }
  }

  // ------------------------------------------------------------------ one step of the walk

  lemma StillDue(sheets: seq<Sheet>, queue: seq<Pending>, queued: seq<nat>, more: seq<Sheet>, added: seq<Pending>,
                 deeper: seq<nat>, file: File, depth: nat)
    requires |queue| == |queued| && |added| == |deeper| && queue != []
    requires IsDue(sheets, queue, queued, file, depth) && Listed(sheets + more, queue[0].file)
    ensures IsDue(sheets + more, queue[1..] + added, queued[1..] + deeper, file, depth)
  {
    if Listed(sheets, file) {
      var i :| 0 <= i < |sheets| && sheets[i].file == file;
      assert (sheets + more)[i].file == file;
    } else {
      var k: nat :| QueuedWithin(queue, queued, k, file, depth);
      assert k > 0 ==> QueuedWithin(queue[1..] + added, queued[1..] + deeper, k - 1, file, depth);
    }
  }

  lemma StillComesFrom(world: World, roots: seq<File>, sheets: seq<Sheet>, depths: seq<nat>, more: seq<Sheet>,
                       levels: seq<nat>, file: File, parent: Option<File>, depth: nat)
    requires |sheets| == |depths| && |more| == |levels|
    requires ComesFrom(world, roots, sheets, depths, file, parent, depth)
    ensures ComesFrom(world, roots, sheets + more, depths + levels, file, parent, depth)
  {
    if parent.Some? {
      var k: nat :| ListedAbove(sheets, depths, k, parent.value, depth);
      assert ListedAbove(sheets + more, depths + levels, k, parent.value, depth);
    }
  }

  /** What was right stays right when the first in line is listed, or was already. */
  lemma StillWalking(world: World, roots: seq<File>, sheets: seq<Sheet>, depths: seq<nat>, queue: seq<Pending>,
                     queued: seq<nat>, more: seq<Sheet>, levels: seq<nat>, added: seq<Pending>, deeper: seq<nat>)
    requires Walking(world, roots, sheets, depths, queue, queued) && queue != []
    requires |more| == |levels| && |added| == |deeper| && Listed(sheets + more, queue[0].file)
    ensures forall i: nat :: i < |sheets| ==> ListedRight(world, roots, sheets + more, depths + levels, i)
    ensures forall i: nat :: i < |queue| - 1 ==>
              QueuedRight(world, roots, sheets + more, depths + levels, queue[1..] + added, queued[1..] + deeper, i)
    ensures forall i: nat :: i < |sheets| ==>
              LinksDue(world, sheets + more, depths + levels, queue[1..] + added, queued[1..] + deeper, i)
    ensures RootsDue(roots, sheets + more, queue[1..] + added, queued[1..] + deeper)
  {
    forall i: nat | i < |sheets| ensures ListedRight(world, roots, sheets + more, depths + levels, i) {
      assert ListedRight(world, roots, sheets, depths, i);
      StillComesFrom(world, roots, sheets, depths, more, levels, sheets[i].file, sheets[i].parent, depths[i]);
      assert (sheets + more)[..i] == sheets[..i];
    }
    forall i: nat | i < |queue| - 1
      ensures QueuedRight(world, roots, sheets + more, depths + levels, queue[1..] + added, queued[1..] + deeper, i)
    {
      assert QueuedRight(world, roots, sheets, depths, queue, queued, i + 1);
      StillComesFrom(world, roots, sheets, depths, more, levels, queue[i + 1].file, queue[i + 1].parent, queued[i + 1]);
    }
    forall i: nat | i < |sheets|
      ensures LinksDue(world, sheets + more, depths + levels, queue[1..] + added, queued[1..] + deeper, i)
    {
      LinksStillDue(world, sheets, depths, queue, queued, more, levels, added, deeper, i);
    }
    forall root | root in roots ensures IsDue(sheets + more, queue[1..] + added, queued[1..] + deeper, root, 0) {
      StillDue(sheets, queue, queued, more, added, deeper, root, 0);
    }
  }

  lemma LinksStillDue(world: World, sheets: seq<Sheet>, depths: seq<nat>, queue: seq<Pending>, queued: seq<nat>,
                      more: seq<Sheet>, levels: seq<nat>, added: seq<Pending>, deeper: seq<nat>, i: nat)
    requires |sheets| == |depths| && |queue| == |queued| && |more| == |levels| && |added| == |deeper|
    requires queue != [] && i < |sheets| && Listed(sheets + more, queue[0].file)
    requires LinksDue(world, sheets, depths, queue, queued, i)
    ensures LinksDue(world, sheets + more, depths + levels, queue[1..] + added, queued[1..] + deeper, i)
  {
    forall to | Links(world, sheets[i].file, to)
      ensures IsDue(sheets + more, queue[1..] + added, queued[1..] + deeper, to, depths[i] + 1)
    {
      StillDue(sheets, queue, queued, more, added, deeper, to, depths[i] + 1);
    }
  }

  lemma SkipStep(world: World, roots: seq<File>, sheets: seq<Sheet>, depths: seq<nat>, queue: seq<Pending>,
                 queued: seq<nat>)
    requires Walking(world, roots, sheets, depths, queue, queued) && queue != [] && Listed(sheets, queue[0].file)
    ensures Walking(world, roots, sheets, depths, queue[1..], queued[1..])
  {
    assert sheets + [] == sheets && depths + [] == depths && queue[1..] + [] == queue[1..]
        && queued[1..] + [] == queued[1..];
    StillWalking(world, roots, sheets, depths, queue, queued, [], [], [], []);
    LevelsStep(depths, queued, [], []);
  }

  lemma LevelsStep(depths: seq<nat>, queued: seq<nat>, levels: seq<nat>, deeper: seq<nat>)
    requires Levels(depths, queued) && queued != []
    requires levels == [] || levels == [queued[0]]
    requires forall k :: 0 <= k < |deeper| ==> deeper[k] == queued[0] + 1
    ensures Levels(depths + levels, queued[1..] + deeper)
  {
    var rest := queued[1..] + deeper;
    var before, after := depths + queued, depths + levels + rest;
    var cut := |depths| + |levels|;
    forall i | 0 <= i < |rest| ensures queued[0] <= rest[i] <= queued[0] + 1 {
      if i < |queued| - 1 {
        assert rest[i] == queued[i + 1];
        assert before[|depths|] == queued[0] && before[|depths| + i + 1] == queued[i + 1];
        assert before[|before| - 1] == queued[|queued| - 1];
      }
    }
    forall i, j | 0 <= i < j < |after| ensures after[i] <= after[j] {
      assert after[i] == if i < |depths| then before[i] else if i < cut then queued[0]
                         else if i < cut + |queued| - 1 then before[i - |levels| + 1] else queued[0] + 1;
      assert after[j] == if j < |depths| then before[j] else if j < cut then queued[0]
                         else if j < cut + |queued| - 1 then before[j - |levels| + 1] else queued[0] + 1;
      assert before[|depths|] == queued[0];
    }
  }

  /** What listing the first in line does to the walk's state. */
  ghost predicate Visits(world: World, queue: seq<Pending>, queued: seq<nat>, sheet: Sheet, added: seq<Pending>,
                         deeper: seq<nat>)
  {
    && queue != [] && queued != [] && CanRead(world, queue[0].file)
    && sheet.file == queue[0].file && sheet.parent == queue[0].parent
    && added == PendingIn(world, sheet.file, Contents(world, sheet.file).references)
    && |deeper| == |added| && (forall k :: 0 <= k < |deeper| ==> deeper[k] == queued[0] + 1)
  }

  lemma ListStaysRight(world: World, roots: seq<File>, sheets: seq<Sheet>, depths: seq<nat>, queue: seq<Pending>,
                       queued: seq<nat>, sheet: Sheet, added: seq<Pending>, deeper: seq<nat>, i: nat)
    requires Walking(world, roots, sheets, depths, queue, queued) && Visits(world, queue, queued, sheet, added, deeper)
    requires !Listed(sheets, queue[0].file)
    ensures ListedRight(world, roots, sheets + [sheet], depths + [queued[0]], i)
    ensures LinksDue(world, sheets + [sheet], depths + [queued[0]], queue[1..] + added, queued[1..] + deeper, i)
  {
    assert (sheets + [sheet])[|sheets|].file == queue[0].file;
    if i < |sheets| {
      StillWalking(world, roots, sheets, depths, queue, queued, [sheet], [queued[0]], added, deeper);
    } else if i == |sheets| {
      NewSheetIsRight(world, roots, sheets, depths, queue, queued, sheet);
      NewLinksAreDue(world, sheets, depths, queue, queued, sheet, added, deeper);
    }
  }

  lemma QueueStaysRight(world: World, roots: seq<File>, sheets: seq<Sheet>, depths: seq<nat>, queue: seq<Pending>,
                        queued: seq<nat>, sheet: Sheet, added: seq<Pending>, deeper: seq<nat>, i: nat)
    requires Walking(world, roots, sheets, depths, queue, queued) && Visits(world, queue, queued, sheet, added, deeper)
    ensures QueuedRight(world, roots, sheets + [sheet], depths + [queued[0]], queue[1..] + added,
                        queued[1..] + deeper, i)
    ensures RootsDue(roots, sheets + [sheet], queue[1..] + added, queued[1..] + deeper)
  {
    assert (sheets + [sheet])[|sheets|].file == queue[0].file;
    StillWalking(world, roots, sheets, depths, queue, queued, [sheet], [queued[0]], added, deeper);
    if |queue| - 1 <= i < |queue| - 1 + |added| {
      NewPendingIsRight(world, roots, sheets, depths, queued[0], sheet, added, i - (|queue| - 1));
    }
  }

  /** The walk after listing the first in line. */
  lemma VisitStep(world: World, roots: seq<File>, sheets: seq<Sheet>, depths: seq<nat>, queue: seq<Pending>,
                  queued: seq<nat>, sheet: Sheet, added: seq<Pending>, deeper: seq<nat>)
    requires Walking(world, roots, sheets, depths, queue, queued) && Visits(world, queue, queued, sheet, added, deeper)
    requires !Listed(sheets, queue[0].file)
    ensures Walking(world, roots, sheets + [sheet], depths + [queued[0]], queue[1..] + added, queued[1..] + deeper)
  {
    LevelsStep(depths, queued, [queued[0]], deeper);
    forall i: nat ensures
      && ListedRight(world, roots, sheets + [sheet], depths + [queued[0]], i)
      && LinksDue(world, sheets + [sheet], depths + [queued[0]], queue[1..] + added, queued[1..] + deeper, i)
    {
      ListStaysRight(world, roots, sheets, depths, queue, queued, sheet, added, deeper, i);
    }
    forall i: nat
      ensures QueuedRight(world, roots, sheets + [sheet], depths + [queued[0]], queue[1..] + added,
                          queued[1..] + deeper, i)
    {
      QueueStaysRight(world, roots, sheets, depths, queue, queued, sheet, added, deeper, i);
    }
    QueueStaysRight(world, roots, sheets, depths, queue, queued, sheet, added, deeper, 0);
  }

  lemma NewPendingIsRight(world: World, roots: seq<File>, sheets: seq<Sheet>, depths: seq<nat>,
                          depth: nat, sheet: Sheet, added: seq<Pending>, k: nat)
    requires |sheets| == |depths| && CanRead(world, sheet.file) && k < |added|
    requires added == PendingIn(world, sheet.file, Contents(world, sheet.file).references)
    ensures ComesFrom(world, roots, sheets + [sheet], depths + [depth], added[k].file, added[k].parent, depth + 1)
  {
    PendingAreLinked(world, sheet.file, Contents(world, sheet.file).references);
    assert added[k] in added;
    assert ListedAbove(sheets + [sheet], depths + [depth], |sheets|, sheet.file, depth + 1);
  }

  lemma NewSheetIsRight(world: World, roots: seq<File>, sheets: seq<Sheet>, depths: seq<nat>, queue: seq<Pending>,
                        queued: seq<nat>, sheet: Sheet)
    requires Walking(world, roots, sheets, depths, queue, queued) && queue != [] && !Listed(sheets, queue[0].file)
    requires CanRead(world, queue[0].file) && sheet.file == queue[0].file && sheet.parent == queue[0].parent
    ensures ListedRight(world, roots, sheets + [sheet], depths + [queued[0]], |sheets|)
  {
    HeadIsAtItsDepth(world, roots, sheets, depths, queue, queued);
    assert QueuedRight(world, roots, sheets, depths, queue, queued, 0);
    StillComesFrom(world, roots, sheets, depths, [sheet], [queued[0]], sheet.file, sheet.parent, queued[0]);
    assert (sheets + [sheet])[..|sheets|] == sheets;
  }

  lemma NewLinksAreDue(world: World, sheets: seq<Sheet>, depths: seq<nat>, queue: seq<Pending>, queued: seq<nat>,
                       sheet: Sheet, added: seq<Pending>, deeper: seq<nat>)
    requires |sheets| == |depths| && |queue| == |queued| && queue != [] && |added| == |deeper|
    requires CanRead(world, sheet.file)
    requires added == PendingIn(world, sheet.file, Contents(world, sheet.file).references)
    requires forall k :: 0 <= k < |deeper| ==> deeper[k] == queued[0] + 1
    ensures LinksDue(world, sheets + [sheet], depths + [queued[0]], queue[1..] + added, queued[1..] + deeper, |sheets|)
  {
    forall to | Links(world, sheet.file, to)
      ensures IsDue(sheets + [sheet], queue[1..] + added, queued[1..] + deeper, to, queued[0] + 1)
    {
      LinksArePending(world, sheet.file, Contents(world, sheet.file).references, to);
      var k :| 0 <= k < |added| && added[k].file == to;
      assert QueuedWithin(queue[1..] + added, queued[1..] + deeper, |queue| - 1 + k, to, queued[0] + 1);
    }
  }
}
