/** The traversal program (src/kicad/schematic-graph.ts) and what it returns. */
module SheetTraversal {
  // Exactly the reachable sheets, nearest first, or the reason it threw.
  import opened Options
  import opened Collections
  import opened SchematicGraph
  import opened SheetReferences

  // ------------------------------------------------------------------ labels

  function LabelsOf(sheet: Sheet): set<string> {
    sheet.localLabels + sheet.globalLabels + sheet.hierarchicalLabels
  }

  function ConnectedPins(sheet: Sheet): set<string> {
    set pin | pin in sheet.pins && pin in sheet.hierarchicalLabels
  }

  /** A sheet shows its global labels, its connected pins, and at a root the rest. */
  function VisibleOf(roots: seq<File>, sheet: Sheet): set<string> {
    sheet.globalLabels + (if sheet.file in roots then sheet.localLabels + sheet.hierarchicalLabels else {})
    + ConnectedPins(sheet)
  }

  function AllLabels(sheets: seq<Sheet>): set<string> {
    if sheets == [] then {} else AllLabels(sheets[..|sheets| - 1]) + LabelsOf(sheets[|sheets| - 1])
  }

  function VisibleLabels(roots: seq<File>, sheets: seq<Sheet>): set<string> {
    if sheets == [] then {}
    else VisibleLabels(roots, sheets[..|sheets| - 1]) + VisibleOf(roots, sheets[|sheets| - 1])
  }

  /** Whatever is visible is a label of some sheet. */
  lemma {:induction false} VisibleLabelsAreLabels(roots: seq<File>, sheets: seq<Sheet>)
    ensures VisibleLabels(roots, sheets) <= AllLabels(sheets)
    decreases |sheets|
  {
    if sheets != [] {
      VisibleLabelsAreLabels(roots, sheets[..|sheets| - 1]);
    }
  }

  /** A global label, a connected pin, or any label of a root. */
  predicate Shows(roots: seq<File>, sheet: Sheet, name: string) {
    || name in sheet.globalLabels
    || (name in sheet.pins && name in sheet.hierarchicalLabels)
    || (sheet.file in roots && (name in sheet.localLabels || name in sheet.hierarchicalLabels))
  }

  predicate Labels(sheet: Sheet, name: string) {
    name in sheet.localLabels || name in sheet.globalLabels || name in sheet.hierarchicalLabels
  }

  /** A label is visible exactly when some sheet shows it. */
  lemma {:induction false} VisibleExactly(roots: seq<File>, sheets: seq<Sheet>, name: string)
    ensures name in VisibleLabels(roots, sheets) <==> exists s :: s in sheets && Shows(roots, s, name)
    decreases |sheets|
  {
    if sheets != [] {
      var front, last := sheets[..|sheets| - 1], sheets[|sheets| - 1];
      VisibleExactly(roots, front, name);
      assert (exists s :: s in sheets && Shows(roots, s, name))
        <==> (exists s :: s in front && Shows(roots, s, name)) || Shows(roots, last, name);
    }
  }

  lemma {:induction false} LabelsExactly(sheets: seq<Sheet>, name: string)
    ensures name in AllLabels(sheets) <==> exists s :: s in sheets && Labels(s, name)
    decreases |sheets|
  {
    if sheets != [] {
      var front, last := sheets[..|sheets| - 1], sheets[|sheets| - 1];
      LabelsExactly(front, name);
      assert (exists s :: s in sheets && Labels(s, name))
        <==> (exists s :: s in front && Labels(s, name)) || Labels(last, name);
    }
  }

  method AggregateLabels(roots: seq<File>, sheets: seq<Sheet>) returns (visible: set<string>, labels: set<string>)
    ensures visible == VisibleLabels(roots, sheets) && labels == AllLabels(sheets)
    ensures visible <= labels
  {
    visible, labels := {}, {};
    for i := 0 to |sheets|
      invariant visible == VisibleLabels(roots, sheets[..i]) && labels == AllLabels(sheets[..i])
    {
      var sheet := sheets[i];
      assert sheets[..i + 1][..i] == sheets[..i];
      labels := labels + sheet.localLabels;
      labels := labels + sheet.globalLabels;
      labels := labels + sheet.hierarchicalLabels;
      visible := visible + sheet.globalLabels;
      if sheet.file in roots {
        visible := visible + sheet.localLabels;
        visible := visible + sheet.hierarchicalLabels;
      }
      ghost var shown := visible;
      for k := 0 to |sheet.pins|
        invariant visible == shown + set pin | pin in sheet.pins[..k] && pin in sheet.hierarchicalLabels
      {
        assert sheet.pins[..k + 1] == sheet.pins[..k] + [sheet.pins[k]];
        if sheet.pins[k] in sheet.hierarchicalLabels {
          visible := visible + {sheet.pins[k]};
        }
      }
      assert sheet.pins[..|sheet.pins|] == sheet.pins;
    }
    assert sheets[..|sheets|] == sheets;
    VisibleLabelsAreLabels(roots, sheets);
  }

  // ------------------------------------------------------------------ the walk

  ghost predicate Holds(world: World, sheet: Sheet) {
    && CanRead(world, sheet.file)
    && sheet.localLabels == Contents(world, sheet.file).localLabels
    && sheet.globalLabels == Contents(world, sheet.file).globalLabels
    && sheet.hierarchicalLabels == Contents(world, sheet.file).hierarchicalLabels
  }

  function FilesOf(sheets: seq<Sheet>): set<File> { set s | s in sheets :: s.file }

  class Traversal {
    const world: World
    ghost const roots: seq<File>
    var queue: seq<Pending>
    var visited: set<File>
    var sheets: seq<Sheet>
    var missing: seq<MissingSheet>
    var unresolved: seq<UnresolvedPin>
    ghost var depths: seq<nat>
    ghost var queued: seq<nat>

    ghost predicate Recorded()
      reads this
    {
      && visited == FilesOf(sheets) && |visited| == |sheets|
      && (forall s :: s in sheets ==> Holds(world, s))
      && missing == MissingAmong(world, sheets) && unresolved == UnresolvedAmong(sheets)
    }

    ghost predicate Valid()
      reads this
    {
      && Recorded() && |sheets| <= MAX_SHEETS && Walking(world, roots, sheets, depths, queue, queued)
      && AllReferred(world, sheets) && AllWaitRight(world, queue)
    }

    constructor (world: World, normalized: seq<File>, ghost roots: seq<File>)
      requires SameFiles(roots, normalized)
      ensures Valid() && this.world == world && this.roots == roots && sheets == []
    {
      this.world, this.roots := world, roots;
      queue := seq(|normalized|, i requires 0 <= i < |normalized| => Pending(normalized[i], None, None, []));
      visited, sheets, missing, unresolved, depths := {}, [], [], [], [];
      queued := seq(|normalized|, _ => 0);
      new;
      StartIsWalking(world, roots, normalized, queue, queued);
    }

    method RecordPins(sheet: Sheet)
      modifies this`unresolved
      ensures unresolved == old(unresolved) + UnresolvedIn(sheet, sheet.pins)
    {
      for i := 0 to |sheet.pins|
        invariant unresolved == old(unresolved) + UnresolvedIn(sheet, sheet.pins[..i])
      {
        var pin := sheet.pins[i];
        assert sheet.pins[..i + 1][..i] == sheet.pins[..i];
        if pin !in sheet.hierarchicalLabels {
          unresolved := unresolved
            + [UnresolvedPin(if sheet.parent.Some? then sheet.parent.value else sheet.file, sheet.file, sheet.sheetName,
                             pin)];
        }
      }
      assert sheet.pins[..|sheet.pins|] == sheet.pins;
    }

    method FollowReferences(file: File, references: seq<Reference>)
      modifies this`queue, this`missing
      ensures queue == old(queue) + PendingIn(world, file, references)
      ensures missing == old(missing) + MissingIn(world, file, references)
    {
      for i := 0 to |references|
        invariant queue == old(queue) + PendingIn(world, file, references[..i])
        invariant missing == old(missing) + MissingIn(world, file, references[..i])
      {
        var r := references[i];
        assert references[..i + 1][..i] == references[..i];
        if r.resolved !in world {
          missing := missing + [MissingSheet(file, r.sheetName, r.fileName, r.resolved)];
        } else {
          queue := queue + [Pending(r.resolved, Some(file), r.sheetName, r.pins)];
        }
      }
      assert references[..|references|] == references;
    }

    /** Lists one sheet and puts the sheets it refers to in line. */
    method ProcessSheet(next: Pending)
      requires Recorded() && next.file !in visited && CanRead(world, next.file)
      modifies this`queue, this`visited, this`sheets, this`missing, this`unresolved
      ensures Recorded()
      ensures sheets == old(sheets) + [SheetOf(next.file, next, Contents(world, next.file))]
      ensures queue == old(queue) + PendingIn(world, next.file, Contents(world, next.file).references)
    {
      var parsed := Contents(world, next.file);
      var sheet := SheetOf(next.file, next, parsed);
      RecordedOneMore(sheets, sheet);
      visited := visited + {next.file};
      sheets := sheets + [sheet];
      RecordPins(sheet);
      FollowReferences(next.file, parsed.references);
      assert sheets[..|sheets| - 1] == old(sheets);
    }

    /** Takes the first in line off, and lists it unless it is listed; throws at the cap or if
        its document is too large. */
    method Advance() returns (failure: Option<Failure>)
      requires Valid() && queue != []
      modifies this
      ensures failure.None? ==> Valid()
      ensures failure.None? ==> |old(sheets)| < |sheets| || (|old(sheets)| == |sheets| && |queue| < |old(queue)|)
      ensures failure.Some? ==> IsTrueFailure(world, roots, failure.value)
    {
      var next := queue[0];
      ListedExactly(sheets, next.file);
      if next.file in visited {
        SkipStep(world, roots, sheets, depths, queue, queued);
        queue, queued := queue[1..], queued[1..];
        return None;
      }
      QueuedReaches(world, roots, sheets, depths, queue, queued, 0);
      ReachableExists(world, roots, next.file, queued[0]);
      if |visited| >= MAX_SHEETS {
        OneTooMany(world, roots, sheets, depths, queue, queued);
        return Some(TooManySheets);
      }
      if !CanRead(world, next.file) {
        return Some(TooLarge(next.file));
      }
      Visit();
      return None;
    }

    /** Lists the first in line. */
    method Visit()
      requires Valid() && queue != [] && queue[0].file !in visited && CanRead(world, queue[0].file)
      requires |sheets| < MAX_SHEETS
      modifies this
      ensures Valid() && |sheets| == |old(sheets)| + 1
    {
      var next := queue[0];
      ListedExactly(sheets, next.file);
      ghost var depth := queued[0];
      ghost var added := PendingIn(world, next.file, Contents(world, next.file).references);
      ghost var deeper := seq(|added|, _ => depth + 1);
      VisitStep(world, roots, sheets, depths, queue, queued, SheetOf(next.file, next, Contents(world, next.file)),
                added, deeper);
      StillReferred(world, sheets, queue);
      queue := queue[1..];
      ProcessSheet(next);
      depths, queued := depths + [depth], queued[1..] + deeper;
    }
  }

  ghost predicate IsTrueFailure(world: World, roots: seq<File>, failure: Failure) {
    match failure
    case TooManySheets => |Reachable(world, roots)| > MAX_SHEETS
    case TooLarge(file) => file in Reachable(world, roots) && !CanRead(world, file)
  }

  // ------------------------------------------------------------------ facts about the walk

  /** The same files, in any order and number. */
  ghost predicate SameFiles(a: seq<File>, b: seq<File>) { forall f :: f in a <==> f in b }

  /** One pending sheet for each root. */
  ghost predicate Starts(normalized: seq<File>, queue: seq<Pending>, queued: seq<nat>) {
    && |queue| == |queued| == |normalized|
    && forall i :: 0 <= i < |normalized| ==> queue[i] == Pending(normalized[i], None, None, []) && queued[i] == 0
  }

  lemma StartIsWalking(world: World, roots: seq<File>, normalized: seq<File>, queue: seq<Pending>, queued: seq<nat>)
    requires Starts(normalized, queue, queued) && SameFiles(roots, normalized)
    ensures Walking(world, roots, [], [], queue, queued)
  {
    StartLevels(normalized, queue, queued);
    StartRootsDue(roots, normalized, queue, queued);
    forall i: nat ensures QueuedRight(world, roots, [], [], queue, queued, i) {
      StartQueued(world, roots, normalized, queue, queued, i);
    }
  }

  lemma StartQueued(world: World, roots: seq<File>, normalized: seq<File>,
                    queue: seq<Pending>, queued: seq<nat>, i: nat)
    requires Starts(normalized, queue, queued) && SameFiles(roots, normalized)
    ensures QueuedRight(world, roots, [], [], queue, queued, i)
  {
    if i < |queue| {
      assert normalized[i] in normalized;
    }
  }

  lemma StartLevels(normalized: seq<File>, queue: seq<Pending>, queued: seq<nat>)
    requires Starts(normalized, queue, queued)
    ensures Levels([], queued)
  {
    assert [] + queued == queued;
  }

  lemma StartRootsDue(roots: seq<File>, normalized: seq<File>, queue: seq<Pending>, queued: seq<nat>)
    requires Starts(normalized, queue, queued) && SameFiles(roots, normalized)
    ensures RootsDue(roots, [], queue, queued)
  {
    forall root | root in roots ensures IsDue([], queue, queued, root, 0) {
      var k: nat :| k < |normalized| && normalized[k] == root;
      assert QueuedWithin(queue, queued, k, root, 0);
    }
  }

  lemma ListedExactly(sheets: seq<Sheet>, file: File)
    ensures Listed(sheets, file) <==> file in FilesOf(sheets)
  {
    if file in FilesOf(sheets) {
      var s :| s in sheets && s.file == file;
      var i :| 0 <= i < |sheets| && sheets[i] == s;
      assert sheets[i].file == file;
    }
    if Listed(sheets, file) {
      var i :| 0 <= i < |sheets| && sheets[i].file == file;
      assert sheets[i] in sheets;
    }
  }

  lemma RecordedOneMore(sheets: seq<Sheet>, sheet: Sheet)
    ensures FilesOf(sheets + [sheet]) == FilesOf(sheets) + {sheet.file}
    ensures forall s :: s in sheets + [sheet] <==> s in sheets || s == sheet
  {}

  lemma ListedAreReachable(world: World, roots: seq<File>, sheets: seq<Sheet>, depths: seq<nat>, queue: seq<Pending>,
                           queued: seq<nat>)
    requires Walking(world, roots, sheets, depths, queue, queued)
    ensures FilesOf(sheets) <= Reachable(world, roots)
  {
    forall file | file in FilesOf(sheets) ensures file in Reachable(world, roots) {
      ListedExactly(sheets, file);
      var i :| 0 <= i < |sheets| && sheets[i].file == file;
      assert ListedRight(world, roots, sheets, depths, i);
      ReachableExists(world, roots, file, depths[i]);
    }
  }

  lemma OneTooMany(world: World, roots: seq<File>, sheets: seq<Sheet>, depths: seq<nat>, queue: seq<Pending>,
                   queued: seq<nat>)
    requires Walking(world, roots, sheets, depths, queue, queued) && queue != []
    requires queue[0].file !in FilesOf(sheets) && |FilesOf(sheets)| >= MAX_SHEETS
    ensures |Reachable(world, roots)| > MAX_SHEETS
  {
    ListedAreReachable(world, roots, sheets, depths, queue, queued);
    QueuedReaches(world, roots, sheets, depths, queue, queued, 0);
    ReachableExists(world, roots, queue[0].file, queued[0]);
    SubsetSize(FilesOf(sheets) + {queue[0].file}, Reachable(world, roots));
  }

  // ------------------------------------------------------------------ the roots

  /** Some way to put paths in order. */
  ghost predicate Sorts(sort: seq<File> -> seq<File>) { forall s :: IsPermutation(s, sort(s)) }

  lemma SortedStaysDistinct(files: seq<File>, sorted: seq<File>)
    requires IsPermutation(files, sorted) && NoDuplicates(files)
    ensures NoDuplicates(sorted) && SameFiles(files, sorted)
  {
    SameMembers(files, sorted);
    PermutedDistinct(files, sorted, (f: File) => f);
  }

  lemma RootsAreReachable(world: World, roots: seq<File>)
    ensures (set r | r in roots) <= Reachable(world, roots)
  {
    forall root | root in roots ensures root in Reachable(world, roots) {
      RootReaches(world, roots, root);
      ReachableExists(world, roots, root, 0);
    }
  }

  // ------------------------------------------------------------------ what is returned

  /** Every reachable file once, nearest first, each under a file one step nearer that refers to
      it or as a root; nothing else. */
  ghost predicate IsBreadthFirst(world: World, roots: seq<File>, sheets: seq<Sheet>, depths: seq<nat>) {
    && |depths| == |sheets| == |Reachable(world, roots)|
    && FilesOf(sheets) == Reachable(world, roots)
    && Ordered(depths)
    && forall i: nat :: ListedRight(world, roots, sheets, depths, i)
  }

  ghost predicate IsRight(world: World, roots: seq<File>, outcome: Outcome) {
    match outcome
    case Threw(failure) => IsTrueFailure(world, roots, failure)
    case Built(graph) =>
      && |Reachable(world, roots)| <= MAX_SHEETS
      && (forall file :: file in Reachable(world, roots) ==> CanRead(world, file))
      && (exists depths :: IsBreadthFirst(world, roots, graph.sheets, depths))
      && (forall s :: s in graph.sheets ==> Holds(world, s) && IsReferred(world, s))
      && (forall u :: u in graph.unresolved <==> exists s :: s in graph.sheets && IsUnresolved(s, u))
      && NoDuplicates(graph.unresolved)
      && (forall m :: m in graph.missing <==> exists s :: s in graph.sheets && MissesFrom(world, s, m))
      && SameFiles(roots, graph.roots) && NoDuplicates(graph.roots)
      && graph.missing == MissingAmong(world, graph.sheets) && graph.unresolved == UnresolvedAmong(graph.sheets)
      && (forall name :: name in graph.visibleLabels <==> exists s :: s in graph.sheets && Shows(graph.roots, s, name))
      && (forall name :: name in graph.allLabels <==> exists s :: s in graph.sheets && Labels(s, name))
      && graph.visibleLabels <= graph.allLabels
  }

  lemma WalkedAll(world: World, roots: seq<File>, sheets: seq<Sheet>, depths: seq<nat>)
    requires Walking(world, roots, sheets, depths, [], []) && |FilesOf(sheets)| == |sheets|
    ensures IsBreadthFirst(world, roots, sheets, depths)
    ensures forall file :: file in Reachable(world, roots) ==> CanRead(world, file)
  {
    ListedAreReachable(world, roots, sheets, depths, [], []);
    forall file | file in Reachable(world, roots) ensures file in FilesOf(sheets) && CanRead(world, file) {
      var steps: nat :| ReachesIn(world, roots, file, steps);
      EmptyQueueMeansDone(world, roots, sheets, depths, file, steps);
      ListedExactly(sheets, file);
      var i :| 0 <= i < |sheets| && sheets[i].file == file;
      assert ListedRight(world, roots, sheets, depths, i);
    }
    assert FilesOf(sheets) == Reachable(world, roots);
    assert depths + [] == depths;
  }

  lemma ReportsAreExact(world: World, sheets: seq<Sheet>)
    ensures forall u :: u in UnresolvedAmong(sheets) <==> exists s :: s in sheets && IsUnresolved(s, u)
    ensures forall m :: m in MissingAmong(world, sheets) <==> exists s :: s in sheets && MissesFrom(world, s, m)
  {
    forall u ensures u in UnresolvedAmong(sheets) <==> exists s :: s in sheets && IsUnresolved(s, u) {
      UnresolvedMeans(sheets, u);
    }
    forall m ensures m in MissingAmong(world, sheets) <==> exists s :: s in sheets && MissesFrom(world, s, m) {
      MissingMeans(world, sheets, m);
    }
  }

  lemma LabelsAreExact(roots: seq<File>, sheets: seq<Sheet>)
    ensures forall name :: name in VisibleLabels(roots, sheets) <==> exists s :: s in sheets && Shows(roots, s, name)
    ensures forall name :: name in AllLabels(sheets) <==> exists s :: s in sheets && Labels(s, name)
  {
    forall name
      ensures name in VisibleLabels(roots, sheets) <==> exists s :: s in sheets && Shows(roots, s, name)
      ensures name in AllLabels(sheets) <==> exists s :: s in sheets && Labels(s, name)
    {
      VisibleExactly(roots, sheets, name);
      LabelsExactly(sheets, name);
    }
  }

  lemma ReportedOnce(world: World, roots: seq<File>, sheets: seq<Sheet>, depths: seq<nat>)
    requires IsBreadthFirst(world, roots, sheets, depths) && AllReferred(world, sheets)
    ensures NoDuplicates(UnresolvedAmong(sheets))
  {
    forall i, j | 0 <= i < j < |sheets| ensures sheets[i].file != sheets[j].file {
      assert ListedRight(world, roots, sheets, depths, j);
      assert sheets[..j][i].file == sheets[i].file;
    }
    forall s | s in sheets ensures NoDuplicates(s.pins) {
      assert IsReferred(world, s);
    }
    UnresolvedOnce(sheets);
  }

  /** The traversal from distinct roots. */
  method TraverseFrom(world: World, normalized: seq<File>, ghost roots: seq<File>) returns (outcome: Outcome)
    requires NoDuplicates(normalized) && SameFiles(roots, normalized)
    ensures IsRight(world, roots, outcome)
  {
    if |normalized| > MAX_SHEETS {
      NoDuplicatesSize(normalized);
      RootsAreReachable(world, roots);
      assert (set r | r in normalized) == (set r | r in roots);
      SubsetSize((set r | r in roots), Reachable(world, roots));
      return Threw(TooManySheets);
    }
    var walk := new Traversal(world, normalized, roots);
    while walk.queue != []
      invariant fresh(walk) && walk.Valid() && walk.world == world && walk.roots == roots
      decreases MAX_SHEETS - |walk.sheets|, |walk.queue|
    {
      var failure := walk.Advance();
      if failure.Some? {
        return Threw(failure.value);
      }
    }
    WalkedAll(world, roots, walk.sheets, walk.depths);
    ReportsAreExact(world, walk.sheets);
    ReportedOnce(world, roots, walk.sheets, walk.depths);
    LabelsAreExact(normalized, walk.sheets);
    var visible, labels := AggregateLabels(normalized, walk.sheets);
    outcome := Built(Graph(normalized, walk.sheets, visible, labels, walk.missing, walk.unresolved));
  }

  /** The graph of the sheets reachable from some root files; one is built exactly when at most
      the cap is reachable and all of it can be read. */
  method BuildSchematicNetGraph(world: World, rootFiles: seq<File>, sort: seq<File> -> seq<File>)
      returns (outcome: Outcome)
    requires Sorts(sort)
    ensures IsRight(world, rootFiles, outcome)
    ensures outcome.Built?
        <==> |Reachable(world, rootFiles)| <= 5000
             && forall file :: file in Reachable(world, rootFiles) ==> CanRead(world, file)
  {
    var normalized := sort(Distinct(rootFiles));
    DistinctIsDistinct(rootFiles);
    SortedStaysDistinct(Distinct(rootFiles), normalized);
    outcome := TraverseFrom(world, normalized, rootFiles);
  }
}
