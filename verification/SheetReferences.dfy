/** What a listed sheet takes from the reference to it (src/kicad/schematic-graph.ts). */
module SheetReferences {
  // Its name and pins are those of a reference in its parent, and what is reported as missing or
  // unresolved is exactly what the listed sheets and their references say.
  import opened Collections
  import opened Options
  import opened SchematicGraph

  predicate Refers(world: World, from: File, reference: Reference) {
    CanRead(world, from) && reference in Contents(world, from).references
  }

  /** The same pins, each once. */
  ghost predicate IsOnceOf(pins: seq<string>, every: seq<string>) {
    NoDuplicates(pins) && forall pin :: pin in pins <==> pin in every
  }

  predicate MatchesPending(reference: Reference, next: Pending) {
    reference.resolved == next.file && reference.sheetName == next.sheetName && reference.pins == next.pins
  }

  ghost predicate MatchesSheet(reference: Reference, sheet: Sheet) {
    reference.resolved == sheet.file && reference.sheetName == sheet.sheetName && IsOnceOf(sheet.pins, reference.pins)
  }

  /** A sheet in line has the name and the pins of a reference in its parent; a root has neither. */
  ghost predicate WaitsRight(world: World, next: Pending) {
    match next.parent
    case None => next.sheetName.None? && next.pins == []
    case Some(parent) => exists r :: Refers(world, parent, r) && MatchesPending(r, next)
  }

  /** And so has a listed sheet, each pin once. */
  ghost predicate IsReferred(world: World, sheet: Sheet) {
    match sheet.parent
    case None => sheet.sheetName.None? && sheet.pins == []
    case Some(parent) => exists r :: Refers(world, parent, r) && MatchesSheet(r, sheet)
  }

  ghost predicate AllWaitRight(world: World, queue: seq<Pending>) { forall p :: p in queue ==> WaitsRight(world, p) }

  ghost predicate AllReferred(world: World, sheets: seq<Sheet>) { forall s :: s in sheets ==> IsReferred(world, s) }

  lemma {:induction false} DistinctIsDistinct(files: seq<File>)
    ensures NoDuplicates(Distinct(files)) && forall f :: f in Distinct(files) <==> f in files
    decreases |files|
  {
    if files != [] {
      var front, last := files[..|files| - 1], files[|files| - 1];
      DistinctIsDistinct(front);
      assert forall f :: f in files <==> f in front || f == last;
    }
  }

  lemma {:induction false} PendingWaitRight(world: World, file: File, references: seq<Reference>)
    requires forall r :: r in references ==> Refers(world, file, r)
    ensures AllWaitRight(world, PendingIn(world, file, references))
    decreases |references|
  {
    if references != [] {
      var front, r := references[..|references| - 1], references[|references| - 1];
      PendingWaitRight(world, file, front);
      if r.resolved in world {
        assert MatchesPending(r, Pending(r.resolved, Some(file), r.sheetName, r.pins)) && Refers(world, file, r);
      }
    }
  }

  lemma ListedStaysReferred(world: World, next: Pending, parsed: Parsed)
    requires WaitsRight(world, next)
    ensures IsReferred(world, SheetOf(next.file, next, parsed))
  {
    DistinctIsDistinct(next.pins);
    if next.parent.Some? {
      var r :| Refers(world, next.parent.value, r) && MatchesPending(r, next);
      assert MatchesSheet(r, SheetOf(next.file, next, parsed));
    }
  }

  /** Listing the first in line keeps the names and pins right. */
  lemma StillReferred(world: World, sheets: seq<Sheet>, queue: seq<Pending>)
    requires AllReferred(world, sheets) && AllWaitRight(world, queue) && queue != [] && CanRead(world, queue[0].file)
    ensures var parsed := Contents(world, queue[0].file);
            && AllReferred(world, sheets + [SheetOf(queue[0].file, queue[0], parsed)])
            && AllWaitRight(world, queue[1..] + PendingIn(world, queue[0].file, parsed.references))
  {
    var parsed := Contents(world, queue[0].file);
    ListedStaysReferred(world, queue[0], parsed);
    PendingWaitRight(world, queue[0].file, parsed.references);
  }

  // ------------------------------------------------------------------ what is reported

  /** A pin of a sheet that is no hierarchical label of it. */
  predicate IsUnresolved(sheet: Sheet, pin: UnresolvedPin) {
    && pin.child == sheet.file && pin.sheetName == sheet.sheetName
    && pin.pin in sheet.pins && pin.pin !in sheet.hierarchicalLabels
    && pin.parent == (if sheet.parent.Some? then sheet.parent.value else sheet.file)
  }

  lemma {:induction false} UnresolvedInMeans(sheet: Sheet, pins: seq<string>, u: UnresolvedPin)
    requires forall p :: p in pins ==> p in sheet.pins
    ensures u in UnresolvedIn(sheet, pins) <==> IsUnresolved(sheet, u) && u.pin in pins
    decreases |pins|
  {
    if pins != [] {
      var front, last := pins[..|pins| - 1], pins[|pins| - 1];
      UnresolvedInMeans(sheet, front, u);
      assert forall p :: p in pins <==> p in front || p == last;
    }
  }

  lemma {:induction false} UnresolvedMeans(sheets: seq<Sheet>, u: UnresolvedPin)
    ensures u in UnresolvedAmong(sheets) <==> exists s :: s in sheets && IsUnresolved(s, u)
    decreases |sheets|
  {
    if sheets != [] {
      var front, last := sheets[..|sheets| - 1], sheets[|sheets| - 1];
      UnresolvedMeans(front, u);
      UnresolvedInMeans(last, last.pins, u);
      assert forall s :: s in sheets <==> s in front || s == last;
    }
  }

  /** A reference of a sheet to a file that does not exist. */
  predicate IsMissing(world: World, reference: Reference, m: MissingSheet) {
    && reference.resolved == m.resolved && m.resolved !in world
    && reference.sheetName == m.sheetName && reference.fileName == m.fileName
  }

  lemma {:induction false} MissingInMeans(world: World, file: File, references: seq<Reference>, m: MissingSheet)
    ensures m in MissingIn(world, file, references)
        <==> m.parent == file && exists r :: r in references && IsMissing(world, r, m)
    decreases |references|
  {
    if references != [] {
      var front, last := references[..|references| - 1], references[|references| - 1];
      MissingInMeans(world, file, front, m);
      assert (exists r :: r in references && IsMissing(world, r, m))
        <==> (exists r :: r in front && IsMissing(world, r, m)) || IsMissing(world, last, m);
    }
  }

  ghost predicate MissesFrom(world: World, sheet: Sheet, m: MissingSheet) {
    m.parent == sheet.file && exists r :: Refers(world, sheet.file, r) && IsMissing(world, r, m)
  }

  lemma SheetMisses(world: World, sheet: Sheet, m: MissingSheet)
    requires CanRead(world, sheet.file)
    ensures m in MissingIn(world, sheet.file, Contents(world, sheet.file).references) <==> MissesFrom(world, sheet, m)
  {
    var references := Contents(world, sheet.file).references;
    MissingInMeans(world, sheet.file, references, m);
    assert forall r :: r in references <==> Refers(world, sheet.file, r);
  }

  lemma {:induction false} MissingMeans(world: World, sheets: seq<Sheet>, m: MissingSheet)
    ensures m in MissingAmong(world, sheets) <==> exists s :: s in sheets && MissesFrom(world, s, m)
    decreases |sheets|
  {
    if sheets != [] {
      var front, last := sheets[..|sheets| - 1], sheets[|sheets| - 1];
      MissingMeans(world, front, m);
      if CanRead(world, last.file) {
        SheetMisses(world, last, m);
      }
      assert (exists s :: s in sheets && MissesFrom(world, s, m))
        <==> (exists s :: s in front && MissesFrom(world, s, m)) || MissesFrom(world, last, m);
    }
  }

  // ------------------------------------------------------------------ each once

  lemma {:induction false} UnresolvedInOnce(sheet: Sheet, pins: seq<string>)
    requires NoDuplicates(pins) && forall p :: p in pins ==> p in sheet.pins
    ensures NoDuplicates(UnresolvedIn(sheet, pins))
    decreases |pins|
  {
    if pins != [] {
      var front, last := pins[..|pins| - 1], pins[|pins| - 1];
      UnresolvedInOnce(sheet, front);
      forall u | u in UnresolvedIn(sheet, front) ensures u.pin != last {
        UnresolvedInMeans(sheet, front, u);
      }
    }
  }

  /** No pin of a sheet is reported twice. */
  lemma {:induction false} UnresolvedOnce(sheets: seq<Sheet>)
    requires forall s :: s in sheets ==> NoDuplicates(s.pins)
    requires forall i, j :: 0 <= i < j < |sheets| ==> sheets[i].file != sheets[j].file
    ensures NoDuplicates(UnresolvedAmong(sheets))
    decreases |sheets|
  {
    if sheets != [] {
      var front, last := sheets[..|sheets| - 1], sheets[|sheets| - 1];
      var before, added := UnresolvedAmong(front), UnresolvedIn(last, last.pins);
      UnresolvedOnce(front);
      UnresolvedInOnce(last, last.pins);
      forall u, v | u in before && v in added ensures u != v {
        UnresolvedMeans(front, u);
        UnresolvedInMeans(last, last.pins, v);
      }
      assert forall i :: 0 <= i < |before| ==> before[i] in before;
      assert forall i :: 0 <= i < |added| ==> added[i] in added;
    }
  }
}
