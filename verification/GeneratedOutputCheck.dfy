/** The output-set check (src/core/generated-output-inventory.ts, generated-output-scan.ts). */
module GeneratedOutputCheck {
  // It gives no reason exactly when the tree is the declared one.
  import opened Collections
  import opened GeneratedOutput
  import opened GeneratedOutputPlaces

  datatype Scan = Scanned(files: set<string>, reasons: seq<Reason>) | Failed(why: Failure)

  // ------------------------------------------------------------------ the declared inventory

  predicate IsAccepted(path: string, manifest: Manifest) { IsCanonical(path) && path != manifest.name }

  /** Every path is canonical and not the manifest's, and no two share an alias. */
  predicate IsWellDeclared(declared: seq<string>, manifest: Manifest) {
    && (forall i :: 0 <= i < |declared| ==> IsAccepted(declared[i], manifest))
    && (forall i, j :: 0 <= i < j < |declared| ==> manifest.alias(declared[i]) != manifest.alias(declared[j]))
  }

  /** A declaration that is accepted, and the first of its alias that is. */
  predicate IsKept(declared: seq<string>, i: nat, manifest: Manifest)
    requires i < |declared|
  {
    && IsAccepted(declared[i], manifest)
    && forall j :: 0 <= j < i && IsAccepted(declared[j], manifest)
                   ==> manifest.alias(declared[j]) != manifest.alias(declared[i])
  }

  function KeptFiles(declared: seq<string>, manifest: Manifest): set<string> {
    set i | 0 <= i < |declared| && IsKept(declared, i, manifest) :: declared[i]
  }

  function AncestorsOf(files: set<string>): set<string> {
    set path, directory | path in files && directory in Ancestors(path) :: directory
  }

  /** What is to be said of the declarations: one that is not accepted, or one that is accepted behind
      another of its alias. */
  predicate IsDeclarationReason(reason: Reason, declared: seq<string>, manifest: Manifest) {
    match reason
    case NonCanonicalDeclaration(path) => path in declared && !IsAccepted(path, manifest)
    case DeclaredAlias(path) => SomeLaterAlias(declared, manifest, path)
    case _ => false
  }

  predicate SomeLaterAlias(declared: seq<string>, manifest: Manifest, path: string) {
    exists j :: 0 <= j < |declared| && IsLaterAlias(declared, j, manifest, path)
  }

  predicate IsLaterAlias(declared: seq<string>, j: nat, manifest: Manifest, path: string)
    requires j < |declared|
  {
    declared[j] == path && IsAccepted(path, manifest) && !IsKept(declared, j, manifest)
  }

  class DeclaredInventory {
    var files: set<string>
    var aliases: set<string>
    var directories: set<string>
    var reasons: seq<Reason>

    constructor ()
      ensures files == {} && aliases == {} && directories == {} && reasons == []
    {
      files, aliases, directories, reasons := {}, {}, {}, [];
    }

    /** What was declared so far, and what is to be said of it. */
    ghost predicate Indexes(declared: seq<string>, manifest: Manifest)
      reads this
    {
      && files == KeptFiles(declared, manifest)
      && aliases == (set p | p in declared && IsAccepted(p, manifest) :: manifest.alias(p))
      && directories == AncestorsOf(files)
      && forall r :: r in reasons <==> IsDeclarationReason(r, declared, manifest)
    }

    method AddAncestors(path: string)
      modifies this`directories
      ensures directories == old(directories) + Ancestors(path)
    {
      for k := 0 to |path|
        invariant directories == old(directories) + set m | 0 <= m < k && path[m] == '/' :: path[..m]
      {
        if path[k] == '/' {
          directories := directories + {path[..k]};
        }
      }
    }

    method IndexArtifact(path: string, manifest: Manifest, ghost before: seq<string>)
      requires Indexes(before, manifest)
      modifies this
      ensures Indexes(before + [path], manifest)
    {
      OneMoreDeclared(before, path, manifest);
      OneMoreReason(before, path, manifest);
      AncestorsOneMore(files, path);
      if !IsCanonical(path) || path == manifest.name {
        reasons := reasons + [NonCanonicalDeclaration(path)];
        return;
      }
      var alias := manifest.alias(path);
      if alias in aliases {
        reasons := reasons + [DeclaredAlias(path)];
        return;
      }
      files := files + {path};
      aliases := aliases + {alias};
      AddAncestors(path);
    }
  }

  predicate HasAlias(declared: seq<string>, manifest: Manifest, alias: string) {
    exists p :: p in declared && IsAccepted(p, manifest) && manifest.alias(p) == alias
  }

  lemma KeptBefore(before: seq<string>, path: string, manifest: Manifest, i: nat)
    requires i <= |before|
    ensures IsKept(before + [path], i, manifest)
         == if i < |before| then IsKept(before, i, manifest)
            else IsAccepted(path, manifest) && !HasAlias(before, manifest, manifest.alias(path))
  {
    var after := before + [path];
    assert forall j :: 0 <= j < |before| ==> after[j] == before[j];
    if i == |before| && IsAccepted(path, manifest) {
      if HasAlias(before, manifest, manifest.alias(path)) {
        var p :| p in before && IsAccepted(p, manifest) && manifest.alias(p) == manifest.alias(path);
        var j :| 0 <= j < |before| && before[j] == p;
        assert after[j] == p;
      } else {
        assert forall j :: 0 <= j < |before| ==> before[j] in before;
      }
    }
  }

  lemma OneMoreDeclared(before: seq<string>, path: string, manifest: Manifest)
    ensures KeptFiles(before + [path], manifest)
         == KeptFiles(before, manifest)
            + if IsAccepted(path, manifest) && !HasAlias(before, manifest, manifest.alias(path)) then {path} else {}
    ensures (set p | p in before + [path] && IsAccepted(p, manifest) :: manifest.alias(p))
         == (set p | p in before && IsAccepted(p, manifest) :: manifest.alias(p))
            + if IsAccepted(path, manifest) then {manifest.alias(path)} else {}
  {
    var after := before + [path];
    forall i | 0 <= i <= |before| ensures after[i] == (if i < |before| then before[i] else path) {}
    forall i: nat | i <= |before|
      ensures IsKept(after, i, manifest)
           == if i < |before| then IsKept(before, i, manifest)
              else IsAccepted(path, manifest) && !HasAlias(before, manifest, manifest.alias(path))
    {
      KeptBefore(before, path, manifest, i);
    }
    assert forall p :: p in after <==> p in before || p == path;
  }

  lemma OneMoreAlias(before: seq<string>, path: string, manifest: Manifest, p: string)
    ensures SomeLaterAlias(before + [path], manifest, p)
        <==> || SomeLaterAlias(before, manifest, p)
             || (p == path && IsAccepted(path, manifest) && HasAlias(before, manifest, manifest.alias(path)))
  {
    var after := before + [path];
    forall j: nat | j <= |before|
      ensures IsLaterAlias(after, j, manifest, p)
          <==> if j < |before| then IsLaterAlias(before, j, manifest, p)
               else p == path && IsAccepted(path, manifest) && HasAlias(before, manifest, manifest.alias(path))
    {
      KeptBefore(before, path, manifest, j);
    }
    if SomeLaterAlias(before, manifest, p) {
      var j :| 0 <= j < |before| && IsLaterAlias(before, j, manifest, p);
      assert IsLaterAlias(after, j, manifest, p);
    }
    assert IsLaterAlias(after, |before|, manifest, p) ==> SomeLaterAlias(after, manifest, p);
  }

  lemma OneMoreReason(before: seq<string>, path: string, manifest: Manifest)
    ensures forall r :: IsDeclarationReason(r, before + [path], manifest)
              <==> || IsDeclarationReason(r, before, manifest)
                   || (r == NonCanonicalDeclaration(path) && !IsAccepted(path, manifest))
                   || (r == DeclaredAlias(path) && IsAccepted(path, manifest)
                       && HasAlias(before, manifest, manifest.alias(path)))
  {
    forall p
      ensures SomeLaterAlias(before + [path], manifest, p)
          <==> || SomeLaterAlias(before, manifest, p)
               || (p == path && IsAccepted(path, manifest) && HasAlias(before, manifest, manifest.alias(path)))
    {
      OneMoreAlias(before, path, manifest, p);
    }
    assert forall p :: p in before + [path] <==> p in before || p == path;
  }

  lemma AncestorsOneMore(files: set<string>, path: string)
    ensures AncestorsOf(files + {path}) == AncestorsOf(files) + Ancestors(path)
  {}

  /** Nothing is to be said of declarations if and only if they are well declared, and then all are
      kept. */
  lemma WellDeclaredMeans(declared: seq<string>, manifest: Manifest)
    ensures IsWellDeclared(declared, manifest) <==> forall r :: !IsDeclarationReason(r, declared, manifest)
    ensures IsWellDeclared(declared, manifest) ==> KeptFiles(declared, manifest) == (set p | p in declared)
  {
    if IsWellDeclared(declared, manifest) {
      forall i: nat | i < |declared| ensures IsKept(declared, i, manifest) {}
      assert forall p :: p in declared ==> IsAccepted(p, manifest);
      assert forall p :: p in declared ==> exists i :: 0 <= i < |declared| && declared[i] == p;
    } else if forall i :: 0 <= i < |declared| ==> IsAccepted(declared[i], manifest) {
      var i, j :| 0 <= i < j < |declared| && manifest.alias(declared[i]) == manifest.alias(declared[j]);
      assert IsLaterAlias(declared, j, manifest, declared[j]);
      assert IsDeclarationReason(DeclaredAlias(declared[j]), declared, manifest);
    } else {
      var i :| 0 <= i < |declared| && !IsAccepted(declared[i], manifest);
      assert IsDeclarationReason(NonCanonicalDeclaration(declared[i]), declared, manifest);
    }
  }

  // ------------------------------------------------------------------ the scan

  /** Of single entries exactly what is to be said; and of each alias that occurs more than once, that
      some file shares it. */
  ghost predicate AreReasons(reasons: seq<Reason>, done: Summary, manifest: Manifest) {
    && (forall r :: r in reasons && !r.FileAlias? <==> r in done.reasons)
    && (forall r :: r in reasons && r.FileAlias? ==> r.path in done.files && SharesAlias(r.path, done, manifest))
    && (forall a :: a in done.aliases && done.aliases[a] > 1 ==> SomeShares(reasons, manifest, a))
  }

  predicate SharesAlias(path: string, done: Summary, manifest: Manifest) {
    manifest.alias(path) in done.aliases && done.aliases[manifest.alias(path)] > 1
  }

  predicate SomeShares(reasons: seq<Reason>, manifest: Manifest, alias: string) {
    exists r :: r in reasons && r.FileAlias? && manifest.alias(r.path) == alias
  }

  lemma NoReasonIsClean(reasons: seq<Reason>, done: Summary, manifest: Manifest)
    requires AreReasons(reasons, done, manifest)
    ensures reasons == [] <==> done.reasons == {} && !done.HasClash()
  {
    if reasons == [] {
      assert forall r :: r !in done.reasons;
    } else {
      assert reasons[0] in reasons;
    }
  }

  class OutputScan {
    const manifest: Manifest
    const directories: set<string>
    var files: set<string>
    var aliases: set<string>
    var reasons: seq<Reason>
    var pending: seq<ScanNode>
    var scanned: nat
    ghost var done: Summary

    constructor (manifest: Manifest, directories: set<string>, root: seq<Child>)
      ensures this.manifest == manifest && this.directories == directories
      ensures Records() && done == NOTHING && pending == [ScanNode(root, "", 0)]
    {
      this.manifest, this.directories := manifest, directories;
      files, aliases, reasons := {}, {}, [];
      pending, scanned := [ScanNode(root, "", 0)], 0;
      done := NOTHING;
    }

    /** The results are those of what was scanned. */
    ghost predicate Records()
      reads this
    {
      && files == done.files && aliases == (set a | a in done.aliases) && scanned == done.count
      && done.failures == {} && AreReasons(reasons, done, manifest)
    }

    method RecordOutputFile(path: string)
      modifies this`files, this`aliases, this`reasons
      ensures files == old(files) + {path} && aliases == old(aliases) + {manifest.alias(path)}
      ensures reasons == old(reasons) + (if IsCanonical(path) then [] else [NonCanonicalFile(path)])
                         + (if manifest.alias(path) in old(aliases) then [FileAlias(path)] else [])
    {
      if !IsCanonical(path) {
        reasons := reasons + [NonCanonicalFile(path)];
      }
      var alias := manifest.alias(path);
      if alias in aliases {
        reasons := reasons + [FileAlias(path)];
      }
      aliases := aliases + {alias};
      files := files + {path};
    }

    /** What there is to say of one entry; a subdirectory is put in line. */
    method Say(found: Found) returns (failure: seq<Failure>)
      modifies this`files, this`aliases, this`reasons, this`pending
      ensures if failure == [] then FailuresFor(found) == {} else IsFailureFor(failure[0], found)
      ensures failure == [] ==>
                && reasons == old(reasons) + SaidOf(found, old(aliases), manifest, directories)
                && files == old(files) + (if IsOutput(found, manifest) then {found.path} else {})
                && aliases == old(aliases) + (if IsOutput(found, manifest) then {manifest.alias(found.path)} else {})
                && pending == old(pending) + NodesAt(found)
    {
      match found.entry {
        case Symlink => reasons := reasons + [SymlinkFound(found.path)];
        case Directory(children, hasCanonicalPath) =>
          if found.path !in directories {
            reasons := reasons + [UndeclaredDirectory(found.path)];
          }
          if found.depth >= MAX_DEPTH {
            return [TooDeep];
          }
          if !hasCanonicalPath {
            return [NonCanonicalRealPath(found.path)];
          }
          pending := pending + [ScanNode(children, found.path, found.depth + 1)];
        case Other => reasons := reasons + [NonFileFound(found.path)];
        case File =>
          if found.path != manifest.at {
            RecordOutputFile(found.path);
          }
      }
      return [];
    }

    /** One entry of a directory. */
    method RecordEntry(found: Found) returns (failure: seq<Failure>)
      requires Records()
      modifies this`files, this`aliases, this`reasons, this`pending, this`scanned, this`done
      ensures failure != [] ==> IsFailureFor(failure[0], found)
      ensures failure == [] ==>
                && Records() && done == old(done).Plus(OfFound(found, manifest, directories))
                && pending == old(pending) + NodesAt(found)
    {
      scanned := scanned + 1;
      ghost var before := reasons;
      failure := Say(found);
      if failure == [] {
        OneMoreFound(before, reasons, done, found, manifest, directories);
        AliasesOneMore(done, found, manifest, directories);
        done := done.Plus(OfFound(found, manifest, directories));
      }
    }
  }

  /** What the scan says of one entry behind those before it. */
  function SaidOf(found: Found, aliases: set<string>, manifest: Manifest, directories: set<string>): seq<Reason> {
    match found.entry
    case Symlink => [SymlinkFound(found.path)]
    case Other => [NonFileFound(found.path)]
    case Directory(_, _) => if found.path in directories then [] else [UndeclaredDirectory(found.path)]
    case File =>
      if found.path == manifest.at then []
      else
        (if IsCanonical(found.path) then [] else [NonCanonicalFile(found.path)])
        + (if manifest.alias(found.path) in aliases then [FileAlias(found.path)] else [])
  }

  lemma SaidIsRight(found: Found, aliases: set<string>, manifest: Manifest, directories: set<string>)
    ensures var said := SaidOf(found, aliases, manifest, directories);
            && (forall r :: r in said && !r.FileAlias? <==> r in ReasonsFor(found, manifest, directories))
            && (forall r :: r in said && r.FileAlias?
                  <==> r == FileAlias(found.path) && IsOutput(found, manifest) && manifest.alias(found.path) in aliases)
  {
    forall r ensures r in ReasonsFor(found, manifest, directories) <==> IsReasonFor(r, found, manifest, directories) {}
  }

  lemma OneMoreFound(before: seq<Reason>, after: seq<Reason>, done: Summary, found: Found, manifest: Manifest,
                     directories: set<string>)
    requires AreReasons(before, done, manifest)
    requires after == before + SaidOf(found, (set a | a in done.aliases), manifest, directories)
    ensures AreReasons(after, done.Plus(OfFound(found, manifest, directories)), manifest)
  {
    var aliases := set a | a in done.aliases;
    var said, more := SaidOf(found, aliases, manifest, directories), done.Plus(OfFound(found, manifest, directories));
    SaidIsRight(found, aliases, manifest, directories);
    assert forall r :: r in after <==> r in before || r in said;
    forall a | a in more.aliases && more.aliases[a] > 1 ensures SomeShares(after, manifest, a) {
      StillShares(before, after, done, found, manifest, directories, a);
    }
  }

  lemma StillShares(before: seq<Reason>, after: seq<Reason>, done: Summary, found: Found, manifest: Manifest,
                    directories: set<string>, alias: string)
    requires AreReasons(before, done, manifest)
    requires after == before + SaidOf(found, (set a | a in done.aliases), manifest, directories)
    requires done.Plus(OfFound(found, manifest, directories)).aliases[alias] > 1
    ensures SomeShares(after, manifest, alias)
  {
    if done.aliases[alias] > 1 {
      assert SomeShares(before, manifest, alias);
      var r :| r in before && r.FileAlias? && manifest.alias(r.path) == alias;
      assert r in after;
    } else {
      assert IsOutput(found, manifest) && manifest.alias(found.path) == alias && alias in done.aliases;
      assert FileAlias(found.path) in after;
    }
  }

  lemma AliasesOneMore(done: Summary, found: Found, manifest: Manifest, directories: set<string>)
    ensures (set a | a in done.Plus(OfFound(found, manifest, directories)).aliases)
         == (set a | a in done.aliases) + if IsOutput(found, manifest) then {manifest.alias(found.path)} else {}
  {}

  /** What is left of a directory being read, and of those in line. */
  ghost function Remaining(rest: seq<Child>, node: ScanNode, pending: seq<ScanNode>, manifest: Manifest,
                           directories: set<string>): Summary
  {
    OfChildren(rest, node.path, node.depth, manifest, directories).Plus(OfPending(pending, manifest, directories))
  }

  function FoundAt(node: ScanNode, child: Child): Found {
    Found(Relative(node.path, child.name), node.depth, child.entry)
  }

  /** The subdirectory an entry puts in line. */
  function NodesAt(found: Found): seq<ScanNode> {
    if found.entry.Directory? then [ScanNode(found.entry.children, found.path, found.depth + 1)] else []
  }

  lemma ChildUnfolds(child: Child, node: ScanNode, manifest: Manifest, directories: set<string>)
    ensures OfChild(child, node.path, node.depth, manifest, directories)
         == OfFound(FoundAt(node, child), manifest, directories)
              .Plus(OfPending(NodesAt(FoundAt(node, child)), manifest, directories))
  {
    var nodes := NodesAt(FoundAt(node, child));
    if child.entry.Directory? {
      assert nodes[1..] == [];
      PlusNothing(OfChildren(nodes[0].children, nodes[0].path, nodes[0].depth, manifest, directories));
    }
  }

  lemma PlusNothing(a: Summary)
    ensures a.Plus(NOTHING) == a
  {}

  lemma ChildrenUnfold(rest: seq<Child>, node: ScanNode, manifest: Manifest, directories: set<string>)
      returns (own: Summary, below: Summary, later: Summary)
    requires rest != []
    ensures own == OfFound(FoundAt(node, rest[0]), manifest, directories)
    ensures below == OfPending(NodesAt(FoundAt(node, rest[0])), manifest, directories)
    ensures later == OfChildren(rest[1..], node.path, node.depth, manifest, directories)
    ensures OfChildren(rest, node.path, node.depth, manifest, directories) == own.Plus(below).Plus(later)
  {
    ChildUnfolds(rest[0], node, manifest, directories);
    own := OfFound(FoundAt(node, rest[0]), manifest, directories);
    below := OfPending(NodesAt(FoundAt(node, rest[0])), manifest, directories);
    later := OfChildren(rest[1..], node.path, node.depth, manifest, directories);
  }

  /** Reading one entry moves its summary from what is left to what is done. */
  lemma ReadOne(done: Summary, rest: seq<Child>, node: ScanNode, pending: seq<ScanNode>, manifest: Manifest,
                directories: set<string>)
    requires rest != []
    ensures var found := FoundAt(node, rest[0]);
            done.Plus(Remaining(rest, node, pending, manifest, directories))
            == done.Plus(OfFound(found, manifest, directories))
                   .Plus(Remaining(rest[1..], node, pending + NodesAt(found), manifest, directories))
  {
    var found := FoundAt(node, rest[0]);
    var own, below, later := ChildrenUnfold(rest, node, manifest, directories);
    var waiting := OfPending(pending, manifest, directories);
    OfPendingConcat(pending, NodesAt(found), manifest, directories);
    Regroup(done, own, below, later, waiting);
  }

  lemma Regroup(done: Summary, own: Summary, below: Summary, later: Summary, waiting: Summary)
    ensures done.Plus(own.Plus(below).Plus(later).Plus(waiting)) == done.Plus(own).Plus(later.Plus(waiting.Plus(below)))
  {
    assert own.aliases + below.aliases + later.aliases + waiting.aliases
        == own.aliases + (later.aliases + (waiting.aliases + below.aliases));
  }

  // ------------------------------------------------------------------ the check

  /** The scan's results are those of the whole tree, or say why it failed. */
  ghost predicate IsScanOf(scan: Scan, whole: Summary, manifest: Manifest) {
    match scan
    case Failed(why) => IsFailureOf(why, whole)
    case Scanned(files, reasons) =>
      files == whole.files && whole.count <= MAX_ENTRIES && whole.failures == {} && AreReasons(reasons, whole, manifest)
  }

  lemma NoReasonIsAcceptable(scan: Scan, whole: Summary, manifest: Manifest)
    requires IsScanOf(scan, whole, manifest)
    ensures scan.Scanned? && scan.reasons == [] <==> whole.IsAcceptable()
  {
    if scan.Scanned? {
      NoReasonIsClean(scan.reasons, whole, manifest);
    }
  }

  /** What one entry would fail with, or how many there are, is part of the whole. */
  lemma PartOfWhole(done: Summary, own: Summary, rest: Summary)
    ensures own.failures <= done.Plus(own).Plus(rest).failures
    ensures done.count + own.count <= done.Plus(own).Plus(rest).count
  {}

  predicate IsFailureOf(failure: Failure, whole: Summary) {
    if failure.TooManyEntries? then whole.count > MAX_ENTRIES else failure in whole.failures
  }

  /** What is done and what is left of a directory being read make up the whole. */
  ghost predicate AddsUp(scan: OutputScan, rest: seq<Child>, node: ScanNode, whole: Summary)
    reads scan
  {
    && scan.Records() && scan.scanned <= MAX_ENTRIES
    && whole == scan.done.Plus(Remaining(rest, node, scan.pending, scan.manifest, scan.directories))
  }

  /** Reads one entry: nothing, or why the scan failed. */
  method ScanEntry(scan: OutputScan, node: ScanNode, child: Child, ghost rest: seq<Child>, ghost whole: Summary)
      returns (failure: seq<Failure>)
    requires rest != [] && rest[0] == child && AddsUp(scan, rest, node, whole)
    modifies scan`files, scan`aliases, scan`reasons, scan`pending, scan`scanned, scan`done
    ensures failure != [] ==> IsFailureOf(failure[0], whole)
    ensures failure == [] ==> AddsUp(scan, rest[1..], node, whole) && scan.done.count == old(scan.done.count) + 1
  {
    var found := FoundAt(node, child);
    ReadOne(scan.done, rest, node, scan.pending, scan.manifest, scan.directories);
    PartOfWhole(scan.done, OfFound(found, scan.manifest, scan.directories),
                Remaining(rest[1..], node, scan.pending + NodesAt(found), scan.manifest, scan.directories));
    if scan.scanned + 1 > MAX_ENTRIES {
      return [TooManyEntries];
    }
    failure := scan.RecordEntry(found);
  }

  /** Reads one directory. */
  method ScanDirectory(scan: OutputScan, node: ScanNode, ghost whole: Summary) returns (failure: seq<Failure>)
    requires AddsUp(scan, node.children, node, whole)
    modifies scan`files, scan`aliases, scan`reasons, scan`pending, scan`scanned, scan`done
    ensures failure != [] ==> IsFailureOf(failure[0], whole)
    ensures failure == [] ==>
              && scan.Records() && scan.scanned <= MAX_ENTRIES
              && whole == scan.done.Plus(OfPending(scan.pending, scan.manifest, scan.directories))
              && scan.done.count == old(scan.done.count) + |node.children|
              && (node.children == [] ==> scan.pending == old(scan.pending))
  {
    var i := 0;
    while i < |node.children|
      invariant 0 <= i <= |node.children| && AddsUp(scan, node.children[i..], node, whole)
      invariant scan.done.count == old(scan.done.count) + i && (i == 0 ==> scan.pending == old(scan.pending))
    {
      ghost var rest := node.children[i..];
      failure := ScanEntry(scan, node, node.children[i], rest, whole);
      if failure != [] {
        return;
      }
      assert rest[1..] == node.children[i + 1..];
      i := i + 1;
    }
    assert node.children[i..] == [];
    return [];
  }

  function OfTree(root: seq<Child>, manifest: Manifest, directories: set<string>): Summary {
    OfChildren(root, "", 0, manifest, directories)
  }

  method ScanTree(root: seq<Child>, manifest: Manifest, directories: set<string>) returns (result: Scan)
    ensures IsScanOf(result, OfTree(root, manifest, directories), manifest)
  {
    var scan := new OutputScan(manifest, directories, root);
    ghost var whole := OfTree(root, manifest, directories);
    PlusNothing(whole);
    assert scan.pending[1..] == [];
    assert whole == scan.done.Plus(OfPending(scan.pending, manifest, directories));
    while scan.pending != []
      invariant fresh(scan) && scan.manifest == manifest && scan.directories == directories
      invariant scan.Records() && scan.scanned <= MAX_ENTRIES
      invariant whole == scan.done.Plus(OfPending(scan.pending, manifest, directories))
      decreases whole.count - scan.done.count, |scan.pending|
    {
      var node := scan.pending[0];
      scan.pending := scan.pending[1..];
      var failure := ScanDirectory(scan, node, whole);
      if failure != [] {
        return Failed(failure[0]);
      }
    }
    PlusNothing(scan.done);
    return Scanned(scan.files, scan.reasons);
  }

  /** A file that is in one set and not the other, named accordingly. */
  predicate IsDifference(reason: Reason, declared: set<string>, actual: set<string>) {
    || (reason.Undeclared? && reason.path in actual - declared)
    || (reason.Missing? && reason.path in declared - actual)
  }

  /** Adds what is in one set and not the other: every such file once, the undeclared ones first. */
  method CompareExactFileSets(declared: set<string>, actual: set<string>) returns (reasons: seq<Reason>)
    ensures reasons == [] <==> declared == actual
    ensures forall r :: r in reasons <==> IsDifference(r, declared, actual)
    ensures NoDuplicates(reasons)
    ensures forall i, j :: 0 <= i < j < |reasons| && reasons[j].Undeclared? ==> reasons[i].Undeclared?
  {
    reasons := [];
    var todo := actual;
    while todo != {}
      invariant todo <= actual && NoDuplicates(reasons)
      invariant forall r :: r in reasons <==> r.Undeclared? && r.path in (actual - todo) - declared
      decreases todo
    {
      var file :| file in todo;
      if file !in declared {
        reasons := reasons + [Undeclared(file)];
      }
      todo := todo - {file};
    }
    todo := declared;
    ghost var undeclared := |reasons|;
    while todo != {}
      invariant todo <= declared && NoDuplicates(reasons) && undeclared <= |reasons|
      invariant forall r :: r in reasons <==> IsDifference(r, declared, actual) && !(r.Missing? && r.path in todo)
      invariant forall i :: 0 <= i < |reasons| ==> (reasons[i].Undeclared? <==> i < undeclared)
      decreases todo
    {
      var file :| file in todo;
      if file !in actual {
        reasons := reasons + [Missing(file)];
      }
      todo := todo - {file};
    }
    NamesEveryDifference(reasons, declared, actual);
  }

  lemma NamesEveryDifference(reasons: seq<Reason>, declared: set<string>, actual: set<string>)
    requires forall r :: r in reasons <==> IsDifference(r, declared, actual)
    ensures reasons == [] <==> declared == actual
  {
    if reasons == [] {
      forall file ensures file in declared <==> file in actual {
        assert Undeclared(file) !in reasons && Missing(file) !in reasons;
      }
    } else {
      assert reasons[0] in reasons;
    }
  }

  method IndexDeclared(manifest: Manifest) returns (inventory: DeclaredInventory)
    ensures fresh(inventory) && inventory.Indexes(manifest.declared, manifest)
  {
    inventory := new DeclaredInventory();
    for i := 0 to |manifest.declared|
      invariant fresh(inventory) && inventory.Indexes(manifest.declared[..i], manifest)
    {
      inventory.IndexArtifact(manifest.declared[i], manifest, manifest.declared[..i]);
      assert manifest.declared[..i + 1] == manifest.declared[..i] + [manifest.declared[i]];
    }
    assert manifest.declared[..|manifest.declared|] == manifest.declared;
  }

  /** The tree below a directory is exactly what the manifest declares: declarations are canonical
      and free of aliases; the tree respects the limits and holds only regular files and declared
      directories, canonical and free of aliases; and its files are the declared ones. */
  predicate IsExact(root: seq<Child>, manifest: Manifest) {
    var files := set p | p in manifest.declared;
    var whole := OfTree(root, manifest, AncestorsOf(files));
    IsWellDeclared(manifest.declared, manifest) && whole.IsAcceptable() && whole.files == files
  }

  /** What the check says of a tree against what is kept of the declarations: each wrong declaration,
      and then either a failure that there is, or of single entries and of files exactly what is to
      be said. */
  ghost predicate AreTold(reasons: seq<Reason>, root: seq<Child>, manifest: Manifest) {
    var kept := KeptFiles(manifest.declared, manifest);
    var whole := OfTree(root, manifest, AncestorsOf(kept));
    exists declared: seq<Reason>, rest: seq<Reason> ::
      && reasons == declared + rest
      && (forall r :: r in declared <==> IsDeclarationReason(r, manifest.declared, manifest))
      && if whole.count > MAX_ENTRIES || whole.failures != {}
         then |rest| == 1 && rest[0].FailedClosed? && IsFailureOf(rest[0].why, whole)
         else IsToldOfFiles(rest, whole, kept, manifest)
  }

  ghost predicate IsToldOfFiles(reasons: seq<Reason>, whole: Summary, kept: set<string>, manifest: Manifest) {
    exists found: seq<Reason>, differences: seq<Reason> ::
      && reasons == found + differences && AreReasons(found, whole, manifest)
      && forall r :: r in differences <==> IsDifference(r, kept, whole.files)
  }

  /** No reason is given exactly when the output set is the declared one, and every reason is one of
      those there are. */
  method CheckOutputSet(root: seq<Child>, manifest: Manifest) returns (reasons: seq<Reason>)
    ensures reasons == [] <==> IsExact(root, manifest)
    ensures AreTold(reasons, root, manifest)
  {
    var declared := IndexDeclared(manifest);
    var scan := ScanTree(root, manifest, declared.directories);
    WellDeclaredMeans(manifest.declared, manifest);
    NoReasonIsAcceptable(scan, OfTree(root, manifest, declared.directories), manifest);
    NoneSaid(declared.reasons, manifest);
    reasons := declared.reasons;
    if scan.Failed? {
      reasons := reasons + [FailedClosed(scan.why)];
    } else {
      var differences := CompareExactFileSets(declared.files, scan.files);
      assert IsToldOfFiles(scan.reasons + differences, OfTree(root, manifest, declared.directories), declared.files,
                           manifest);
      assert reasons + scan.reasons + differences == reasons + (scan.reasons + differences);
      reasons := reasons + scan.reasons + differences;
    }
  }

  lemma NoneSaid(reasons: seq<Reason>, manifest: Manifest)
    requires forall r :: r in reasons <==> IsDeclarationReason(r, manifest.declared, manifest)
    ensures reasons == [] <==> IsWellDeclared(manifest.declared, manifest)
  {
    WellDeclaredMeans(manifest.declared, manifest);
    if reasons != [] {
      assert reasons[0] in reasons;
    }
  }

  // ------------------------------------------------------------------ what exactness means

  /** A file of the tree, other than the manifest. */
  ghost predicate IsTreeFile(root: seq<Child>, manifest: Manifest, path: string) {
    IsOutputBelow(root, "", 0, manifest, path)
  }

  /** Exactly when declarations are canonical and free of aliases, there are at most as many
      entries below the directory as the limit says, no two of them are output files of one
      alias, every entry is sound, and the files are the declared paths. */
  lemma ExactMeans(root: seq<Child>, manifest: Manifest)
    ensures var directories := AncestorsOf(set p | p in manifest.declared);
            IsExact(root, manifest)
            <==> && IsWellDeclared(manifest.declared, manifest)
                 && |Places(root, "", 0)| <= 4096
                 && AliasesDiffer(root, manifest)
                 && (forall f :: InChildren(root, "", 0, f) ==> IsSound(f, manifest, directories))
                 && (forall path :: IsTreeFile(root, manifest, path) <==> path in manifest.declared)
  {
    var files := set p | p in manifest.declared;
    var directories := AncestorsOf(files);
    var whole := OfTree(root, manifest, directories);
    ChildrenMean(root, "", 0, manifest, directories);
    SilentMeans(root, "", 0, manifest, directories);
    CountIsPlaces(root, "", 0, manifest, directories);
    ClashIsTwoPlaces(root, manifest, directories);
    assert forall path :: path in whole.files <==> IsTreeFile(root, manifest, path);
    assert whole.files == files <==> forall path :: IsTreeFile(root, manifest, path) <==> path in manifest.declared;
  }
}
