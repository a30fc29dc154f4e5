/** Trees of generated files, and what a scan of one adds up to. */
module GeneratedOutput {
  // The check is in src/core/generated-output-inventory.ts and generated-output-scan.ts: a tree
  // against the paths a manifest declares, failing closed.

  // ------------------------------------------------------------------ canonical paths

  /** The parts of a path between its slashes. */
  function Segments(path: string): (segments: seq<string>)
    ensures segments != []
  {
    if path == "" then [""]
    else if path[0] == '/' then [""] + Segments(path[1..])
    else
      var rest := Segments(path[1..]);
      [[path[0]] + rest[0]] + rest[1..]
  }

  function LowerCase(c: char): char { if 'A' <= c <= 'Z' then (c as int + 32) as char else c }

  function Lower(text: string): string { seq(|text|, i requires 0 <= i < |text| => LowerCase(text[i])) }

  /** What stands before the first dot. */
  function Stem(segment: string): string {
    if segment == "" || segment[0] == '.' then "" else [segment[0]] + Stem(segment[1..])
  }

  const LINE_ENDS := "\n\r\U{2028}\U{2029}"

  /** A device name on some platform; what follows the dot must not hold a line end. */
  predicate IsReserved(segment: string) {
    var stem := Lower(Stem(segment));
    && (forall c :: c in segment ==> c !in LINE_ENDS)
    && (|| stem in {"con", "prn", "aux", "nul"}
        || (|stem| == 4 && stem[..3] in {"com", "lpt"} && '1' <= stem[3] <= '9'))
  }

  predicate IsLegalSegment(segment: string) {
    && segment != "" && segment != "." && segment != ".."
    && (forall c :: c in segment ==> c !in "<>:\"|?*" && c >= ' ')
    && segment[|segment| - 1] !in ". "
    && !IsReserved(segment)
  }

  predicate IsCanonical(path: string) {
    path != "" && '\\' !in path && forall s :: s in Segments(path) ==> IsLegalSegment(s)
  }

  /** The ancestors of a path: what stands before each of its slashes. */
  function Ancestors(path: string): set<string> {
    set k | 0 <= k < |path| && path[k] == '/' :: path[..k]
  }

  /** A part of a path between two slashes, or its ends. */
  predicate IsPart(path: string, i: nat, j: nat, part: string) {
    && i <= j <= |path| && path[i..j] == part && '/' !in part
    && (i == 0 || path[i - 1] == '/') && (j == |path| || path[j] == '/')
  }

  predicate HasPart(path: string, from: nat, part: string) {
    exists i, j :: from <= i <= j <= |path| && IsPart(path, i, j, part)
  }

  lemma {:induction false} FirstSegment(path: string)
    ensures IsPart(path, 0, |Segments(path)[0]|, Segments(path)[0])
    decreases |path|
  {
    if path != "" && path[0] != '/' {
      FirstSegment(path[1..]);
      var rest := Segments(path[1..])[0];
      assert path[..1 + |rest|] == [path[0]] + path[1..][..|rest|];
    }
  }

  /** A part of the rest of a path is one of the path. */
  lemma PartOfRest(path: string, i: nat, j: nat, part: string)
    requires path != "" && 0 < i <= j <= |path| && (i > 1 || path[0] == '/')
    ensures IsPart(path, i, j, part) <==> IsPart(path[1..], i - 1, j - 1, part)
  {
    if j <= |path| {
      assert path[i..j] == path[1..][i - 1..j - 1];
    }
  }

  lemma LaterParts(path: string, part: string)
    requires path != ""
    ensures HasPart(path, 1, part) <==> HasPart(path[1..], if path[0] == '/' then 0 else 1, part)
  {
    var from := if path[0] == '/' then 0 else 1;
    if HasPart(path, 1, part) {
      var i, j :| 1 <= i <= j <= |path| && IsPart(path, i, j, part);
      PartOfRest(path, i, j, part);
      assert IsPart(path[1..], i - 1, j - 1, part);
    }
    if HasPart(path[1..], from, part) {
      var i, j :| from <= i <= j <= |path[1..]| && IsPart(path[1..], i, j, part);
      PartOfRest(path, i + 1, j + 1, part);
      assert IsPart(path, i + 1, j + 1, part);
    }
  }

  /** The first slash from a place on, or the end. */
  function SlashFrom(path: string, i: nat): (j: nat)
    requires i <= |path|
    decreases |path| - i
  {
    if i == |path| || path[i] == '/' then i else SlashFrom(path, i + 1)
  }

  lemma {:induction false} SlashFromIs(path: string, i: nat, j: nat)
    requires i <= j <= |path| && (forall k :: i <= k < j ==> path[k] != '/') && (j == |path| || path[j] == '/')
    ensures SlashFrom(path, i) == j
    decreases j - i
  {
    if i < j {
      SlashFromIs(path, i + 1, j);
    }
  }

  lemma PartEnds(path: string, i: nat, j: nat, part: string)
    requires IsPart(path, i, j, part)
    ensures SlashFrom(path, i) == j
  {
    forall k | i <= k < j ensures path[k] != '/' {
      assert path[k] == part[k - i] && part[k - i] in part;
    }
    SlashFromIs(path, i, j);
  }

  lemma FirstPart(path: string, part: string)
    ensures HasPart(path, 0, part) <==> part == Segments(path)[0] || HasPart(path, 1, part)
  {
    FirstSegment(path);
    var end := |Segments(path)[0]|;
    if HasPart(path, 0, part) && !HasPart(path, 1, part) {
      var i, j :| 0 <= i <= j <= |path| && IsPart(path, i, j, part);
      PartEnds(path, 0, j, part);
      PartEnds(path, 0, end, Segments(path)[0]);
    }
  }

  /** The segments of a path but the first are its parts that start behind a slash. */
  lemma {:induction false} LaterSegments(path: string, part: string)
    ensures part in Segments(path)[1..] <==> HasPart(path, 1, part)
    decreases |path|
  {
    if path == "" {
      assert Segments(path)[1..] == [];
    } else {
      LaterSegments(path[1..], part);
      LaterParts(path, part);
      var rest := Segments(path[1..]);
      assert rest == [rest[0]] + rest[1..];
      if path[0] == '/' {
        FirstPart(path[1..], part);
        assert Segments(path)[1..] == rest;
      } else {
        assert Segments(path)[1..] == rest[1..];
      }
    }
  }

  /** A path is canonical if and only if it has no backslash and every part between its slashes is
      legal; in particular none is empty. */
  lemma CanonicalMeans(path: string)
    ensures IsCanonical(path)
        <==> path != "" && '\\' !in path && forall part :: HasPart(path, 0, part) ==> IsLegalSegment(part)
  {
    var segments := Segments(path);
    forall part ensures part in segments <==> HasPart(path, 0, part) {
      LaterSegments(path, part);
      FirstPart(path, part);
      assert segments == [segments[0]] + segments[1..];
    }
  }

  /** The names of devices, numbered from 1 to 9 if they are ports. */
  predicate IsDevice(name: string) {
    || name in {"con", "prn", "aux", "nul"}
    || (|name| == 4 && name[..3] in {"com", "lpt"} && name[3] in "123456789")
  }

  /** A character in either case of its letter. */
  predicate IsEitherCase(c: char, letter: char) {
    c == letter || ('a' <= letter <= 'z' && c as int + 32 == letter as int)
  }

  predicate IsSpelling(text: string, device: string) {
    |text| == |device| && forall i :: 0 <= i < |text| ==> IsEitherCase(text[i], device[i])
  }

  ghost predicate SpellsDevice(text: string) { exists device :: IsDevice(device) && IsSpelling(text, device) }

  /** Where the first dot of a segment is, or its end. */
  predicate IsFirstDot(segment: string, n: nat) {
    n <= |segment| && (n == |segment| || segment[n] == '.') && '.' !in segment[..n]
  }

  /** A stem ends at the first dot. */
  lemma {:induction false} StemLength(segment: string, n: nat)
    requires IsFirstDot(segment, n)
    ensures Stem(segment) == segment[..n]
    decreases n
  {
    if n > 0 {
      assert segment[..n][0] in segment[..n];
      assert segment[1..][..n - 1] == segment[..n][1..];
      StemLength(segment[1..], n - 1);
      assert segment[..n] == [segment[0]] + segment[1..][..n - 1];
    }
  }

  lemma LowerSpells(text: string, device: string)
    requires forall c :: c in device ==> 'a' <= c <= 'z' || '1' <= c <= '9'
    ensures IsSpelling(text, device) <==> Lower(text) == device
  {
    if IsSpelling(text, device) {
      forall i | 0 <= i < |text| ensures Lower(text)[i] == device[i] {
        assert IsEitherCase(text[i], device[i]) && device[i] in device;
      }
    } else if |text| == |device| {
      var i :| 0 <= i < |text| && !IsEitherCase(text[i], device[i]);
      assert device[i] in device && Lower(text)[i] == LowerCase(text[i]);
    }
  }

  /** A segment is reserved if and only if a device is spelled up to its first dot, in any case, and no
      line ends in it. */
  lemma ReservedMeans(segment: string, n: nat)
    requires IsFirstDot(segment, n)
    ensures IsReserved(segment) <==> SpellsDevice(segment[..n]) && forall c :: c in segment ==> c !in LINE_ENDS
  {
    var text := segment[..n];
    StemLength(segment, n);
    if IsDevice(Lower(text)) {
      DeviceIsPlain(Lower(text));
      LowerSpells(text, Lower(text));
    }
    if SpellsDevice(text) {
      var device :| IsDevice(device) && IsSpelling(text, device);
      DeviceIsPlain(device);
      LowerSpells(text, device);
    }
  }

  lemma DeviceIsPlain(device: string)
    requires IsDevice(device)
    ensures forall c :: c in device ==> 'a' <= c <= 'z' || '1' <= c <= '9'
  {
    if |device| == 4 {
      assert device == device[..3] + [device[3]];
    }
  }

  // ------------------------------------------------------------------ trees

  datatype Entry =
    | File
    | Symlink
    | Other
    | Directory(children: seq<Child>, hasCanonicalPath: bool)

  datatype Child = Child(name: string, entry: Entry)

  const MAX_ENTRIES: nat := 4096
  const MAX_DEPTH: nat := 32

  /** What the check is given: how names are compared across platforms, where the manifest is,
      what it is called, and what it declares. */
  datatype Manifest = Manifest(alias: string -> string, at: string, name: string, declared: seq<string>)

  function Relative(parent: string, name: string): string { if parent == "" then name else parent + "/" + name }

  /** An entry, its path from the root and the depth of the directory it is in. */
  datatype Found = Found(path: string, depth: nat, entry: Entry)

  predicate IsOutput(found: Found, manifest: Manifest) { found.entry.File? && found.path != manifest.at }

  /** An entry the scan has nothing to say about by itself. */
  predicate IsSound(found: Found, manifest: Manifest, directories: set<string>) {
    match found.entry
    case File => found.path == manifest.at || IsCanonical(found.path)
    case Symlink => false
    case Other => false
    case Directory(_, hasCanonicalPath) => found.path in directories && found.depth < MAX_DEPTH && hasCanonicalPath
  }

  predicate InChild(child: Child, parent: string, depth: nat, found: Found)
    decreases child, 0
  {
    var path := Relative(parent, child.name);
    || found == Found(path, depth, child.entry)
    || (child.entry.Directory? && InChildren(child.entry.children, path, depth + 1, found))
  }

  /** Some entry below a directory. */
  predicate InChildren(children: seq<Child>, parent: string, depth: nat, found: Found)
    decreases children, 1
  {
    exists i :: 0 <= i < |children| && InChild(children[i], parent, depth, found)
  }

  // ------------------------------------------------------------------ what a scan has to say

  datatype Reason =
    | NonCanonicalDeclaration(path: string)
    | DeclaredAlias(path: string)
    | SymlinkFound(path: string)
    | UndeclaredDirectory(path: string)
    | NonFileFound(path: string)
    | NonCanonicalFile(path: string)
    | FileAlias(path: string)
    | Undeclared(path: string)
    | Missing(path: string)
    | FailedClosed(why: Failure)

  datatype Failure = TooManyEntries | TooDeep | NonCanonicalRealPath(path: string)

  /** The entry is what the reason says of its path. */
  predicate IsReasonFor(reason: Reason, found: Found, manifest: Manifest, directories: set<string>) {
    match reason
    case SymlinkFound(path) => path == found.path && found.entry.Symlink?
    case NonFileFound(path) => path == found.path && found.entry.Other?
    case UndeclaredDirectory(path) => path == found.path && found.entry.Directory? && path !in directories
    case NonCanonicalFile(path) => path == found.path && IsOutput(found, manifest) && !IsCanonical(path)
    case _ => false
  }

  predicate IsFailureFor(failure: Failure, found: Found) {
    match failure
    case TooDeep => found.entry.Directory? && found.depth >= 32
    case NonCanonicalRealPath(path) =>
      path == found.path && found.entry.Directory? && !found.entry.hasCanonicalPath
    case _ => false
  }

  function ReasonsFor(found: Found, manifest: Manifest, directories: set<string>): set<Reason> {
    set r | r in {SymlinkFound(found.path), NonFileFound(found.path), UndeclaredDirectory(found.path),
                  NonCanonicalFile(found.path)} && IsReasonFor(r, found, manifest, directories)
  }

  function FailuresFor(found: Found): set<Failure> {
    set f | f in {TooDeep, NonCanonicalRealPath(found.path)} && IsFailureFor(f, found)
  }

  // ------------------------------------------------------------------ what a scan adds up to

  /** How many entries, what is to be said of them, the output files, and how often each alias. */
  datatype Summary = Summary(count: nat, reasons: set<Reason>, failures: set<Failure>, files: set<string>,
                             aliases: multiset<string>)
  {
    function Plus(other: Summary): Summary {
      Summary(count + other.count, reasons + other.reasons, failures + other.failures, files + other.files,
              aliases + other.aliases)
    }

    /** Nothing is to be said of any entry. */
    predicate IsSilent() { reasons == {} && failures == {} }

    predicate HasClash() { exists a :: a in aliases && aliases[a] > 1 }

    /** What a scan accepts. */
    predicate IsAcceptable() { count <= MAX_ENTRIES && IsSilent() && !HasClash() }
  }

  const NOTHING := Summary(0, {}, {}, {}, multiset{})

  function OfFound(found: Found, manifest: Manifest, directories: set<string>): Summary {
    var outputs := IsOutput(found, manifest);
    Summary(1, ReasonsFor(found, manifest, directories), FailuresFor(found), if outputs then {found.path} else {},
            if outputs then multiset{manifest.alias(found.path)} else multiset{})
  }

  /** Nothing is to be said of an entry exactly when it is sound. */
  lemma SoundIsSilent(found: Found, manifest: Manifest, directories: set<string>)
    ensures IsSound(found, manifest, directories) <==> OfFound(found, manifest, directories).IsSilent()
  {
    var reasons, failures := ReasonsFor(found, manifest, directories), FailuresFor(found);
    assert forall r :: r in reasons <==> IsReasonFor(r, found, manifest, directories);
    assert forall f :: f in failures <==> IsFailureFor(f, found);
    if !IsSound(found, manifest, directories) {
      match found.entry {
        case File => assert NonCanonicalFile(found.path) in reasons;
        case Symlink => assert SymlinkFound(found.path) in reasons;
        case Other => assert NonFileFound(found.path) in reasons;
        case Directory(_, _) =>
          assert UndeclaredDirectory(found.path) in reasons || TooDeep in failures
              || NonCanonicalRealPath(found.path) in failures;
      }
    }
  }

  function OfChild(child: Child, parent: string, depth: nat, manifest: Manifest, directories: set<string>): Summary
    decreases child, 0
  {
    var path := Relative(parent, child.name);
    OfFound(Found(path, depth, child.entry), manifest, directories)
      .Plus(if child.entry.Directory? then OfChildren(child.entry.children, path, depth + 1, manifest, directories)
            else NOTHING)
  }

  function OfChildren(children: seq<Child>, parent: string, depth: nat, manifest: Manifest,
                      directories: set<string>): Summary
    decreases children, 1
  {
    if children == [] then NOTHING
    else
      OfChild(children[0], parent, depth, manifest, directories)
        .Plus(OfChildren(children[1..], parent, depth, manifest, directories))
  }

  /** A directory whose entries are still to be read. */
  datatype ScanNode = ScanNode(children: seq<Child>, path: string, depth: nat)

  function OfPending(pending: seq<ScanNode>, manifest: Manifest, directories: set<string>): Summary {
    if pending == [] then NOTHING
    else
      var node := pending[0];
      OfChildren(node.children, node.path, node.depth, manifest, directories)
        .Plus(OfPending(pending[1..], manifest, directories))
  }

  lemma PlusAssociates(a: Summary, b: Summary, c: Summary)
    ensures a.Plus(b).Plus(c) == a.Plus(b.Plus(c))
  {}

  lemma {:induction false} OfPendingConcat(a: seq<ScanNode>, b: seq<ScanNode>, manifest: Manifest,
                                           directories: set<string>)
    ensures OfPending(a + b, manifest, directories)
         == OfPending(a, manifest, directories).Plus(OfPending(b, manifest, directories))
    decreases |a|
  {
    if a == [] {
      assert a + b == b;
    } else {
      assert (a + b)[1..] == a[1..] + b && (a + b)[0] == a[0];
      OfPendingConcat(a[1..], b, manifest, directories);
      var first := SameHead(a, a + b, manifest, directories);
      PlusAssociates(first, OfPending(a[1..], manifest, directories), OfPending(b, manifest, directories));
    }
  }

  lemma {:induction false} SameHead(a: seq<ScanNode>, b: seq<ScanNode>, manifest: Manifest, directories: set<string>)
      returns (first: Summary)
    requires a != [] && b != [] && a[0] == b[0]
    ensures OfPending(a, manifest, directories) == first.Plus(OfPending(a[1..], manifest, directories))
    ensures OfPending(b, manifest, directories) == first.Plus(OfPending(b[1..], manifest, directories))
  {
    first := OfChildren(a[0].children, a[0].path, a[0].depth, manifest, directories);
  }

  // ------------------------------------------------------------------ what the sum means

  /** What is to be said is what is to be said of some entry below, and the files are the output
      files below. */
  ghost predicate Means(summary: Summary, children: seq<Child>, parent: string, depth: nat, manifest: Manifest,
                        directories: set<string>)
  {
    && (forall r :: r in summary.reasons <==> IsReasonBelow(r, children, parent, depth, manifest, directories))
    && (forall f :: f in summary.failures <==> IsFailureBelow(f, children, parent, depth))
    && (forall path :: path in summary.files <==> IsOutputBelow(children, parent, depth, manifest, path))
  }

  ghost predicate IsReasonBelow(reason: Reason, children: seq<Child>, parent: string, depth: nat, manifest: Manifest,
                                directories: set<string>)
  {
    exists f :: InChildren(children, parent, depth, f) && IsReasonFor(reason, f, manifest, directories)
  }

  ghost predicate IsFailureBelow(failure: Failure, children: seq<Child>, parent: string, depth: nat) {
    exists f :: InChildren(children, parent, depth, f) && IsFailureFor(failure, f)
  }

  ghost predicate IsOutputBelow(children: seq<Child>, parent: string, depth: nat, manifest: Manifest, path: string) {
    exists f :: InChildren(children, parent, depth, f) && IsOutput(f, manifest) && f.path == path
  }

  lemma InFirstOrRest(children: seq<Child>, parent: string, depth: nat, found: Found)
    requires children != []
    ensures InChildren(children, parent, depth, found)
        <==> InChild(children[0], parent, depth, found) || InChildren(children[1..], parent, depth, found)
  {
    var rest := children[1..];
    if InChildren(rest, parent, depth, found) {
      var i :| 0 <= i < |rest| && InChild(rest[i], parent, depth, found);
      assert InChild(children[i + 1], parent, depth, found);
    }
    if InChildren(children, parent, depth, found) {
      var i :| 0 <= i < |children| && InChild(children[i], parent, depth, found);
      assert i > 0 ==> InChild(rest[i - 1], parent, depth, found);
    }
  }

  /** The same for one child. */
  ghost predicate MeansOfChild(summary: Summary, child: Child, parent: string, depth: nat, manifest: Manifest,
                               directories: set<string>)
  {
    && (forall r :: r in summary.reasons
          <==> exists f :: InChild(child, parent, depth, f) && IsReasonFor(r, f, manifest, directories))
    && (forall w :: w in summary.failures <==> exists f :: InChild(child, parent, depth, f) && IsFailureFor(w, f))
    && (forall path :: path in summary.files
          <==> exists f :: InChild(child, parent, depth, f) && IsOutput(f, manifest) && f.path == path)
  }

  lemma OwnMeans(found: Found, manifest: Manifest, directories: set<string>)
    ensures var own := OfFound(found, manifest, directories);
            && (forall r :: r in own.reasons <==> IsReasonFor(r, found, manifest, directories))
            && (forall w :: w in own.failures <==> IsFailureFor(w, found))
            && (forall path :: path in own.files <==> IsOutput(found, manifest) && found.path == path)
  {}

  /** An entry and what is below it mean what they say together. */
  lemma OwnAndBelow(child: Child, parent: string, depth: nat, manifest: Manifest, directories: set<string>,
                    below: Summary)
    requires child.entry.Directory?
    requires Means(below, child.entry.children, Relative(parent, child.name), depth + 1, manifest, directories)
    ensures var own := OfFound(Found(Relative(parent, child.name), depth, child.entry), manifest, directories);
            MeansOfChild(own.Plus(below), child, parent, depth, manifest, directories)
  {
    var path := Relative(parent, child.name);
    var found := Found(path, depth, child.entry);
    OwnMeans(found, manifest, directories);
    forall f ensures InChild(child, parent, depth, f)
                <==> f == found || InChildren(child.entry.children, path, depth + 1, f) {}
  }

  lemma {:induction false} ChildMeans(child: Child, parent: string, depth: nat, manifest: Manifest,
                                      directories: set<string>)
    ensures MeansOfChild(OfChild(child, parent, depth, manifest, directories), child, parent, depth, manifest,
                         directories)
    decreases child, 0
  {
    var path := Relative(parent, child.name);
    if child.entry.Directory? {
      ChildrenMean(child.entry.children, path, depth + 1, manifest, directories);
      OwnAndBelow(child, parent, depth, manifest, directories,
                  OfChildren(child.entry.children, path, depth + 1, manifest, directories));
    } else {
      OwnMeans(Found(path, depth, child.entry), manifest, directories);
      assert InChild(child, parent, depth, Found(path, depth, child.entry));
    }
  }

  lemma {:induction false} ChildrenMean(children: seq<Child>, parent: string, depth: nat, manifest: Manifest,
                                        directories: set<string>)
    ensures Means(OfChildren(children, parent, depth, manifest, directories), children, parent, depth, manifest,
                  directories)
    decreases children, 1
  {
    if children != [] {
      ChildMeans(children[0], parent, depth, manifest, directories);
      ChildrenMean(children[1..], parent, depth, manifest, directories);
      forall f ensures InChildren(children, parent, depth, f)
                  <==> InChild(children[0], parent, depth, f) || InChildren(children[1..], parent, depth, f)
      {
        InFirstOrRest(children, parent, depth, f);
      }
    }
  }

  /** What is to be said of an entry below is said. */
  lemma SaidOfEach(whole: Summary, children: seq<Child>, parent: string, depth: nat, manifest: Manifest,
                   directories: set<string>, found: Found)
    requires Means(whole, children, parent, depth, manifest, directories) && InChildren(children, parent, depth, found)
    ensures ReasonsFor(found, manifest, directories) <= whole.reasons && FailuresFor(found) <= whole.failures
  {
    forall r | r in ReasonsFor(found, manifest, directories) ensures r in whole.reasons {
      assert IsReasonBelow(r, children, parent, depth, manifest, directories);
    }
    forall w | w in FailuresFor(found) ensures w in whole.failures {
      assert IsFailureBelow(w, children, parent, depth);
    }
  }

  /** Nothing is to be said of a tree if and only if every entry at every depth is sound. */
  lemma SilentMeans(children: seq<Child>, parent: string, depth: nat, manifest: Manifest, directories: set<string>)
    ensures OfChildren(children, parent, depth, manifest, directories).IsSilent()
        <==> forall f :: InChildren(children, parent, depth, f) ==> IsSound(f, manifest, directories)
  {
    var whole := OfChildren(children, parent, depth, manifest, directories);
    ChildrenMean(children, parent, depth, manifest, directories);
    if whole.IsSilent() {
      forall f | InChildren(children, parent, depth, f) ensures IsSound(f, manifest, directories) {
        SaidOfEach(whole, children, parent, depth, manifest, directories, f);
        SoundIsSilent(f, manifest, directories);
      }
    } else {
      var f := SomeUnsound(whole, children, parent, depth, manifest, directories);
    }
  }

  lemma SomeUnsound(whole: Summary, children: seq<Child>, parent: string, depth: nat, manifest: Manifest,
                    directories: set<string>) returns (found: Found)
    requires Means(whole, children, parent, depth, manifest, directories) && !whole.IsSilent()
    ensures InChildren(children, parent, depth, found) && !IsSound(found, manifest, directories)
  {
    if whole.reasons != {} {
      var r :| r in whole.reasons;
      assert IsReasonBelow(r, children, parent, depth, manifest, directories);
      found :| InChildren(children, parent, depth, found) && IsReasonFor(r, found, manifest, directories);
    } else {
      var w :| w in whole.failures;
      assert IsFailureBelow(w, children, parent, depth);
      found :| InChildren(children, parent, depth, found) && IsFailureFor(w, found);
    }
  }
}
