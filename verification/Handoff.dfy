/** The handoff package plan (src/release/handoff.ts). */
module Handoff {
  // Every listed source goes to one kind of output, under a target name no other file has.
  import opened CoordinateFormat
  import opened Collections

  /** The sources each kind of output lists. */
  type Outputs = map<string, seq<string>>

  datatype HandoffFile = HandoffFile(output: string, source: string, target: string)

  datatype HandoffPlan = HandoffPlan(files: seq<HandoffFile>, included: seq<string>, missing: seq<string>)

  /** The orders the plan is put in; only that each keeps what it orders matters here. */
  datatype Orders = Orders(names: seq<string> -> seq<string>, files: seq<HandoffFile> -> seq<HandoffFile>) {
    ghost predicate OnlyOrder() {
      (forall s :: IsPermutation(s, names(s))) && (forall s :: IsPermutation(s, files(s)))
    }
  }

  function OutputDirectory(kind: string): string {
    if kind == "gerber" then "gerbers"
    else if kind == "drill" then "drill"
    else if kind == "bom" then "bom"
    else if kind == "position" then "assembly"
    else if kind == "pdf" || kind == "step" then "documentation"
    else "other"
  }

  /** What follows the last slash. */
  function BaseName(source: string): string {
    if source == "" then ""
    else if '/' in source then BaseName(source[1..])
    else source
  }

  // ------------------------------------------------------------------ candidate names

  /** The decimal digits of a number. */
  function Numeral(n: nat): string {
    if n < 10 then [('0' as int + n) as char] else Numeral(n / 10) + [('0' as int + n % 10) as char]
  }

  /** The digits of a number spell it, so no two numbers share them. */
  lemma {:induction false} NumeralSpells(n: nat)
    ensures WholeNumber(Numeral(n)) == n
  {
    var digits := Numeral(n);
    if n >= 10 {
      NumeralSpells(n / 10);
      assert digits[..|digits| - 1] == Numeral(n / 10);
    } else {
      assert digits[..0] == "";
    }
  }

  /** Where the extension starts: the last dot, unless there is none or it comes first. */
  function ExtensionAt(name: string): (at: nat)
    ensures at <= |name|
  {
    var dot := LastDot(name, |name|);
    if dot > 0 then dot else |name|
  }

  function LastDot(name: string, n: nat): (at: int)
    requires n <= |name|
    ensures -1 <= at < |name|
  {
    if n == 0 then -1 else if name[n - 1] == '.' then n - 1 else LastDot(name, n - 1)
  }

  /** The name itself, then the name with a number before its extension, from 2 up. */
  function Candidate(directory: string, name: string, counter: nat): string {
    var at := ExtensionAt(name);
    if counter < 2 then directory + "/" + name
    else directory + "/" + name[..at] + "-" + Numeral(counter) + name[at..]
  }

  /** A base name is what stands behind the last slash, all of a source without one. */
  lemma {:induction false} BaseNameIs(source: string) returns (at: nat)
    ensures at <= |source| && BaseName(source) == source[at..] && '/' !in source[at..]
    ensures at > 0 ==> source[at - 1] == '/'
    decreases |source|
  {
    at := 0;
    if '/' in source {
      at := BaseNameIs(source[1..]);
      at := at + 1;
      assert source[at..] == source[1..][at - 1..];
      if at == 1 {
        assert source == [source[0]] + source[1..];
      }
    }
  }

  lemma {:induction false} LastDotIs(name: string, n: nat)
    requires n <= |name|
    ensures LastDot(name, n) < n && forall k :: LastDot(name, n) < k < n ==> name[k] != '.'
    ensures LastDot(name, n) >= 0 ==> name[LastDot(name, n)] == '.'
  {
    if n > 0 {
      LastDotIs(name, n - 1);
    }
  }

  /** A candidate is the name, or the name with a counter from 2 up in front of its extension: its
      last dot and what follows, unless nothing stands before that dot. */
  lemma CandidateIsNamed(directory: string, name: string, counter: nat) returns (stem: string, extension: string)
    requires counter >= 1
    ensures name == stem + extension
    ensures extension == "" ==> '.' !in name[if name == "" then 0 else 1..]
    ensures extension != "" ==> stem != "" && extension[0] == '.' && '.' !in extension[1..]
    ensures Candidate(directory, name, counter)
         == directory + "/" + (if counter == 1 then name else stem + "-" + Numeral(counter) + extension)
  {
    var at := ExtensionAt(name);
    stem, extension := name[..at], name[at..];
    LastDotIs(name, |name|);
    if counter > 1 {
      var front := directory + "/";
      assert front + stem + "-" + Numeral(counter) + extension == front + (stem + "-" + Numeral(counter) + extension);
    }
  }

  lemma SameMiddle(front: string, a: string, b: string, back: string)
    requires front + a + back == front + b + back
    ensures a == b
  {
    var whole := front + a + back;
    assert |a| == |b|;
    assert whole[|front|..|front| + |a|] == a;
    assert (front + b + back)[|front|..|front| + |b|] == b;
  }

  /** Different counters give different names. */
  lemma CandidatesDiffer(directory: string, name: string, i: nat, j: nat)
    requires 1 <= i < j
    ensures Candidate(directory, name, i) != Candidate(directory, name, j)
  {
    var at := ExtensionAt(name);
    if i == 1 {
      assert |Candidate(directory, name, j)| > |Candidate(directory, name, i)|;
    } else {
      NumeralSpells(i);
      NumeralSpells(j);
      if Candidate(directory, name, i) == Candidate(directory, name, j) {
        SameMiddle(directory + "/" + name[..at] + "-", Numeral(i), Numeral(j), name[at..]);
      }
    }
  }

  /** The counter of a target is the first whose name was free. */
  predicate IsFirstFree(directory: string, name: string, used: set<string>, counter: nat) {
    && Candidate(directory, name, counter) !in used
    && forall k :: 1 <= k < counter ==> Candidate(directory, name, k) in used
  }

  // ------------------------------------------------------------------ what a plan owes

  function Sources(outputs: Outputs, kind: string): seq<string> {
    if kind in outputs then outputs[kind] else []
  }

  predicate Lists(outputs: Outputs, kinds: seq<string>, i: nat, source: string) {
    i < |kinds| && source in Sources(outputs, kinds[i])
  }

  /** Some kind lists the source. */
  predicate IsListed(outputs: Outputs, kinds: seq<string>, source: string) {
    exists i :: 0 <= i < |kinds| && Lists(outputs, kinds, i, source)
  }

  /** A kind is the first in order that lists the source. */
  predicate IsFirstKind(outputs: Outputs, kinds: seq<string>, i: nat, source: string, kind: string) {
    && i < |kinds| && kinds[i] == kind && Lists(outputs, kinds, i, source)
    && forall j :: 0 <= j < i ==> !Lists(outputs, kinds, j, source)
  }

  predicate GoesToFirstKind(outputs: Outputs, kinds: seq<string>, file: HandoffFile) {
    exists i :: 0 <= i < |kinds| && IsFirstKind(outputs, kinds, i, file.source, file.output)
  }

  /** A target is in the directory of its kind, named after its source. */
  ghost predicate IsNamedAfterSource(file: HandoffFile) {
    exists counter: nat ::
      counter >= 1 && file.target == Candidate(OutputDirectory(file.output), BaseName(file.source), counter)
  }

  predicate HasFileFor(files: seq<HandoffFile>, source: string) { exists f :: f in files && f.source == source }

  /** Targets and sources occur once, and each file is of the first kind that lists its source. */
  ghost predicate AreAssigned(outputs: Outputs, kinds: seq<string>, files: seq<HandoffFile>) {
    && DistinctBy(files, (f: HandoffFile) => f.target)
    && DistinctBy(files, (f: HandoffFile) => f.source)
    && (forall f :: f in files ==> GoesToFirstKind(outputs, kinds, f) && IsNamedAfterSource(f))
  }

  lemma OneMoreAssigned(outputs: Outputs, kinds: seq<string>, files: seq<HandoffFile>, file: HandoffFile)
    requires AreAssigned(outputs, kinds, files)
    requires GoesToFirstKind(outputs, kinds, file) && IsNamedAfterSource(file)
    requires forall f :: f in files ==> f.target != file.target && f.source != file.source
    ensures AreAssigned(outputs, kinds, files + [file])
  {
    DistinctOneMore(files, file, (f: HandoffFile) => f.target);
    DistinctOneMore(files, file, (f: HandoffFile) => f.source);
  }

  lemma OneMoreRecorded(files: seq<HandoffFile>, file: HandoffFile)
    ensures (set f | f in files + [file] :: f.target) == (set f | f in files :: f.target) + {file.target}
    ensures (set f | f in files + [file] :: f.source) == (set f | f in files :: f.source) + {file.source}
    ensures (set f | f in files + [file] :: f.output) == (set f | f in files :: f.output) + {file.output}
  {
    assert forall f :: f in files + [file] <==> f in files || f == file;
  }

  ghost predicate IsAssignment(outputs: Outputs, kinds: seq<string>, files: seq<HandoffFile>) {
    && AreAssigned(outputs, kinds, files)
    && (forall source :: IsListed(outputs, kinds, source) ==> HasFileFor(files, source))
  }

  // ------------------------------------------------------------------ the program

  class HandoffPlanner {
    var taken: set<string>
    var used: set<string>
    var present: set<string>
    var files: seq<HandoffFile>

    constructor ()
      ensures taken == {} && used == {} && present == {} && files == []
    {
      taken, used, present, files := {}, {}, {}, [];
    }

    /** The first free name, found within one more try than there are used names. */
    method UniqueTarget(directory: string, name: string) returns (target: string, ghost counter: nat)
      modifies this`used
      ensures 1 <= counter <= |old(used)| + 1
      ensures target == Candidate(directory, name, counter) && IsFirstFree(directory, name, old(used), counter)
      ensures used == old(used) + {target}
    {
      var at := ExtensionAt(name);
      var candidate := directory + "/" + name;
      var next := 2;
      ghost var tried: set<string> := {};
      while candidate in used
        invariant used == old(used) && next >= 2 && candidate == Candidate(directory, name, next - 1)
        invariant forall k :: 1 <= k < next - 1 ==> Candidate(directory, name, k) in used
        invariant tried <= used && |tried| == next - 2
        invariant tried == set k | 1 <= k < next - 1 :: Candidate(directory, name, k)
        decreases used - tried
      {
        TriedIsNew(directory, name, next - 1);
        TriedOneMore(directory, name, next - 1);
        tried := tried + {candidate};
        candidate := directory + "/" + name[..at] + "-" + Numeral(next) + name[at..];
        next := next + 1;
      }
      SubsetSize(tried, used);
      used := used + {candidate};
      return candidate, next - 1;
    }

    /** What was taken so far, from some sources of the kinds reached. */
    ghost predicate Assigns(outputs: Outputs, kinds: seq<string>)
      reads this
    {
      && AreAssigned(outputs, kinds, files)
      && used == (set f | f in files :: f.target)
      && taken == (set f | f in files :: f.source)
      && present == (set f | f in files :: f.output)
    }

    /** A file of a kind, under a free name of its source. */
    method NameFile(kind: string, source: string) returns (file: HandoffFile)
      modifies this`used
      ensures file.output == kind && file.source == source && IsNamedAfterSource(file)
      ensures file.target !in old(used) && used == old(used) + {file.target}
    {
      var target;
      ghost var counter;
      target, counter := UniqueTarget(OutputDirectory(kind), BaseName(source));
      file := HandoffFile(kind, source, target);
    }

    /** Assigns one source of a kind, unless it was taken before. */
    method Assign(outputs: Outputs, kinds: seq<string>, i: nat, source: string)
      requires Assigns(outputs, kinds) && Lists(outputs, kinds, i, source) && AreTaken(outputs, kinds, i, taken)
      modifies this
      ensures Assigns(outputs, kinds) && taken == old(taken) + {source}
    {
      if source in taken {
        return;
      }
      ghost var before := taken;
      taken := taken + {source};
      present := present + {kinds[i]};
      var file := NameFile(kinds[i], source);
      OneMoreFile(outputs, kinds, i, files, file, before, old(used));
      files := files + [file];
    }
  }

  /** The sources of the first kinds are taken. */
  ghost predicate AreTaken(outputs: Outputs, kinds: seq<string>, n: nat, taken: set<string>) {
    forall j: nat, source :: j < n && Lists(outputs, kinds, j, source) ==> source in taken
  }

  lemma OneMoreFile(outputs: Outputs, kinds: seq<string>, i: nat, files: seq<HandoffFile>, file: HandoffFile,
                    taken: set<string>, used: set<string>)
    requires AreAssigned(outputs, kinds, files) && AreTaken(outputs, kinds, i, taken)
    requires Lists(outputs, kinds, i, file.source) && file.output == kinds[i] && IsNamedAfterSource(file)
    requires taken == (set f | f in files :: f.source) && used == (set f | f in files :: f.target)
    requires file.source !in taken && file.target !in used
    ensures AreAssigned(outputs, kinds, files + [file])
    ensures (set f | f in files + [file] :: f.target) == used + {file.target}
    ensures (set f | f in files + [file] :: f.source) == taken + {file.source}
    ensures (set f | f in files + [file] :: f.output) == (set f | f in files :: f.output) + {file.output}
  {
    FirstKind(outputs, kinds, i, file, taken);
    assert forall f :: f in files ==> f.target in used && f.source in taken;
    OneMoreAssigned(outputs, kinds, files, file);
    OneMoreRecorded(files, file);
  }

  lemma FirstKind(outputs: Outputs, kinds: seq<string>, i: nat, file: HandoffFile, taken: set<string>)
    requires Lists(outputs, kinds, i, file.source) && AreTaken(outputs, kinds, i, taken) && file.source !in taken
    requires file.output == kinds[i]
    ensures GoesToFirstKind(outputs, kinds, file)
  {
    assert IsFirstKind(outputs, kinds, i, file.source, file.output);
  }

  lemma OneMoreKindTaken(outputs: Outputs, kinds: seq<string>, i: nat, sources: seq<string>, taken: set<string>)
    requires AreSourcesOf(outputs, kinds, i, sources)
    requires AreTaken(outputs, kinds, i, taken) && FirstTaken(sources, |sources|, taken)
    ensures AreTaken(outputs, kinds, i + 1, taken)
  {}

  lemma MoreTaken(outputs: Outputs, kinds: seq<string>, i: nat, sources: seq<string>, k: nat, taken: set<string>)
    requires AreTaken(outputs, kinds, i, taken) && FirstTaken(sources, k, taken) && k < |sources|
    ensures AreTaken(outputs, kinds, i, taken + {sources[k]})
    ensures FirstTaken(sources, k + 1, taken + {sources[k]})
  {}

  lemma TriedIsNew(directory: string, name: string, counter: nat)
    requires counter >= 1
    ensures Candidate(directory, name, counter) !in (set k | 1 <= k < counter :: Candidate(directory, name, k))
  {
    forall k | 1 <= k < counter ensures Candidate(directory, name, k) != Candidate(directory, name, counter) {
      CandidatesDiffer(directory, name, k, counter);
    }
  }

  lemma TriedOneMore(directory: string, name: string, counter: nat)
    requires counter >= 1
    ensures (set k | 1 <= k < counter + 1 :: Candidate(directory, name, k))
         == (set k | 1 <= k < counter :: Candidate(directory, name, k)) + {Candidate(directory, name, counter)}
  {}

  // ------------------------------------------------------------------ the plan

  /** Kinds in the order they are served: those required, then the others. */
  ghost predicate IsServingOrder(kinds: seq<string>, outputs: Outputs, required: seq<string>) {
    && required <= kinds
    && (forall kind :: kind in kinds <==> kind in required || kind in outputs)
  }

  /** The kinds that gave a file, and the required ones that did not. */
  ghost predicate ReportsKinds(plan: HandoffPlan, required: seq<string>) {
    && (forall kind :: kind in plan.included <==> exists f :: f in plan.files && f.output == kind)
    && (forall kind :: kind in plan.missing <==> kind in required && kind !in plan.included)
  }

  /** Some sources, in whatever order, are those of a kind. */
  ghost predicate AreSourcesOf(outputs: Outputs, kinds: seq<string>, i: nat, sources: seq<string>) {
    i < |kinds| && forall source :: source in sources <==> Lists(outputs, kinds, i, source)
  }

  predicate FirstTaken(sources: seq<string>, n: nat, taken: set<string>) {
    n <= |sources| && forall m :: 0 <= m < n ==> sources[m] in taken
  }

  /** Assigns the sources of one kind. */
  method AssignKind(planner: HandoffPlanner, outputs: Outputs, kinds: seq<string>, i: nat, sources: seq<string>)
    requires AreSourcesOf(outputs, kinds, i, sources)
    requires planner.Assigns(outputs, kinds) && AreTaken(outputs, kinds, i, planner.taken)
    modifies planner
    ensures planner.Assigns(outputs, kinds) && AreTaken(outputs, kinds, i + 1, planner.taken)
  {
    for k := 0 to |sources|
      invariant planner.Assigns(outputs, kinds) && AreTaken(outputs, kinds, i, planner.taken)
      invariant FirstTaken(sources, k, planner.taken)
    {
      OfThisKind(outputs, kinds, i, sources, k);
      ghost var before := planner.taken;
      planner.Assign(outputs, kinds, i, sources[k]);
      MoreTaken(outputs, kinds, i, sources, k, before);
    }
    OneMoreKindTaken(outputs, kinds, i, sources, planner.taken);
  }

  lemma OfThisKind(outputs: Outputs, kinds: seq<string>, i: nat, sources: seq<string>, k: nat)
    requires AreSourcesOf(outputs, kinds, i, sources) && k < |sources|
    ensures Lists(outputs, kinds, i, sources[k])
  {
    assert sources[k] in sources;
  }

  /** The files of a package, before they are put in order. */
  method AssignAll(outputs: Outputs, kinds: seq<string>, orders: Orders) returns (planner: HandoffPlanner)
    requires orders.OnlyOrder()
    ensures fresh(planner) && planner.Assigns(outputs, kinds) && IsAssignment(outputs, kinds, planner.files)
  {
    planner := new HandoffPlanner();
    for i := 0 to |kinds|
      invariant fresh(planner) && planner.Assigns(outputs, kinds) && AreTaken(outputs, kinds, i, planner.taken)
    {
      var sources := orders.names(Sources(outputs, kinds[i]));
      SameMembers(Sources(outputs, kinds[i]), sources);
      AssignKind(planner, outputs, kinds, i, sources);
    }
    forall source | IsListed(outputs, kinds, source) ensures HasFileFor(planner.files, source) {
      assert source in planner.taken;
    }
  }

  method SequenceOf(names: set<string>) returns (listed: seq<string>)
    ensures forall name :: name in listed <==> name in names
    ensures |listed| == |names|
  {
    listed := [];
    var todo := names;
    while todo != {}
      invariant todo <= names && |listed| + |todo| == |names|
      invariant forall name :: name in listed <==> name in names - todo
      decreases todo
    {
      var name :| name in todo;
      listed := listed + [name];
      todo := todo - {name};
    }
  }

  method Missing(required: seq<string>, present: set<string>) returns (missing: seq<string>)
    ensures forall kind :: kind in missing <==> kind in required && kind !in present
  {
    missing := [];
    for i := 0 to |required|
      invariant forall kind :: kind in missing <==> kind in required[..i] && kind !in present
    {
      if required[i] !in present {
        missing := missing + [required[i]];
      }
      assert forall kind :: kind in required[..i + 1] <==> kind in required[..i] || kind == required[i];
    }
    assert required[..|required|] == required;
  }

  /** Kinds in the order they are served: those required, then the others. */
  method ServingOrder(outputs: Outputs, required: seq<string>, orders: Orders) returns (kinds: seq<string>)
    requires orders.OnlyOrder()
    ensures IsServingOrder(kinds, outputs, required)
  {
    var others := SequenceOf(set kind | kind in outputs && kind !in required);
    SameMembers(others, orders.names(others));
    kinds := required + orders.names(others);
  }

  /** The plan of a package: targets are pairwise distinct; every listed source is in it once,
      under the first kind that lists it; and the kinds it includes and misses are reported. */
  method PlanHandoffPackage(outputs: Outputs, required: seq<string>, orders: Orders)
      returns (plan: HandoffPlan, ghost kinds: seq<string>)
    requires orders.OnlyOrder()
    ensures IsServingOrder(kinds, outputs, required)
    ensures IsAssignment(outputs, kinds, plan.files)
    ensures ReportsKinds(plan, required)
  {
    var order := ServingOrder(outputs, required, orders);
    kinds := order;
    var planner := AssignAll(outputs, order, orders);
    var files := orders.files(planner.files);
    OrderedAssignment(outputs, order, planner.files, files);
    SameMembers(planner.files, files);
    var present := SequenceOf(planner.present);
    var missing := Missing(required, planner.present);
    SameMembers(present, orders.names(present));
    SameMembers(missing, orders.names(missing));
    plan := HandoffPlan(files, orders.names(present), orders.names(missing));
  }

  lemma OrderedAssignment(outputs: Outputs, kinds: seq<string>, files: seq<HandoffFile>, sorted: seq<HandoffFile>)
    requires IsAssignment(outputs, kinds, files) && IsPermutation(files, sorted)
    ensures IsAssignment(outputs, kinds, sorted)
  {
    SameMembers(files, sorted);
    PermutedDistinct(files, sorted, (f: HandoffFile) => f.target);
    PermutedDistinct(files, sorted, (f: HandoffFile) => f.source);
    forall source | IsListed(outputs, kinds, source) ensures HasFileFor(sorted, source) {
      assert HasFileFor(files, source);
    }
  }
}
