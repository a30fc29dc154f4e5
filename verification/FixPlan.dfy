/** The fix plan's virtual texts (src/cli/fixes.ts). */
module FixPlan {
  // Changes are planned against an overlay of the files, one entry for each path, and applied to
  // the files afterwards.
  import opened Options
  import opened Collections

  /** How paths are resolved inside the workspace, which file a spelling opens, and how a file is
      named in a plan. */
  datatype Paths = Paths(resolve: string -> Option<string>, opens: string -> string, relative: string -> string) {
    predicate IsTarget(path: string) { resolve(path) == Some(path) }

    /** Resolving is final, a spelling opens what it resolves to, and a target is found again by
        its relative name. */
    ghost predicate AreSound() {
      && (forall path :: resolve(path).Some? ==> IsTarget(resolve(path).value))
      && (forall path :: resolve(path).Some? ==> opens(path) == resolve(path).value)
      && (forall target :: IsTarget(target) ==> resolve(relative(target)) == Some(target))
    }
  }

  /** Rule names are kept sorted and without repetition: a set. */
  datatype Change = Change(path: string, before: Option<string>, after: string, rules: set<string>, summary: string)

  type Disk = map<string, string>

  datatype Plan = Plan(changes: seq<Change>, virtual: map<string, string>)

  const EMPTY_PLAN := Plan([], map[])

  datatype Request = Request(file: string, before: Option<string>, after: string, rules: set<string>, summary: string)

  function Lookup(texts: map<string, string>, path: string): Option<string> {
    if path in texts then Some(texts[path]) else None
  }

  /** The text a target has once the planned changes are counted. */
  function View(disk: Disk, plan: Plan, target: string): Option<string> {
    if target in plan.virtual then Some(plan.virtual[target]) else Lookup(disk, target)
  }

  // ------------------------------------------------------------------ planning one change

  /** The first change of a path, or how many changes there are. */
  function FindChange(changes: seq<Change>, path: string): (i: nat)
    ensures i <= |changes|
    ensures i < |changes| ==> changes[i].path == path
  {
    if changes == [] then 0 else if changes[0].path == path then 0 else 1 + FindChange(changes[1..], path)
  }

  function Extended(change: Change, request: Request): Change {
    change.(after := request.after, rules := change.rules + request.rules,
            summary := change.summary + " " + request.summary)
  }

  function Recorded(changes: seq<Change>, path: string, request: Request): seq<Change> {
    var i := FindChange(changes, path);
    if i < |changes| then changes[i := Extended(changes[i], request)]
    else changes + [Change(path, request.before, request.after, request.rules, request.summary)]
  }

  /** The plan with one more change; none if it would be written outside the workspace. */
  function Planned(plan: Plan, paths: Paths, request: Request): Option<Plan> {
    if request.before == Some(request.after) then Some(plan)
    else
      match paths.resolve(request.file)
      case None => None
      case Some(target) =>
        Some(Plan(Recorded(plan.changes, paths.relative(target), request), plan.virtual[target := request.after]))
  }

  class FixPlanner {
    const paths: Paths
    const disk: Disk
    var changes: seq<Change>
    var virtual: map<string, string>

    constructor (paths: Paths, disk: Disk)
      ensures this.paths == paths && this.disk == disk && State() == EMPTY_PLAN
    {
      this.paths, this.disk := paths, disk;
      changes, virtual := [], map[];
    }

    function State(): Plan
      reads this
    {
      Plan(changes, virtual)
    }

    /** The text planned for a file as it is spelled, or else what the disk has; the spelling, not
        the resolved path, is looked up in the plan. */
    method ReadOptionalVirtualText(file: string) returns (text: Option<string>)
      ensures text == ReadAs(disk, State(), paths, file)
    {
      if file in virtual {
        return Some(virtual[file]);
      }
      if paths.opens(file) !in disk {
        return None;
      }
      return Some(disk[paths.opens(file)]);
    }

    method IndexOfChange(path: string) returns (i: nat)
      ensures i == FindChange(changes, path)
    {
      i := 0;
      while i < |changes| && changes[i].path != path
        invariant i <= |changes| && FindChange(changes, path) == i + FindChange(changes[i..], path)
      {
        i := i + 1;
      }
    }

    /** False if the change would be written outside the workspace. */
    method AddTextChange(request: Request) returns (inside: bool)
      modifies this
      ensures inside == Planned(old(State()), paths, request).Some?
      ensures State() == if inside then Planned(old(State()), paths, request).value else old(State())
    {
      if request.before == Some(request.after) {
        return true;
      }
      var target := paths.resolve(request.file);
      if target.None? {
        return false;
      }
      var relative := paths.relative(target.value);
      var i := IndexOfChange(relative);
      if i < |changes| {
        changes := changes[i := Extended(changes[i], request)];
      } else {
        changes := changes + [Change(relative, request.before, request.after, request.rules, request.summary)];
      }
      virtual := virtual[target.value := request.after];
      return true;
    }
  }

  function ReadAs(disk: Disk, plan: Plan, paths: Paths, file: string): Option<string> {
    if file in plan.virtual then Some(plan.virtual[file]) else Lookup(disk, paths.opens(file))
  }

  // ------------------------------------------------------------------ applying a plan

  function Applied(disk: Disk, paths: Paths, changes: seq<Change>): Disk {
    if changes == [] then disk
    else
      var last := changes[|changes| - 1];
      var before := Applied(disk, paths, changes[..|changes| - 1]);
      match paths.resolve(last.path)
      case None => before
      case Some(target) => before[target := last.after]
  }

  /** The first change outside the workspace, or how many changes there are. */
  function FirstOutside(paths: Paths, changes: seq<Change>): (i: nat)
    ensures i <= |changes| && forall c :: c in changes[..i] ==> paths.resolve(c.path).Some?
    ensures i < |changes| ==> paths.resolve(changes[i].path).None?
  {
    if changes == [] || paths.resolve(changes[0].path).None? then 0
    else
      var i := 1 + FirstOutside(paths, changes[1..]);
      assert changes[..i] == [changes[0]] + changes[1..][..i - 1];
      i
  }

  /** Writes each change before the first that lies outside the workspace, which ends the writing. */
  method ApplyFixPlan(disk: Disk, paths: Paths, changes: seq<Change>) returns (written: Disk, inside: bool)
    ensures inside <==> forall c :: c in changes ==> paths.resolve(c.path).Some?
    ensures written == Applied(disk, paths, changes[..FirstOutside(paths, changes)])
    ensures inside ==> written == Applied(disk, paths, changes)
  {
    written := disk;
    for i := 0 to |changes|
      invariant forall c :: c in changes[..i] ==> paths.resolve(c.path).Some?
      invariant written == Applied(disk, paths, changes[..i])
    {
      var target := paths.resolve(changes[i].path);
      if target.None? {
        assert FirstOutside(paths, changes) == i;
        return written, false;
      }
      assert changes[..i + 1][..i] == changes[..i];
      written := written[target.value := changes[i].after];
    }
    assert changes[..|changes|] == changes;
    assert FirstOutside(paths, changes) == |changes|;
    return written, true;
  }

  // ------------------------------------------------------------------ what planning keeps

  predicate IsFor(change: Change, paths: Paths, target: string) { change.path == paths.relative(target) }

  /** A change is for a target with a planned text, and keeps the file's own text as before. */
  predicate Stands(disk: Disk, virtual: map<string, string>, paths: Paths, change: Change) {
    match paths.resolve(change.path)
    case None => false
    case Some(target) =>
      && IsFor(change, paths, target) && target in virtual
      && change.after == virtual[target] && change.before == Lookup(disk, target)
  }

  predicate HasChange(plan: Plan, paths: Paths, target: string) {
    exists c :: c in plan.changes && IsFor(c, paths, target)
  }

  predicate PathsOnce(changes: seq<Change>) {
    forall i, j :: 0 <= i < j < |changes| ==> changes[i].path != changes[j].path
  }

  /** The plan and the overlay say the same. */
  ghost predicate Agrees(disk: Disk, plan: Plan, paths: Paths) {
    && PathsOnce(plan.changes)
    && (forall i :: 0 <= i < |plan.changes| ==> Stands(disk, plan.virtual, paths, plan.changes[i]))
    && (forall target :: target in plan.virtual ==> paths.IsTarget(target) && HasChange(plan, paths, target))
  }

  lemma {:induction false} FindsChange(changes: seq<Change>, path: string)
    ensures FindChange(changes, path) == |changes| <==> forall c :: c in changes ==> c.path != path
    decreases |changes|
  {
    if changes != [] {
      FindsChange(changes[1..], path);
    }
  }

  /** Whatever the spelling, the text read for a target that has no planned text is its own. */
  lemma ReadTextIsOriginal(disk: Disk, plan: Plan, paths: Paths, file: string)
    requires paths.AreSound() && Agrees(disk, plan, paths) && paths.resolve(file).Some?
    requires paths.resolve(file).value !in plan.virtual
    ensures ReadAs(disk, plan, paths, file) == Lookup(disk, paths.resolve(file).value)
  {
    assert file in plan.virtual ==> paths.IsTarget(file);
  }

  /** A change of a text that was read as the file is spelled keeps plan and overlay in agreement. */
  lemma PlanningKeepsAgreement(disk: Disk, plan: Plan, paths: Paths, request: Request)
    requires paths.AreSound() && Agrees(disk, plan, paths) && Planned(plan, paths, request).Some?
    requires request.before == ReadAs(disk, plan, paths, request.file)
    ensures Agrees(disk, Planned(plan, paths, request).value, paths)
  {
    if request.before != Some(request.after) {
      var target := paths.resolve(request.file).value;
      assert paths.IsTarget(target);
      if target !in plan.virtual {
        ReadTextIsOriginal(disk, plan, paths, request.file);
      }
      RecordingKeepsAgreement(disk, plan, paths, request, target);
    }
  }

  lemma OthersStand(disk: Disk, plan: Plan, paths: Paths, target: string, after: string, change: Change)
    requires paths.AreSound() && paths.IsTarget(target) && change.path != paths.relative(target)
    requires Stands(disk, plan.virtual, paths, change)
    ensures Stands(disk, plan.virtual[target := after], paths, change)
  {}

  lemma RecordingKeepsAgreement(disk: Disk, plan: Plan, paths: Paths, request: Request, target: string)
    requires paths.AreSound() && Agrees(disk, plan, paths) && paths.IsTarget(target)
    requires target !in plan.virtual ==> request.before == Lookup(disk, target)
    ensures Agrees(disk, Plan(Recorded(plan.changes, paths.relative(target), request),
                              plan.virtual[target := request.after]), paths)
  {
    var after := Plan(Recorded(plan.changes, paths.relative(target), request), plan.virtual[target := request.after]);
    RecordedPathsOnce(plan.changes, paths.relative(target), request);
    forall k | 0 <= k < |after.changes| ensures Stands(disk, after.virtual, paths, after.changes[k]) {
      RecordedStands(disk, plan, paths, request, target, k);
    }
    forall t | t in after.virtual ensures paths.IsTarget(t) && HasChange(after, paths, t) {
      StillHasChange(plan, paths, request, target, t);
    }
  }

  lemma RecordedPathsOnce(changes: seq<Change>, path: string, request: Request)
    requires PathsOnce(changes)
    ensures PathsOnce(Recorded(changes, path, request))
  {
    FindsChange(changes, path);
  }

  lemma RecordedStands(disk: Disk, plan: Plan, paths: Paths, request: Request, target: string, k: nat)
    requires paths.AreSound() && Agrees(disk, plan, paths) && paths.IsTarget(target)
    requires target !in plan.virtual ==> request.before == Lookup(disk, target)
    requires k < |Recorded(plan.changes, paths.relative(target), request)|
    ensures Stands(disk, plan.virtual[target := request.after], paths,
                   Recorded(plan.changes, paths.relative(target), request)[k])
  {
    var path := paths.relative(target);
    var i := FindChange(plan.changes, path);
    FindsChange(plan.changes, path);
    assert paths.resolve(path) == Some(target);
    if k == i == |plan.changes| {
      assert target !in plan.virtual;
    } else if k == i {
      assert Stands(disk, plan.virtual, paths, plan.changes[i]);
    } else {
      assert Stands(disk, plan.virtual, paths, plan.changes[k]);
      OthersStand(disk, plan, paths, target, request.after, plan.changes[k]);
    }
  }

  lemma StillHasChange(plan: Plan, paths: Paths, request: Request, target: string, t: string)
    requires paths.IsTarget(target) && (t == target || (t in plan.virtual && HasChange(plan, paths, t)))
    ensures HasChange(Plan(Recorded(plan.changes, paths.relative(target), request),
                           plan.virtual[target := request.after]), paths, t)
  {
    var path := paths.relative(target);
    var i := FindChange(plan.changes, path);
    var changes := Recorded(plan.changes, path, request);
    if t == target {
      assert changes[i] in changes && IsFor(changes[i], paths, t);
    } else {
      var c :| c in plan.changes && IsFor(c, paths, t);
      var k :| 0 <= k < |plan.changes| && plan.changes[k] == c;
      assert changes[k] in changes && IsFor(changes[k], paths, t);
    }
  }

  // ------------------------------------------------------------------ any run of planning

  ghost predicate Plans(states: seq<Plan>, requests: seq<Request>, disk: Disk, paths: Paths, i: nat)
    requires |states| == |requests| + 1 && i < |requests|
  {
    && Planned(states[i], paths, requests[i]) == Some(states[i + 1])
    && requests[i].before == ReadAs(disk, states[i], paths, requests[i].file)
  }

  /** The plans before each request and at the end, where each request changes the text that was
      read under the spelling it uses. */
  ghost predicate IsRun(states: seq<Plan>, requests: seq<Request>, disk: Disk, paths: Paths) {
    && |states| == |requests| + 1 && states[0] == EMPTY_PLAN
    && forall i :: 0 <= i < |requests| ==> Plans(states, requests, disk, paths, i)
  }

  /** Throughout any run each path occurs once, with the original text of its file, and the plan
      says what the overlay says. */
  lemma {:induction false} RunsStayInAgreement(
    states: seq<Plan>, requests: seq<Request>, disk: Disk, paths: Paths, n: nat)
    requires paths.AreSound() && IsRun(states, requests, disk, paths) && n <= |requests|
    ensures Agrees(disk, states[n], paths)
  {
    if n > 0 {
      RunsStayInAgreement(states, requests, disk, paths, n - 1);
      assert Plans(states, requests, disk, paths, n - 1);
      PlanningKeepsAgreement(disk, states[n - 1], paths, requests[n - 1]);
    }
  }

  // ------------------------------------------------------------------ what a change tells of its requests

  function ChangeOf(changes: seq<Change>, path: string): Option<Change> {
    var i := FindChange(changes, path);
    if i < |changes| then Some(changes[i]) else None
  }

  lemma {:induction false} FindAfterUpdate(changes: seq<Change>, i: nat, change: Change, path: string)
    requires i < |changes| && change.path == changes[i].path
    ensures FindChange(changes[i := change], path) == FindChange(changes, path)
    decreases |changes|
  {
    if i > 0 {
      assert changes[i := change][1..] == changes[1..][i - 1 := change];
      FindAfterUpdate(changes[1..], i - 1, change, path);
    } else {
      assert changes[i := change][1..] == changes[1..];
    }
  }

  lemma {:induction false} FindAfterAppend(changes: seq<Change>, change: Change, path: string)
    ensures FindChange(changes + [change], path)
         == if FindChange(changes, path) == |changes| && change.path != path then |changes| + 1
            else FindChange(changes, path)
    decreases |changes|
  {
    if changes == [] {
      assert changes + [change] == [change] && [change][1..] == [];
    } else {
      assert (changes + [change])[1..] == changes[1..] + [change];
      FindAfterAppend(changes[1..], change, path);
    }
  }

  lemma RecordedChange(changes: seq<Change>, asked: string, request: Request, path: string)
    ensures ChangeOf(Recorded(changes, asked, request), path)
         == if path != asked then ChangeOf(changes, path)
            else if ChangeOf(changes, path).Some? then Some(Extended(ChangeOf(changes, path).value, request))
            else Some(Change(path, request.before, request.after, request.rules, request.summary))
  {
    var i := FindChange(changes, asked);
    if i < |changes| {
      FindAfterUpdate(changes, i, Extended(changes[i], request), path);
    } else {
      FindAfterAppend(changes, Change(asked, request.before, request.after, request.rules, request.summary), path);
    }
  }

  /** A request that changes the text of the file a path names. */
  predicate Changes(request: Request, paths: Paths, path: string) {
    && request.before != Some(request.after)
    && paths.resolve(request.file).Some? && paths.relative(paths.resolve(request.file).value) == path
  }

  predicate GivesRule(requests: seq<Request>, paths: Paths, path: string, k: nat, rule: string) {
    k < |requests| && Changes(requests[k], paths, path) && rule in requests[k].rules
  }

  /** The summaries of the requests that change a path, in order. */
  function SummariesOf(requests: seq<Request>, paths: Paths, path: string, n: nat): seq<string>
    requires n <= |requests|
  {
    if n == 0 then []
    else
      SummariesOf(requests, paths, path, n - 1)
      + (if Changes(requests[n - 1], paths, path) then [requests[n - 1].summary] else [])
  }

  function Spaced(texts: seq<string>): string {
    if |texts| == 0 then ""
    else if |texts| == 1 then texts[0]
    else Spaced(texts[..|texts| - 1]) + " " + texts[|texts| - 1]
  }

  predicate SomeGivesRule(requests: seq<Request>, paths: Paths, path: string, n: nat, rule: string) {
    exists k: nat :: k < n && GivesRule(requests, paths, path, k, rule)
  }

  function RulesIn(change: Option<Change>): set<string> { if change.Some? then change.value.rules else {} }

  ghost predicate TellsRules(change: Option<Change>, requests: seq<Request>, paths: Paths, path: string, n: nat) {
    forall rule :: rule in RulesIn(change) <==> SomeGivesRule(requests, paths, path, n, rule)
  }

  predicate Tells(change: Option<Change>, path: string, summaries: seq<string>) {
    && (change.Some? <==> summaries != [])
    && (change.Some? ==> change.value.path == path && change.value.summary == Spaced(summaries))
  }

  /** A path is in the plan if and only if some request changed it, and its change has the rules of
      all of them, and their summaries in order. */
  lemma {:induction false} ChangesTellTheirRequests(
    states: seq<Plan>, requests: seq<Request>, disk: Disk, paths: Paths, n: nat, path: string)
    requires IsRun(states, requests, disk, paths) && n <= |requests|
    ensures Tells(ChangeOf(states[n].changes, path), path, SummariesOf(requests, paths, path, n))
    ensures TellsRules(ChangeOf(states[n].changes, path), requests, paths, path, n)
  {
    if n > 0 {
      var before, after := ChangeOf(states[n - 1].changes, path), ChangeOf(states[n].changes, path);
      ChangesTellTheirRequests(states, requests, disk, paths, n - 1, path);
      ChangeOneMore(states, requests, disk, paths, n - 1, path);
      ChangeTellsRules(before, after, requests, paths, path, n - 1);
      SummaryOneMore(before, after, requests, paths, path, n - 1);
    }
  }

  lemma SummaryOneMore(before: Option<Change>, after: Option<Change>, requests: seq<Request>, paths: Paths,
                       path: string, n: nat)
    requires n < |requests| && Tells(before, path, SummariesOf(requests, paths, path, n))
    requires after == if !Changes(requests[n], paths, path) then before
                      else if before.Some? then Some(Extended(before.value, requests[n]))
                      else Some(Change(path, requests[n].before, requests[n].after, requests[n].rules,
                                       requests[n].summary))
    ensures Tells(after, path, SummariesOf(requests, paths, path, n + 1))
  {
    var summaries := SummariesOf(requests, paths, path, n);
    assert (summaries + [requests[n].summary])[..|summaries|] == summaries;
    assert summaries + [] == summaries;
  }

  lemma ChangeOneMore(
    states: seq<Plan>, requests: seq<Request>, disk: Disk, paths: Paths, n: nat, path: string)
    requires IsRun(states, requests, disk, paths) && n < |requests|
    ensures var before, request := ChangeOf(states[n].changes, path), requests[n];
            ChangeOf(states[n + 1].changes, path)
            == if !Changes(request, paths, path) then before
               else if before.Some? then Some(Extended(before.value, request))
               else Some(Change(path, request.before, request.after, request.rules, request.summary))
  {
    assert Plans(states, requests, disk, paths, n);
    var request := requests[n];
    if request.before != Some(request.after) {
      RecordedChange(states[n].changes, paths.relative(paths.resolve(request.file).value), request, path);
    }
  }

  lemma ChangeTellsRules(before: Option<Change>, after: Option<Change>, requests: seq<Request>, paths: Paths,
                         path: string, n: nat)
    requires n < |requests| && TellsRules(before, requests, paths, path, n)
    requires RulesIn(after) == RulesIn(before) + if Changes(requests[n], paths, path) then requests[n].rules else {}
    ensures TellsRules(after, requests, paths, path, n + 1)
  {
    RulesOneMore(requests, paths, path, n);
  }

  lemma RulesOneMore(requests: seq<Request>, paths: Paths, path: string, n: nat)
    requires n < |requests|
    ensures forall rule :: SomeGivesRule(requests, paths, path, n + 1, rule)
                <==> SomeGivesRule(requests, paths, path, n, rule)
                     || (Changes(requests[n], paths, path) && rule in requests[n].rules)
  {
    forall rule | Changes(requests[n], paths, path) && rule in requests[n].rules
      ensures SomeGivesRule(requests, paths, path, n + 1, rule)
    {
      assert GivesRule(requests, paths, path, n, rule);
    }
  }

  // ------------------------------------------------------------------ applying gives the view

  /** What applying changes leaves at a target: the text of the change for it, if there is one. */
  predicate LeavesAt(disk: Disk, paths: Paths, changes: seq<Change>, written: Disk, target: string) {
    && (forall c :: c in changes && paths.resolve(c.path) == Some(target) ==> Lookup(written, target) == Some(c.after))
    && ((forall c :: c in changes ==> paths.resolve(c.path) != Some(target)) ==>
          Lookup(written, target) == Lookup(disk, target))
  }

  predicate TargetsOnce(paths: Paths, changes: seq<Change>) {
    forall i, j :: 0 <= i < j < |changes| && paths.resolve(changes[i].path).Some? ==>
      paths.resolve(changes[i].path) != paths.resolve(changes[j].path)
  }

  lemma {:induction false} AppliedLeaves(disk: Disk, paths: Paths, changes: seq<Change>, target: string)
    requires TargetsOnce(paths, changes)
    ensures LeavesAt(disk, paths, changes, Applied(disk, paths, changes), target)
    decreases |changes|
  {
    if changes != [] {
      var front, last := changes[..|changes| - 1], changes[|changes| - 1];
      AppliedLeaves(disk, paths, front, target);
      assert forall c :: c in changes <==> c in front || c == last;
      forall c | c in front && paths.resolve(c.path).Some? ensures paths.resolve(c.path) != paths.resolve(last.path) {
        var i :| 0 <= i < |front| && front[i] == c;
        assert changes[i] == c && changes[|changes| - 1] == last;
      }
    }
  }

  /** Applying the plan to the original files, in whatever order it was sorted into, gives exactly
      the virtual view. */
  lemma {:induction false} ApplyingGivesTheView(disk: Disk, plan: Plan, paths: Paths, sorted: seq<Change>)
    requires paths.AreSound() && Agrees(disk, plan, paths) && IsPermutation(plan.changes, sorted)
    ensures Applied(disk, paths, sorted) == disk + plan.virtual
    ensures forall c :: c in sorted ==> paths.resolve(c.path).Some?
  {
    var written, view := Applied(disk, paths, sorted), disk + plan.virtual;
    SortedTargetsOnce(disk, plan, paths, sorted);
    forall target ensures Lookup(written, target) == Lookup(view, target) {
      AppliedLeaves(disk, paths, sorted, target);
      ChangesAt(disk, plan, paths, sorted, target);
    }
    SameLookups(written, view);
  }

  lemma SameLookups(a: map<string, string>, b: map<string, string>)
    requires forall key :: Lookup(a, key) == Lookup(b, key)
    ensures a == b
  {
    assert forall key :: key in a <==> Lookup(a, key).Some?;
    assert forall key :: key in b <==> Lookup(b, key).Some?;
    assert forall key :: key in a ==> Lookup(a, key) == Lookup(b, key);
  }

  /** A target has a change exactly when it has a planned text, and then the same text. */
  lemma ChangesAt(disk: Disk, plan: Plan, paths: Paths, sorted: seq<Change>, target: string)
    requires paths.AreSound() && Agrees(disk, plan, paths) && IsPermutation(plan.changes, sorted)
    ensures target in plan.virtual <==> exists c :: c in sorted && paths.resolve(c.path) == Some(target)
    ensures forall c :: c in sorted && paths.resolve(c.path) == Some(target) ==>
              target in plan.virtual && c.after == plan.virtual[target]
  {
    SameMembers(plan.changes, sorted);
    if target in plan.virtual {
      assert HasChange(plan, paths, target);
      var c :| c in plan.changes && IsFor(c, paths, target);
      assert paths.resolve(c.path) == Some(target);
    }
  }

  lemma SortedTargetsOnce(disk: Disk, plan: Plan, paths: Paths, sorted: seq<Change>)
    requires paths.AreSound() && Agrees(disk, plan, paths) && IsPermutation(plan.changes, sorted)
    ensures TargetsOnce(paths, sorted)
    ensures forall c :: c in sorted ==> paths.resolve(c.path).Some?
  {
    SameMembers(plan.changes, sorted);
    PermutedDistinct(plan.changes, sorted, (c: Change) => c.path);
    forall c | c in sorted ensures Stands(disk, plan.virtual, paths, c) {}
    forall i, j | 0 <= i < j < |sorted| && paths.resolve(sorted[i].path).Some?
      ensures paths.resolve(sorted[i].path) != paths.resolve(sorted[j].path)
    {
      assert Stands(disk, plan.virtual, paths, sorted[i]) && Stands(disk, plan.virtual, paths, sorted[j]);
    }
  }

  // ------------------------------------------------------------------ reading by spelling

  /** After any run, reading a file as it is spelled gives the view of its target if and only if it
      is spelled as resolved, or every change planned for the target leaves it as it was. */
  lemma ReadingGivesTheView(states: seq<Plan>, requests: seq<Request>, disk: Disk, paths: Paths, n: nat, file: string)
    requires paths.AreSound() && IsRun(states, requests, disk, paths) && n <= |requests|
    requires paths.resolve(file).Some?
    ensures var target, plan := paths.resolve(file).value, states[n];
            ReadAs(disk, plan, paths, file) == View(disk, plan, target)
            <==> || file == target
                 || forall c :: c in plan.changes && c.path == paths.relative(target) ==> c.before == Some(c.after)
  {
    RunsStayInAgreement(states, requests, disk, paths, n);
    AgreedReading(disk, states[n], paths, file);
  }

  lemma AgreedReading(disk: Disk, plan: Plan, paths: Paths, file: string)
    requires paths.AreSound() && Agrees(disk, plan, paths) && paths.resolve(file).Some?
    ensures var target := paths.resolve(file).value;
            ReadAs(disk, plan, paths, file) == View(disk, plan, target)
            <==> || file == target
                 || forall c :: c in plan.changes && c.path == paths.relative(target) ==> c.before == Some(c.after)
  {
    var target := paths.resolve(file).value;
    assert paths.IsTarget(target);
    forall c | c in plan.changes && c.path == paths.relative(target)
      ensures target in plan.virtual && Some(c.after) == View(disk, plan, target) && c.before == Lookup(disk, target)
    {
      assert Stands(disk, plan.virtual, paths, c);
    }
    if target in plan.virtual {
      assert HasChange(plan, paths, target);
    }
    assert file in plan.virtual ==> paths.IsTarget(file);
  }

  // ------------------------------------------------------------------ runs that resolve their files

  /** Some request before the n-th was for the target. */
  predicate AskedBefore(requests: seq<Request>, paths: Paths, n: nat, target: string)
    requires n <= |requests|
  {
    exists i :: 0 <= i < n && paths.resolve(requests[i].file) == Some(target)
  }

  /** A file that is spelled as resolved, or that no request before was for. */
  predicate IsReadSafely(requests: seq<Request>, paths: Paths, n: nat, file: string)
    requires n <= |requests|
  {
    match paths.resolve(file)
    case None => false
    case Some(target) => file == target || !AskedBefore(requests, paths, n, target)
  }

  ghost predicate RequestsAreSafe(requests: seq<Request>, paths: Paths) {
    forall i :: 0 <= i < |requests| ==> IsReadSafely(requests, paths, i, requests[i].file)
  }

  lemma {:induction false} PlannedWasAsked(
    states: seq<Plan>, requests: seq<Request>, disk: Disk, paths: Paths, n: nat, target: string)
    requires IsRun(states, requests, disk, paths) && n <= |requests| && target in states[n].virtual
    ensures AskedBefore(requests, paths, n, target)
  {
    if n > 0 {
      assert Plans(states, requests, disk, paths, n - 1);
      if target in states[n - 1].virtual {
        PlannedWasAsked(states, requests, disk, paths, n - 1, target);
      } else {
        assert paths.resolve(requests[n - 1].file) == Some(target);
      }
    }
  }

  /** Every such read sees the planned view. */
  lemma SafeReadGivesTheView(
    states: seq<Plan>, requests: seq<Request>, disk: Disk, paths: Paths, n: nat, file: string)
    requires paths.AreSound() && IsRun(states, requests, disk, paths) && n <= |requests|
    requires IsReadSafely(requests, paths, n, file)
    ensures ReadAs(disk, states[n], paths, file) == View(disk, states[n], paths.resolve(file).value)
  {
    var target := paths.resolve(file).value;
    RunsStayInAgreement(states, requests, disk, paths, n);
    if target in states[n].virtual {
      PlannedWasAsked(states, requests, disk, paths, n, target);
    } else {
      ReadTextIsOriginal(disk, states[n], paths, file);
    }
  }

  /** The text of a target after the first requests: that of the last one for it, or the disk's. */
  function LastText(requests: seq<Request>, disk: Disk, paths: Paths, n: nat, target: string): Option<string>
    requires n <= |requests|
  {
    if n == 0 then Lookup(disk, target)
    else if paths.resolve(requests[n - 1].file) == Some(target) then Some(requests[n - 1].after)
    else LastText(requests, disk, paths, n - 1, target)
  }

  lemma ViewOneMore(
    states: seq<Plan>, requests: seq<Request>, disk: Disk, paths: Paths, n: nat, target: string)
    requires paths.AreSound() && IsRun(states, requests, disk, paths) && n < |requests|
    requires IsReadSafely(requests, paths, n, requests[n].file)
    ensures View(disk, states[n + 1], target)
         == if paths.resolve(requests[n].file) == Some(target) then Some(requests[n].after)
            else View(disk, states[n], target)
  {
    assert Plans(states, requests, disk, paths, n);
    SafeReadGivesTheView(states, requests, disk, paths, n, requests[n].file);
  }

  /** The view is always what the last request for each target left. */
  lemma {:induction false} ViewIsTheLastText(
    states: seq<Plan>, requests: seq<Request>, disk: Disk, paths: Paths, n: nat, target: string)
    requires paths.AreSound() && IsRun(states, requests, disk, paths) && n <= |requests|
    requires RequestsAreSafe(requests, paths)
    ensures View(disk, states[n], target) == LastText(requests, disk, paths, n, target)
  {
    if n > 0 {
      assert IsReadSafely(requests, paths, n - 1, requests[n - 1].file);
      ViewOneMore(states, requests, disk, paths, n - 1, target);
      ViewIsTheLastText(states, requests, disk, paths, n - 1, target);
    }
  }

  /** So no change is planned from an outdated text: each starts where the last for its target
      ended, and so does every other read that is spelled as resolved. */
  lemma ReadsSeeTheLastText(
    states: seq<Plan>, requests: seq<Request>, disk: Disk, paths: Paths, n: nat, file: string)
    requires paths.AreSound() && IsRun(states, requests, disk, paths) && n <= |requests|
    requires RequestsAreSafe(requests, paths) && IsReadSafely(requests, paths, n, file)
    ensures ReadAs(disk, states[n], paths, file) == LastText(requests, disk, paths, n, paths.resolve(file).value)
    ensures forall i :: 0 <= i < |requests| ==>
              requests[i].before == LastText(requests, disk, paths, i, paths.resolve(requests[i].file).value)
  {
    SafeReadGivesTheView(states, requests, disk, paths, n, file);
    ViewIsTheLastText(states, requests, disk, paths, n, paths.resolve(file).value);
    forall i | 0 <= i < |requests|
      ensures requests[i].before == LastText(requests, disk, paths, i, paths.resolve(requests[i].file).value)
    {
      assert Plans(states, requests, disk, paths, i) && IsReadSafely(requests, paths, i, requests[i].file);
      SafeReadGivesTheView(states, requests, disk, paths, i, requests[i].file);
      ViewIsTheLastText(states, requests, disk, paths, i, paths.resolve(requests[i].file).value);
    }
  }

  // ------------------------------------------------------------------ from a run to the disk

  /** Whatever a run planned, in whatever order it was sorted into, writing it is not stopped and
      leaves the overlay over the original files. */
  lemma RunsAreWrittenWhole(
    states: seq<Plan>, requests: seq<Request>, disk: Disk, paths: Paths, n: nat, sorted: seq<Change>)
    requires paths.AreSound() && IsRun(states, requests, disk, paths) && n <= |requests|
    requires IsPermutation(states[n].changes, sorted)
    ensures FirstOutside(paths, sorted) == |sorted|
    ensures Applied(disk, paths, sorted[..FirstOutside(paths, sorted)]) == disk + states[n].virtual
  {
    RunsStayInAgreement(states, requests, disk, paths, n);
    ApplyingGivesTheView(disk, states[n], paths, sorted);
    assert FirstOutside(paths, sorted) == |sorted|;
    assert sorted[..|sorted|] == sorted;
  }

  /** And if its files are read safely, every target ends with the text of the last request for it,
      and every other file with its own. */
  lemma RunsLeaveTheLastTexts(
    states: seq<Plan>, requests: seq<Request>, disk: Disk, paths: Paths, n: nat, sorted: seq<Change>, target: string)
    requires paths.AreSound() && IsRun(states, requests, disk, paths) && n <= |requests|
    requires IsPermutation(states[n].changes, sorted) && RequestsAreSafe(requests, paths)
    ensures Lookup(Applied(disk, paths, sorted[..FirstOutside(paths, sorted)]), target)
         == LastText(requests, disk, paths, n, target)
  {
    RunsAreWrittenWhole(states, requests, disk, paths, n, sorted);
    ViewIsTheLastText(states, requests, disk, paths, n, target);
  }

  // ------------------------------------------------------------------ a second spelling

  const FILE := "/w/a"

  const RESPELLED := "/w/./a"

  /** A workspace of one file, which a second spelling opens too. */
  function TwoSpellings(): Paths {
    Paths((path: string) => if path in {FILE, RESPELLED, "a"} then Some(FILE) else None,
          (path: string) => if path in {FILE, RESPELLED, "a"} then FILE else path,
          (target: string) => "a")
  }

  /** Were a planned file read under a second spelling, which no caller does, its planned text would
      be missed. */
  lemma RespelledFileIsMissed(after: string)
    ensures var paths, request := TwoSpellings(), Request(FILE, None, after, {}, "");
            var plan := Plan([Change("a", None, after, {}, "")], map[FILE := after]);
            && paths.AreSound() && IsRun([EMPTY_PLAN, plan], [request], map[], paths)
            && paths.resolve(RESPELLED) == Some(FILE) && paths.opens(RESPELLED) == FILE
            && View(map[], plan, FILE) == Some(after) && ReadAs(map[], plan, paths, RESPELLED) == None
  {
    var paths, request := TwoSpellings(), Request(FILE, None, after, {}, "");
    var plan := Plan([Change("a", None, after, {}, "")], map[FILE := after]);
    assert Recorded([], "a", request) == plan.changes;
    assert EMPTY_PLAN.virtual[FILE := after] == plan.virtual;
    assert FILE[3] != RESPELLED[3];
    assert Plans([EMPTY_PLAN, plan], [request], map[], paths, 0);
  }
}
