/** Log rotation (src/core/logger.ts): a file and its numbered backups. */
module LogRotation {
  // The files are renamed one step at a time before a line that would not fit is appended.
  import opened Options

  /** A line of the log, one character for each of its bytes. */
  type Line = string

  /** The files of one log: 0 is the file itself, i its backup `.i`. */
  type Files = map<nat, seq<Line>>

  function Size(lines: seq<Line>): nat {
    if lines == [] then 0 else Size(lines[..|lines| - 1]) + |lines[|lines| - 1]|
  }

  function Lookup(files: Files, i: nat): Option<seq<Line>> { if i in files then Some(files[i]) else None }

  // ------------------------------------------------------------------ the new files of each step

  function Removed(files: Files, i: nat): Files { files - {i} }

  function Renamed(files: Files, from: nat, to: nat): Files {
    if from in files then Removed(files, from)[to := files[from]] else files
  }

  /** Backups up to `index` moved up by one, the oldest first. */
  function MovedUp(files: Files, index: nat): Files
    decreases index
  {
    if index == 0 then files else MovedUp(Renamed(files, index, index + 1), index - 1)
  }

  function Rotated(files: Files, retention: int): Files {
    if retention <= 0 then Removed(files, 0)
    else Renamed(MovedUp(Removed(files, retention), retention - 1), 0, 1)
  }

  predicate ShouldRotate(files: Files, nextBytes: nat, limit: int) {
    limit > 0 && 0 in files && Size(files[0]) + nextBytes > limit
  }

  function Appended(files: Files, line: Line): Files {
    files[0 := (if 0 in files then files[0] else []) + [line]]
  }

  function Written(files: Files, line: Line, limit: int, retention: int): Files {
    Appended(if ShouldRotate(files, |line|, limit) then Rotated(files, retention) else files, line)
  }

  // ------------------------------------------------------------------ the program

  class LogDirectory {
    var files: Files

    constructor ()
      ensures files == map[]
    {
      files := map[];
    }

    method Remove(i: nat)
      modifies this
      ensures files == Removed(old(files), i)
    {
      files := files - {i};
    }

    /** Replaces whatever had the new name. */
    method Rename(from: nat, to: nat)
      requires from in files && from != to
      modifies this
      ensures files == Renamed(old(files), from, to)
    {
      files := (files - {from})[to := files[from]];
    }

    method Rotate(retention: int)
      modifies this
      ensures files == Rotated(old(files), retention)
    {
      if retention <= 0 {
        Remove(0);
        return;
      }
      Remove(retention);
      var index := retention - 1;
      while index >= 1
        invariant 0 <= index < retention
        invariant MovedUp(files, index) == MovedUp(Removed(old(files), retention), retention - 1)
      {
        if index in files {
          Rename(index, index + 1);
        }
        index := index - 1;
      }
      if 0 in files {
        Rename(0, 1);
      }
    }

    method WriteRotatingLine(line: Line, limit: int, retention: int)
      modifies this
      ensures files == Written(old(files), line, limit, retention)
    {
      if ShouldRotate(files, |line|, limit) {
        Rotate(retention);
      }
      files := files[0 := (if 0 in files then files[0] else []) + [line]];
    }
  }

  // ------------------------------------------------------------------ what a rotation does

  lemma {:induction false} MovedUpLookup(files: Files, index: nat, i: nat)
    requires index + 1 !in files
    ensures Lookup(MovedUp(files, index), i)
         == if 2 <= i <= index + 1 then Lookup(files, i - 1)
            else if i == 1 && index >= 1 then None
            else Lookup(files, i)
    decreases index
  {
    if index > 0 {
      MovedUpLookup(Renamed(files, index, index + 1), index - 1, i);
    }
  }

  /** Every kept file moves up by one name, the oldest gives way, and other names are not
      touched. */
  lemma RotatedLookup(files: Files, retention: int, i: nat)
    ensures Lookup(Rotated(files, retention), i)
         == if i == 0 then None else if i <= retention then Lookup(files, i - 1) else Lookup(files, i)
  {
    if retention > 0 {
      MovedUpLookup(Removed(files, retention), retention - 1, 0);
      MovedUpLookup(Removed(files, retention), retention - 1, 1);
      MovedUpLookup(Removed(files, retention), retention - 1, i);
    }
  }

  // ------------------------------------------------------------------ what a run keeps

  /** The lines of the files from backup `oldest` down, oldest first. */
  function OldestFirst(files: Files, oldest: nat): seq<Line> {
    (if oldest in files then files[oldest] else []) + (if oldest == 0 then [] else OldestFirst(files, oldest - 1))
  }

  /** How many backups are kept. */
  function Kept(retention: int): nat { if retention < 0 then 0 else retention }

  predicate FitsOrIsOneLine(lines: seq<Line>, limit: int) {
    lines != [] && (limit <= 0 || Size(lines) <= limit || |lines| == 1)
  }

  /** Backups stop at the last kept, and have no gap below them. */
  predicate Contiguous(files: Files, kept: nat) {
    forall i :: i in files ==> i <= kept && (i > 0 ==> i - 1 in files)
  }

  /** The newer of two neighbours begins with the line that did not fit in the older. */
  predicate RotatedWhenFull(files: Files, limit: int, i: nat) {
    i in files && i + 1 in files && files[i] != [] ==> Size(files[i + 1]) + |files[i][0]| > limit
  }

  predicate IsSuffix(kept: seq<Line>, lines: seq<Line>) {
    |kept| <= |lines| && lines[|lines| - |kept|..] == kept
  }

  ghost predicate Tidy(files: Files, lines: seq<Line>, limit: int, retention: int) {
    && Contiguous(files, Kept(retention))
    && (forall i :: i in files ==> FitsOrIsOneLine(files[i], limit))
    && (forall i: nat :: RotatedWhenFull(files, limit, i))
    && IsSuffix(OldestFirst(files, Kept(retention)), lines)
    && (retention > 0 && retention !in files ==> OldestFirst(files, Kept(retention)) == lines)
  }

  /** The lines of the files moved up by one are the lines of the files before. */
  lemma {:induction false} MovedOldestFirst(before: Files, after: Files, oldest: nat)
    requires forall i: nat :: i <= oldest + 1 ==> Lookup(after, i) == if i == 0 then None else Lookup(before, i - 1)
    ensures OldestFirst(after, oldest + 1) == OldestFirst(before, oldest)
  {
    assert Lookup(after, oldest + 1) == Lookup(before, oldest);
    if oldest > 0 {
      MovedOldestFirst(before, after, oldest - 1);
    } else {
      assert Lookup(after, 0) == None;
    }
  }

  lemma {:induction false} AppendedOldestFirst(files: Files, line: Line, oldest: nat)
    ensures OldestFirst(Appended(files, line), oldest) == OldestFirst(files, oldest) + [line]
  {
    if oldest > 0 {
      AppendedOldestFirst(files, line, oldest - 1);
    }
  }

  /** A rotation drops the lines of the oldest backup kept, and no others. */
  lemma RotationDropsTheOldest(files: Files, retention: int) returns (dropped: seq<Line>)
    ensures OldestFirst(files, Kept(retention)) == dropped + OldestFirst(Rotated(files, retention), Kept(retention))
    ensures dropped == if Kept(retention) in files then files[Kept(retention)] else []
  {
    var after := Rotated(files, retention);
    forall i: nat ensures Lookup(after, i) == if i == 0 then None else if i <= retention then Lookup(files, i - 1)
                                              else Lookup(files, i)
    {
      RotatedLookup(files, retention, i);
    }
    dropped := if Kept(retention) in files then files[Kept(retention)] else [];
    if retention > 0 {
      MovedOldestFirst(files, after, retention - 1);
    } else {
      assert Lookup(after, 0) == None;
    }
  }

  lemma SuffixOneMore(dropped: seq<Line>, kept: seq<Line>, lines: seq<Line>, line: Line)
    requires IsSuffix(dropped + kept, lines)
    ensures IsSuffix(kept + [line], lines + [line])
  {
    var before := dropped + kept;
    assert (lines + [line])[|lines| - |kept|..] == lines[|lines| - |before|..][|dropped|..] + [line];
  }

  /** A file under the name of the next. */
  predicate MovesFrom(before: Files, after: Files, i: nat) {
    Lookup(after, i + 1) == Lookup(before, i)
  }

  /** Each of the files kept moved up by one, with nothing left at the front. */
  ghost predicate Shifts(before: Files, after: Files, kept: nat) {
    && 0 !in after && (forall i :: i in after ==> i <= kept)
    && forall i: nat :: i < kept ==> MovesFrom(before, after, i)
  }

  lemma RotationShifts(files: Files, retention: int)
    requires Contiguous(files, Kept(retention))
    ensures Shifts(files, Rotated(files, retention), Kept(retention))
  {
    var after := Rotated(files, retention);
    forall i | i in after ensures i <= Kept(retention) {
      RotatedLookup(files, retention, i);
    }
    RotatedLookup(files, retention, 0);
    forall i: nat | i < Kept(retention) ensures MovesFrom(files, after, i) {
      RotatedLookup(files, retention, i + 1);
    }
  }

  lemma ShiftedFile(before: Files, after: Files, kept: nat, i: nat)
    requires Shifts(before, after, kept) && i in after
    ensures i > 0 && i - 1 in before && after[i] == before[i - 1]
  {
    assert MovesFrom(before, after, i - 1);
  }

  lemma ShiftedIsContiguous(before: Files, after: Files, kept: nat)
    requires Shifts(before, after, kept) && Contiguous(before, kept)
    ensures forall i :: i in after ==> i <= kept && (i > 1 ==> i - 1 in after)
  {
    forall i | i in after ensures i <= kept && (i > 1 ==> i - 1 in after) {
      ShiftedFile(before, after, kept, i);
      if i > 1 {
        assert MovesFrom(before, after, i - 2);
      }
    }
  }

  lemma ShiftedIsFull(before: Files, after: Files, kept: nat, limit: int, i: nat)
    requires Shifts(before, after, kept) && (forall k: nat :: RotatedWhenFull(before, limit, k))
    ensures RotatedWhenFull(after, limit, i)
  {
    if i in after && i + 1 in after {
      ShiftedFile(before, after, kept, i);
      ShiftedFile(before, after, kept, i + 1);
      assert RotatedWhenFull(before, limit, i - 1);
    }
  }

  /** The files a rotated line finds. */
  ghost predicate Room(files: Files, lines: seq<Line>, line: Line, limit: int, retention: int) {
    && (forall i :: i in files ==> i <= Kept(retention) && (i > 1 ==> i - 1 in files))
    && (forall i :: i in files ==> FitsOrIsOneLine(files[i], limit))
    && (forall i: nat :: RotatedWhenFull(files, limit, i))
    && (0 in files ==> limit <= 0 || Size(files[0]) + |line| <= limit)
    && (0 !in files && 1 in files ==> Size(files[1]) + |line| > limit)
    && (exists dropped :: IsSuffix(dropped + OldestFirst(files, Kept(retention)), lines))
    && (retention > 0 && retention !in files ==> OldestFirst(files, Kept(retention)) == lines)
  }

  lemma RotationMakesRoom(files: Files, lines: seq<Line>, line: Line, limit: int, retention: int)
    requires Tidy(files, lines, limit, retention) && ShouldRotate(files, |line|, limit)
    ensures Room(Rotated(files, retention), lines, line, limit, retention)
  {
    var after := Rotated(files, retention);
    RotationShifts(files, retention);
    ShiftedIsContiguous(files, after, Kept(retention));
    forall i | i in after ensures FitsOrIsOneLine(after[i], limit) {
      ShiftedFile(files, after, Kept(retention), i);
    }
    forall i: nat ensures RotatedWhenFull(after, limit, i) {
      ShiftedIsFull(files, after, Kept(retention), limit, i);
    }
    if 1 in after {
      ShiftedFile(files, after, Kept(retention), 1);
    }
    var dropped := RotationDropsTheOldest(files, retention);
    if retention > 0 && retention !in after {
      NothingDropped(files, after, retention);
    }
  }

  lemma NothingDropped(files: Files, after: Files, retention: int)
    requires retention > 0 && Contiguous(files, retention) && Shifts(files, after, retention) && retention !in after
    ensures retention !in files
  {
    assert MovesFrom(files, after, retention - 1);
  }

  lemma NoRotationLeavesRoom(files: Files, lines: seq<Line>, line: Line, limit: int, retention: int)
    requires Tidy(files, lines, limit, retention) && !ShouldRotate(files, |line|, limit)
    requires 0 in files || files == map[]
    ensures Room(files, lines, line, limit, retention)
  {
    assert IsSuffix([] + OldestFirst(files, Kept(retention)), lines) by {
      assert [] + OldestFirst(files, Kept(retention)) == OldestFirst(files, Kept(retention));
    }
  }

  lemma SizeOneMore(lines: seq<Line>, line: Line)
    ensures Size(lines + [line]) == Size(lines) + |line|
  {
    assert (lines + [line])[..|lines|] == lines;
  }

  lemma AppendingKeepsTidy(files: Files, lines: seq<Line>, line: Line, limit: int, retention: int)
    requires Room(files, lines, line, limit, retention)
    ensures Tidy(Appended(files, line), lines + [line], limit, retention)
  {
    var after := Appended(files, line);
    var front := if 0 in files then files[0] else [];
    SizeOneMore(front, line);
    assert Size([]) == 0;
    forall i | i in after ensures FitsOrIsOneLine(after[i], limit) {}
    forall i: nat ensures RotatedWhenFull(after, limit, i) {
      assert RotatedWhenFull(files, limit, i);
    }
    AppendedOldestFirst(files, line, Kept(retention));
    var dropped :| IsSuffix(dropped + OldestFirst(files, Kept(retention)), lines);
    SuffixOneMore(dropped, OldestFirst(files, Kept(retention)), lines, line);
  }

  /** One more line keeps the files tidy. */
  lemma WritingKeepsTidy(files: Files, lines: seq<Line>, line: Line, limit: int, retention: int)
    requires Tidy(files, lines, limit, retention) && (0 in files || files == map[])
    ensures Tidy(Written(files, line, limit, retention), lines + [line], limit, retention)
    ensures 0 in Written(files, line, limit, retention)
  {
    if ShouldRotate(files, |line|, limit) {
      RotationMakesRoom(files, lines, line, limit, retention);
      AppendingKeepsTidy(Rotated(files, retention), lines, line, limit, retention);
    } else {
      NoRotationLeavesRoom(files, lines, line, limit, retention);
      AppendingKeepsTidy(files, lines, line, limit, retention);
    }
  }

  ghost predicate Writes(states: seq<Files>, lines: seq<Line>, limit: int, retention: int, i: nat)
    requires |states| == |lines| + 1 && i < |lines|
  {
    states[i + 1] == Written(states[i], lines[i], limit, retention)
  }

  /** The files before each of some lines is written, and at the end; none at first. */
  ghost predicate IsRun(states: seq<Files>, lines: seq<Line>, limit: int, retention: int) {
    && |states| == |lines| + 1 && states[0] == map[]
    && forall i :: 0 <= i < |lines| ==> Writes(states, lines, limit, retention, i)
  }

  /** Over any run from no files: backups are contiguous and no more than are kept; every file
      fits the limit or holds one line, and was rotated only when the next line did not fit; the
      files, oldest first, are a suffix of the lines written, and all of them until the oldest
      backup kept exists. */
  lemma {:induction false} RunsStayTidy(states: seq<Files>, lines: seq<Line>, limit: int, retention: int, n: nat)
    requires IsRun(states, lines, limit, retention) && n <= |lines|
    ensures Tidy(states[n], lines[..n], limit, retention) && (0 in states[n] || states[n] == map[])
  {
    if n == 0 {
      NoFiles(limit, retention);
    } else {
      RunsStayTidy(states, lines, limit, retention, n - 1);
      assert Writes(states, lines, limit, retention, n - 1);
      WritingKeepsTidy(states[n - 1], lines[..n - 1], lines[n - 1], limit, retention);
      assert lines[..n] == lines[..n - 1] + [lines[n - 1]];
    }
  }

  lemma {:induction false} NoFilesNoLines(oldest: nat)
    ensures OldestFirst(map[], oldest) == []
  {
    if oldest > 0 {
      NoFilesNoLines(oldest - 1);
    }
  }

  lemma NoFiles(limit: int, retention: int)
    ensures Tidy(map[], [], limit, retention)
  {
    NoFilesNoLines(Kept(retention));
    forall i: nat ensures RotatedWhenFull(map[], limit, i) {}
  }
}
