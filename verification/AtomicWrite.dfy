/**
 The atomic file writer on Unix as a machine of single steps, each of which may fail, and after
 each of which the process may stop: exclusive creation of a sibling temporary file, any number of
 partial writes, a sync, a rename over the target, and a cleanup when the rename fails.
 */
module AtomicWrite {
  import opened Prelude

  /** What a file holds: a text in UTF-8, or octets that are none. */
  datatype Stored = Legible(text: string) | Binary(octets: seq<byte>)

  type Files = map<string, Stored>

  /**
   What is written where, by which process; the directory has its slash at the end, and a path
   without a file name is not written.
   */
  datatype Job = Job(dir: string, name: string, pid: string, content: string) {
    function Target(): string {
      dir + name
    }

    function Temp(): string {
      dir + "." + name + ".dig-dns." + pid + ".tmp"
    }

    predicate Named() {
      name != ""
    }
  }

  datatype Pc = Begin | Writing(written: nat) | Synced | Cleaning | Failed | Done

  datatype State = State(files: Files, pc: Pc)

  function Get(files: Files, p: string): Option<Stored> {
    if p in files then Some(files[p]) else None
  }

  predicate IsBeginning(stored: Stored, content: string) {
    stored.Legible? && stored.text <= content
  }

  predicate Init(files: Files, s: State) {
    s == State(files, Begin)
  }

  /** Creation fails when the temporary file exists; otherwise it may fail or leave an empty file. */
  predicate Open(job: Job, s: State, s': State) {
    && s.pc == Begin
    && (s' == s.(pc := Failed)
        || (job.Named() && job.Temp() !in s.files && s' == State(s.files[job.Temp() := Legible("")], Writing(0))))
  }

  /** A write extends what is there by some more of the content, or fails and leaves it. */
  predicate WriteMore(job: Job, s: State, s': State) {
    && s.pc.Writing? && s.pc.written < |job.content|
    && (s' == s.(pc := Failed)
        || exists m {:trigger job.content[..m]} :: s.pc.written < m <= |job.content|
             && s' == State(s.files[job.Temp() := Legible(job.content[..m])], Writing(m)))
  }

  predicate Sync(job: Job, s: State, s': State) {
    && s.pc == Writing(|job.content|)
    && (s' == s.(pc := Failed) || s' == s.(pc := Synced))
  }

  /** The rename replaces the target in one step; when it fails the temporary file is to be removed. */
  predicate Rename(job: Job, s: State, s': State) {
    && s.pc == Synced && job.Temp() in s.files
    && (s' == s.(pc := Cleaning)
        || s' == State((s.files - {job.Temp()})[job.Target() := s.files[job.Temp()]], Done))
  }

  predicate Clean(job: Job, s: State, s': State) {
    && s.pc == Cleaning
    && (s' == s.(pc := Failed) || s' == State(s.files - {job.Temp()}, Failed))
  }

  predicate Next(job: Job, s: State, s': State) {
    || Open(job, s, s')
    || WriteMore(job, s, s')
    || Sync(job, s, s')
    || Rename(job, s, s')
    || Clean(job, s, s')
  }

  /** A run that may have stopped anywhere. */
  predicate IsRun(job: Job, files: Files, run: seq<State>) {
    && run != [] && Init(files, run[0])
    && forall i :: 0 <= i < |run| - 1 ==> Next(job, run[i], run[i + 1])
  }

  // -- the invariant ---------------------------------------------------------------------------

  lemma TempIsNotTarget(job: Job)
    ensures job.Temp() != job.Target()
  {
    assert |job.Temp()| > |job.Target()|;
  }

  /** How the files stand at each step, relative to those at the start. */
  ghost predicate Inv(job: Job, files: Files, s: State) {
    && (forall p :: p != job.Temp() && p != job.Target() ==> Get(s.files, p) == Get(files, p))
    && (s.pc != Done ==> Get(s.files, job.Target()) == Get(files, job.Target()))
    && match s.pc
       case Begin => s.files == files
       case Writing(n) =>
         && job.Temp() !in files && n <= |job.content|
         && Get(s.files, job.Temp()) == Some(Legible(job.content[..n]))
       case Synced => job.Temp() !in files && Get(s.files, job.Temp()) == Some(Legible(job.content))
       case Cleaning => job.Temp() !in files && Get(s.files, job.Temp()) == Some(Legible(job.content))
       case Done =>
         job.Temp() !in files && Get(s.files, job.Target()) == Some(Legible(job.content)) && job.Temp() !in s.files
       case Failed =>
         if job.Temp() in files then s.files == files
         else job.Temp() in s.files ==> IsBeginning(s.files[job.Temp()], job.content)
  }

  lemma StepKeepsInv(job: Job, files: Files, s: State, s': State)
    requires Inv(job, files, s) && Next(job, s, s')
    ensures Inv(job, files, s')
  {
    TempIsNotTarget(job);
    if Sync(job, s, s') {
      assert job.content[..|job.content|] == job.content;
    }
  }

  lemma {:induction false} RunKeepsInv(job: Job, files: Files, run: seq<State>, i: nat)
    requires IsRun(job, files, run) && i < |run|
    ensures Inv(job, files, run[i])
  {
    if i > 0 {
      RunKeepsInv(job, files, run, i - 1);
      StepKeepsInv(job, files, run[i - 1], run[i]);
    }
  }

  /**
   At every point of every run the target holds what it held, or the whole new content; no other
   file than the temporary one changes; success leaves the content and no temporary file, and
   failure leaves the target as it was.
   */
  lemma TargetIsOldOrNew(job: Job, files: Files, run: seq<State>, i: nat)
    requires IsRun(job, files, run) && i < |run|
    ensures var s := run[i];
            && Get(s.files, job.Target()) in {Get(files, job.Target()), Some(Legible(job.content))}
            && (forall p :: p != job.Temp() && p != job.Target() ==> Get(s.files, p) == Get(files, p))
            && (s.pc == Done ==> Get(s.files, job.Target()) == Some(Legible(job.content)) && job.Temp() !in s.files)
            && (s.pc == Failed ==> Get(s.files, job.Target()) == Get(files, job.Target()))
  {
    RunKeepsInv(job, files, run, i);
  }

  /** With a temporary file already there, every run fails at once and changes nothing. */
  lemma StaleTempRefuses(job: Job, files: Files, run: seq<State>, i: nat)
    requires IsRun(job, files, run) && i < |run| && job.Temp() in files
    ensures run[i].files == files && run[i].pc in {Begin, Failed}
  {
    RunKeepsInv(job, files, run, i);
  }

  /** A temporary file that a run leaves behind holds a beginning of the content. */
  lemma LeftoverIsPrefix(job: Job, files: Files, run: seq<State>, i: nat)
    requires IsRun(job, files, run) && i < |run| && job.Temp() !in files
    ensures job.Temp() in run[i].files ==> IsBeginning(run[i].files[job.Temp()], job.content)
  {
    RunKeepsInv(job, files, run, i);
  }

  /**
   When a failed run leaves a temporary file: exactly when it was there before, or the write or the
   sync is what failed, or the cleanup after a failed rename failed too.
   */
  lemma LeavesTempExactly(job: Job, files: Files, run: seq<State>)
    requires IsRun(job, files, run) && run[|run| - 1].pc == Failed
    ensures |run| >= 2
    ensures var prev, last := run[|run| - 2], run[|run| - 1];
            job.Temp() in last.files
            <==> || job.Temp() in files
                 || prev.pc.Writing?
                 || (prev.pc == Cleaning && last.files == prev.files)
  {
    RunKeepsInv(job, files, run, |run| - 2);
    RunKeepsInv(job, files, run, |run| - 1);
    assert Next(job, run[|run| - 2], run[|run| - 1]);
  }

  /**
   A failed write or sync does leave it behind, since only a failed rename is cleaned up after; and
   then no run of the same process on the same target succeeds.
   */
  lemma FailedWriteLeavesTemp(job: Job, files: Files) returns (run: seq<State>)
    requires job.Named() && job.Temp() !in files && job.content != ""
    ensures IsRun(job, files, run)
    ensures var last := run[|run| - 1];
            && last.pc == Failed && job.Temp() in last.files
            && forall again: seq<State>, i: int ::
                 IsRun(job, last.files, again) && 0 <= i < |again| ==> again[i].pc != Done
  {
    var s0 := State(files, Begin);
    var s1 := State(files[job.Temp() := Legible("")], Writing(0));
    var s2 := s1.(pc := Failed);
    run := [s0, s1, s2];
    assert Open(job, s0, s1) && WriteMore(job, s1, s2);
    forall again: seq<State>, i: int | IsRun(job, s2.files, again) && 0 <= i < |again| ensures again[i].pc != Done {
      StaleTempRefuses(job, s2.files, again, i);
    }
  }

  /** A write can succeed exactly when the path has a file name and no temporary file is in the way. */
  lemma SucceedsExactly(job: Job, files: Files)
    ensures (exists run: seq<State> :: IsRun(job, files, run) && run[|run| - 1].pc == Done)
            <==> job.Named() && job.Temp() !in files
  {
    if job.Named() && job.Temp() !in files {
      var _ := RunCanSucceed(job, files);
    }
    forall run: seq<State> | IsRun(job, files, run) && run[|run| - 1].pc == Done
      ensures job.Named() && job.Temp() !in files
    {
      RunKeepsInv(job, files, run, |run| - 1);
      if !job.Named() {
        UnnamedKeeps(job, files, run, |run| - 1);
      }
    }
  }

  lemma {:induction false} UnnamedKeeps(job: Job, files: Files, run: seq<State>, i: nat)
    requires IsRun(job, files, run) && i < |run| && !job.Named()
    ensures run[i].pc in {Begin, Failed} && run[i].files == files
  {
    if i > 0 {
      UnnamedKeeps(job, files, run, i - 1);
      assert Next(job, run[i - 1], run[i]);
    }
  }

  /** A run without faults, writing everything at once, succeeds. */
  lemma RunCanSucceed(job: Job, files: Files) returns (run: seq<State>)
    requires job.Named() && job.Temp() !in files
    ensures IsRun(job, files, run) && run[|run| - 1].pc == Done
  {
    var t := job.Temp();
    var s0 := State(files, Begin);
    var s1 := State(files[t := Legible("")], Writing(0));
    assert Open(job, s0, s1);
    if job.content == "" {
      var s2 := s1.(pc := Synced);
      var s3 := State((s2.files - {t})[job.Target() := s2.files[t]], Done);
      assert Sync(job, s1, s2) && Rename(job, s2, s3);
      run := [s0, s1, s2, s3];
    } else {
      var n := |job.content|;
      var s2 := State(s1.files[t := Legible(job.content[..n])], Writing(n));
      assert WriteMore(job, s1, s2);
      var s3 := s2.(pc := Synced);
      var s4 := State((s3.files - {t})[job.Target() := s3.files[t]], Done);
      assert Sync(job, s2, s3) && Rename(job, s3, s4);
      run := [s0, s1, s2, s3, s4];
    }
  }

  // -- how a write ends ------------------------------------------------------------------------

  /** A finished write: done, failed without a trace, or failed with the beginning of the content left. */
  datatype End = Succeeds | FailsClean | Leaves(written: nat)

  /** The files after a write that ends so, and whether it succeeded; a stale temporary file decides alone. */
  function Ended(job: Job, files: Files, end: End): (Files, bool) {
    if !job.Named() || job.Temp() in files then (files, false)
    else
      match end
      case Succeeds => (files[job.Target() := Legible(job.content)], true)
      case FailsClean => (files, false)
      case Leaves(n) =>
        var kept := if n < |job.content| then job.content[..n] else job.content;
        (files[job.Temp() := Legible(kept)], false)
  }

  predicate IsOver(s: State) {
    s.pc == Done || s.pc == Failed
  }

  predicate EndsAs(s: State, ended: (Files, bool)) {
    s.files == ended.0 && (s.pc == Done <==> ended.1)
  }

  /** Every run that is over ended in one of these ways. */
  lemma RunsEnd(job: Job, files: Files, run: seq<State>) returns (end: End)
    requires IsRun(job, files, run) && IsOver(run[|run| - 1])
    ensures EndsAs(run[|run| - 1], Ended(job, files, end))
  {
    var last := run[|run| - 1];
    RunKeepsInv(job, files, run, |run| - 1);
    TempIsNotTarget(job);
    var t := job.Temp();
    if !job.Named() {
      end := FailsClean;
      UnnamedKeeps(job, files, run, |run| - 1);
    } else if last.pc == Done {
      end := Succeeds;
      SameMaps(last.files, files[job.Target() := Legible(job.content)]);
    } else if t in files || t !in last.files {
      end := FailsClean;
      SameMaps(last.files, files);
    } else {
      var text := last.files[t].text;
      end := Leaves(|text|);
      assert |text| == |job.content| ==> text == job.content;
      assert job.content[..|text|] == text;
      SameMaps(last.files, files[t := Legible(text)]);
      assert last.files[t] == Legible(text);
      assert forall p :: Get(last.files, p) == Get(files[t := Legible(text)], p);
    }
  }

  lemma SameMaps(s: Files, t: Files)
    ensures s == t <==> forall p :: Get(s, p) == Get(t, p)
  {
    if forall p :: Get(s, p) == Get(t, p) {
      forall p ensures (p in s <==> p in t) && (p in s ==> s[p] == t[p]) {
        assert Get(s, p) == Get(t, p);
      }
    }
  }

  /** And every way is how some run ends. */
  lemma EndsAreRuns(job: Job, files: Files, end: End) returns (run: seq<State>)
    ensures IsRun(job, files, run) && IsOver(run[|run| - 1])
    ensures EndsAs(run[|run| - 1], Ended(job, files, end))
  {
    if !job.Named() || job.Temp() in files || end == FailsClean {
      run := RefusedRun(job, files);
    } else if end == Succeeds {
      run := RunCanSucceed(job, files);
      var other := RunsEnd(job, files, run);
      assert other == Succeeds;
    } else {
      run := LeavingRun(job, files, end.written);
    }
  }

  lemma RefusedRun(job: Job, files: Files) returns (run: seq<State>)
    ensures IsRun(job, files, run) && run[|run| - 1] == State(files, Failed)
  {
    var s0, s1 := State(files, Begin), State(files, Failed);
    assert Open(job, s0, s1);
    run := [s0, s1];
  }

  lemma LeavingRun(job: Job, files: Files, n: nat) returns (run: seq<State>)
    requires job.Named() && job.Temp() !in files
    ensures IsRun(job, files, run)
    ensures run[|run| - 1] == State(Ended(job, files, Leaves(n)).0, Failed)
  {
    var t, k := job.Temp(), if n < |job.content| then n else |job.content|;
    var s0 := State(files, Begin);
    var s1 := State(files[t := Legible("")], Writing(0));
    assert Open(job, s0, s1) && job.content[..0] == "" && job.content[..|job.content|] == job.content;
    if k == 0 {
      var s2 := s1.(pc := Failed);
      assert WriteMore(job, s1, s2) || Sync(job, s1, s2);
      run := [s0, s1, s2];
    } else {
      var s2 := State(s1.files[t := Legible(job.content[..k])], Writing(k));
      var s3 := s2.(pc := Failed);
      assert WriteMore(job, s1, s2);
      assert WriteMore(job, s2, s3) || Sync(job, s2, s3);
      run := [s0, s1, s2, s3];
      assert s1.files[t := Legible(job.content[..k])] == files[t := Legible(job.content[..k])];
    }
  }
}
