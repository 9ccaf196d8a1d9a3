/**
 Wiring the OS resolver: the per-OS plans that configure and unconfigure it, their execution over
 a file system in which any write or removal may fail, and marker-scoped ownership.
 */
module OsConfig {
  import opened Prelude
  import opened Text
  import Config
  import opened AtomicWrite
  import opened Artifacts
  import Host

  const LINUX_RESOLVED_DROPIN := "/etc/systemd/resolved.conf.d/dig.conf"
  const LINUX_NM_DNSMASQ_CONF := "/etc/NetworkManager/dnsmasq.d/dig.conf"
  const MACOS_LO0_PLIST := "/Library/" + "LaunchDaemons/net.dignetwork.dig-dns-lo0.plist"

  datatype Os = Linux | MacOs | Windows | OtherOs
  datatype ResolvOwner = SystemdResolved | NetworkManagerDnsmasq | UnknownOwner

  /** An artifact this tool, or the installer before it, may remove. */
  predicate IsOurs(content: string, ip: Ipv4) {
    || Contains(content, MARKER)
    || Contains(content, LEGACY_INSTALLER_MARKER)
    || Trim(content) == "nameserver " + Config.PrintIp(ip)
  }

  // -- the artifacts ---------------------------------------------------------------------------

  function MacosResolverPath(tld: string): string {
    "/etc/resolver/" + tld
  }

  // -- plans -----------------------------------------------------------------------------------

  datatype Bucket = Applied | Removed

  datatype Step =
    | Write(path: string, content: string)
    | RemoveOurs(path: string)
    | Exec
    | Ps(entry: string, bucket: Bucket)
    | PsExec
    | Note

  function NrptEntry(tld: string): string {
    "." + tld + " NRPT rule"
  }

  function ConfigureSteps(os: Os, owner: ResolvOwner, ip: Ipv4, tld: string): seq<Step> {
    match os
    case Linux =>
      (match owner
       case SystemdResolved => [Write(LINUX_RESOLVED_DROPIN, SystemdResolvedDropin(ip, tld)), Exec, Exec]
       case NetworkManagerDnsmasq => [Write(LINUX_NM_DNSMASQ_CONF, NetworkManagerConf(ip, tld)), Exec]
       case UnknownOwner => [Note])
    case MacOs =>
      [Exec, Write(MACOS_LO0_PLIST, Lo0Plist(ip)), Exec, Exec, Exec,
       Write(MacosResolverPath(tld), ResolverFile(ip)), Exec, Exec]
    case Windows => [Ps(NrptEntry(tld), Applied), PsExec]
    case OtherOs => []
  }

  function UnconfigureSteps(os: Os, tld: string): seq<Step> {
    match os
    case Linux =>
      [RemoveOurs(LINUX_RESOLVED_DROPIN), Exec, Exec, RemoveOurs(LINUX_NM_DNSMASQ_CONF), Exec]
    case MacOs =>
      [Exec, RemoveOurs(MACOS_LO0_PLIST), Exec, RemoveOurs(MacosResolverPath(tld)), Exec, Exec]
    case Windows => [Ps(NrptEntry(tld), Removed), PsExec]
    case OtherOs => []
  }

  // -- execution -------------------------------------------------------------------------------

  /**
   Which paths cannot be read or removed, how an attempt to write a path ends, whether PowerShell
   commands work, and the process that runs the plan, after which its temporary files are named.
   */
  datatype Faults = Faults(
    read: string -> bool, write: string -> End, remove: string -> bool, shellWorks: bool, pid: string)

  datatype Report = Report(applied: seq<string>, removed: seq<string>)

  datatype Progress = Progress(files: Files, report: Report)

  /** Reading a file as text, which fails on anything else. */
  function TextOf(files: Files, path: string, faults: Faults): Option<string> {
    if path in files && files[path].Legible? && !faults.read(path) then Some(files[path].text) else None
  }

  /** Where the file name starts: after the last slash. */
  function NameAt(path: string): (k: nat)
    ensures k <= |path| && (k > 0 ==> path[k - 1] == '/')
    ensures forall i :: k <= i < |path| ==> path[i] != '/'
    decreases |path|
  {
    if path == "" then 0
    else if path[|path| - 1] == '/' then |path|
    else NameAt(path[..|path| - 1])
  }

  /** The atomic write of a path. */
  function JobOf(path: string, content: string, pid: string): Job {
    var k := NameAt(path);
    Job(path[..k], path[k..], pid, content)
  }

  function TempOf(path: string, pid: string): string {
    JobOf(path, "", pid).Temp()
  }

  /** An attempt to write, by how it ends. */
  function Attempt(files: Files, path: string, content: string, faults: Faults): (Files, bool) {
    Ended(JobOf(path, content, faults.pid), files, faults.write(path))
  }

  predicate IsNamed(path: string) {
    NameAt(path) < |path|
  }

  /** Whether an attempt would write the path, or leave its temporary file. */
  predicate CanWrite(files: Files, path: string, faults: Faults) {
    IsNamed(path) && TempOf(path, faults.pid) !in files && faults.write(path).Succeeds?
  }

  predicate LeavesTemp(files: Files, path: string, faults: Faults) {
    IsNamed(path) && TempOf(path, faults.pid) !in files && faults.write(path).Leaves?
  }

  /** The content is seen to be there, or is written. */
  predicate Applies(files: Files, path: string, content: string, faults: Faults) {
    TextOf(files, path, faults) == Some(content) || CanWrite(files, path, faults)
  }

  lemma JobIs(path: string, content: string, pid: string)
    ensures var job := JobOf(path, content, pid);
            job.Target() == path && job.Temp() == TempOf(path, pid) && (job.Named() <==> IsNamed(path))
    ensures TempOf(path, pid) != path
  {
    TempIsNotTarget(JobOf(path, content, pid));
  }

  lemma AttemptIs(files: Files, path: string, content: string, faults: Faults)
    ensures var (after, ok) := Attempt(files, path, content, faults);
            && (ok <==> CanWrite(files, path, faults))
            && (ok ==> after == files[path := Legible(content)])
            && (!ok && !LeavesTemp(files, path, faults) ==> after == files)
            && (LeavesTemp(files, path, faults) ==>
                  exists left :: after == files[TempOf(path, faults.pid) := left] && IsBeginning(left, content))
            && (forall p :: p != path && p != TempOf(path, faults.pid) ==> Get(after, p) == Get(files, p))
  {
    JobIs(path, content, faults.pid);
    if LeavesTemp(files, path, faults) {
      var n := faults.write(path).written;
      var left := Legible(if n < |content| then content[..n] else content);
      assert Attempt(files, path, content, faults).0 == files[TempOf(path, faults.pid) := left];
      assert IsBeginning(left, content);
    }
  }

  /** The write is skipped when the content is already there, and reported as applied all the same. */
  function WriteStep(d: Progress, path: string, content: string, faults: Faults): Progress {
    var (files, ok) :=
      if TextOf(d.files, path, faults) == Some(content) then (d.files, true)
      else Attempt(d.files, path, content, faults);
    Progress(files, if ok then d.report.(applied := d.report.applied + [path]) else d.report)
  }

  /** The path holds an artifact of ours, by what can be read of it, and can be removed. */
  predicate Removable(files: Files, path: string, ip: Ipv4, faults: Faults) {
    var text := TextOf(files, path, faults);
    text.Some? && IsOurs(text.value, ip) && !faults.remove(path)
  }

  function RemoveStep(d: Progress, path: string, ip: Ipv4, faults: Faults): Progress {
    if !Removable(d.files, path, ip, faults) then d
    else Progress(d.files - {path}, d.report.(removed := d.report.removed + [path]))
  }

  function Step1(d: Progress, step: Step, ip: Ipv4, faults: Faults): Progress {
    match step
    case Write(path, content) => WriteStep(d, path, content, faults)
    case RemoveOurs(path) => RemoveStep(d, path, ip, faults)
    case Ps(entry, bucket) =>
      if !faults.shellWorks then d
      else if bucket == Applied then d.(report := d.report.(applied := d.report.applied + [entry]))
      else d.(report := d.report.(removed := d.report.removed + [entry]))
    case Exec => d
    case PsExec => d
    case Note => d
  }

  function Executed(d: Progress, steps: seq<Step>, ip: Ipv4, faults: Faults): Progress
    decreases |steps|
  {
    if steps == [] then d else Executed(Step1(d, steps[0], ip, faults), steps[1..], ip, faults)
  }

  function Start(files: Files): Progress {
    Progress(files, Report([], []))
  }

  /** The files of the machine. */
  class FileSystem {
    var files: Files

    constructor (files: Files)
      ensures this.files == files
    {
      this.files := files;
    }

    method WriteIfChanged(path: string, content: string, faults: Faults) returns (ok: bool)
      modifies this
      ensures ok <==> Applies(old(files), path, content, faults)
      ensures ok ==> files == old(files)[path := Legible(content)]
      ensures forall p :: p != path && p != TempOf(path, faults.pid) ==> Get(files, p) == Get(old(files), p)
      ensures forall r :: WriteStep(Progress(old(files), r), path, content, faults).files == files
    {
      AttemptIs(files, path, content, faults);
      if TextOf(files, path, faults) == Some(content) {
        assert files[path := Legible(content)] == files;
        return true;
      }
      var (after, done) := Attempt(files, path, content, faults);
      files := after;
      return done;
    }

    method RemoveIfOurs(path: string, ip: Ipv4, faults: Faults) returns (removed: bool)
      modifies this
      ensures removed <==> Removable(old(files), path, ip, faults)
      ensures files == if removed then old(files) - {path} else old(files)
    {
      var text := TextOf(files, path, faults);
      if text.Some? && IsOurs(text.value, ip) && !faults.remove(path) {
        files := files - {path};
        return true;
      }
      return false;
    }

    method Execute(steps: seq<Step>, ip: Ipv4, faults: Faults) returns (report: Report)
      modifies this
      ensures Progress(files, report) == Executed(Start(old(files)), steps, ip, faults)
    {
      report := Report([], []);
      assert steps[0..] == steps;
      for i := 0 to |steps|
        invariant Executed(Progress(files, report), steps[i..], ip, faults)
                  == Executed(Start(old(files)), steps, ip, faults)
      {
        assert steps[i..][1..] == steps[i + 1..];
        match steps[i] {
          case Write(path, content) =>
            AttemptIs(files, path, content, faults);
            var ok := WriteIfChanged(path, content, faults);
            if ok {
              report := report.(applied := report.applied + [path]);
            }
          case RemoveOurs(path) =>
            var gone := RemoveIfOurs(path, ip, faults);
            if gone {
              report := report.(removed := report.removed + [path]);
            }
          case Ps(entry, bucket) =>
            if faults.shellWorks {
              if bucket == Applied {
                report := report.(applied := report.applied + [entry]);
              } else {
                report := report.(removed := report.removed + [entry]);
              }
            }
          case _ =>
        }
      }
      assert steps[|steps|..] == [];
    }
  }

  // -- what a plan does to the files -----------------------------------------------------------

  function RemovePaths(steps: seq<Step>): seq<string> {
    if steps == [] then []
    else (if steps[0].RemoveOurs? then [steps[0].path] else []) + RemovePaths(steps[1..])
  }

  predicate OnlyRemoves(steps: seq<Step>) {
    forall i :: 0 <= i < |steps| ==> !steps[i].Write?
  }

  predicate OnlyWrites(steps: seq<Step>) {
    forall i :: 0 <= i < |steps| ==> !steps[i].RemoveOurs?
  }

  function RemovableSet(files: Files, paths: seq<string>, ip: Ipv4, faults: Faults): set<string> {
    set p | p in paths && Removable(files, p, ip, faults)
  }

  lemma RemovedSet(d: Progress, path: string, rest: seq<string>, ip: Ipv4, faults: Faults)
    ensures var after := RemoveStep(d, path, ip, faults).files;
            after - RemovableSet(after, rest, ip, faults)
            == d.files - RemovableSet(d.files, [path] + rest, ip, faults)
  {
    var after := RemoveStep(d, path, ip, faults).files;
    var gone := RemovableSet(d.files, [path] + rest, ip, faults);
    assert forall p :: p in after - RemovableSet(after, rest, ip, faults) <==> p in d.files - gone;
  }

  /** A plan of removals takes away exactly its paths that are ours and removable. */
  lemma {:induction false} RemovalsAreExact(d: Progress, steps: seq<Step>, ip: Ipv4, faults: Faults)
    requires OnlyRemoves(steps)
    ensures Executed(d, steps, ip, faults).files
            == d.files - RemovableSet(d.files, RemovePaths(steps), ip, faults)
    decreases |steps|
  {
    if steps != [] {
      RemovalsAreExact(Step1(d, steps[0], ip, faults), steps[1..], ip, faults);
      var rest := RemovePaths(steps[1..]);
      if steps[0].RemoveOurs? {
        RemovedSet(d, steps[0].path, rest, ip, faults);
      } else {
        assert RemovePaths(steps) == rest;
      }
    }
  }

  /** A write concerns its path and its temporary file. */
  predicate Touches(step: Step, p: string, pid: string) {
    step.Write? && (p == step.path || p == TempOf(step.path, pid))
  }

  predicate ArePairApart(s: Step, t: Step, pid: string) {
    s.Write? && t.Write? ==>
      && s.path != t.path && TempOf(s.path, pid) != TempOf(t.path, pid)
      && s.path != TempOf(t.path, pid) && TempOf(s.path, pid) != t.path
  }

  /** No two writes of a plan concern the same file. */
  predicate AreApart(steps: seq<Step>, pid: string) {
    forall i, j :: 0 <= i < j < |steps| ==> ArePairApart(steps[i], steps[j], pid)
  }

  lemma StepUntouched(d: Progress, step: Step, ip: Ipv4, faults: Faults, p: string)
    requires !step.RemoveOurs? && !Touches(step, p, faults.pid)
    ensures Get(Step1(d, step, ip, faults).files, p) == Get(d.files, p)
  {
    if step.Write? {
      AttemptIs(d.files, step.path, step.content, faults);
    }
  }

  lemma {:induction false} Untouched(d: Progress, steps: seq<Step>, ip: Ipv4, faults: Faults, p: string)
    requires OnlyWrites(steps) && forall i :: 0 <= i < |steps| ==> !Touches(steps[i], p, faults.pid)
    ensures Get(Executed(d, steps, ip, faults).files, p) == Get(d.files, p)
    decreases |steps|
  {
    if steps != [] {
      StepUntouched(d, steps[0], ip, faults, p);
      Untouched(Step1(d, steps[0], ip, faults), steps[1..], ip, faults, p);
    }
  }

  /** How a write goes depends on its two files alone. */
  lemma SameStep(d: Progress, e: Progress, path: string, content: string, faults: Faults)
    requires Get(d.files, path) == Get(e.files, path)
    requires Get(d.files, TempOf(path, faults.pid)) == Get(e.files, TempOf(path, faults.pid))
    ensures var after, other := WriteStep(d, path, content, faults).files, WriteStep(e, path, content, faults).files;
            && Get(after, path) == Get(other, path)
            && Get(after, TempOf(path, faults.pid)) == Get(other, TempOf(path, faults.pid))
    ensures Applies(d.files, path, content, faults) <==> Applies(e.files, path, content, faults)
  {
    JobIs(path, content, faults.pid);
  }

  /**
   In a plan of writes apart from each other every write goes as it would by itself: its path and its
   temporary file end as one write from the start leaves them.
   */
  lemma {:induction false} WritesAreExact(d: Progress, steps: seq<Step>, ip: Ipv4, faults: Faults, i: nat, p: string)
    requires OnlyWrites(steps) && AreApart(steps, faults.pid) && i < |steps| && Touches(steps[i], p, faults.pid)
    ensures Get(Executed(d, steps, ip, faults).files, p)
            == Get(WriteStep(d, steps[i].path, steps[i].content, faults).files, p)
    decreases |steps|
  {
    var d', rest := Step1(d, steps[0], ip, faults), steps[1..];
    if i == 0 {
      forall j | 0 <= j < |rest| ensures !Touches(rest[j], p, faults.pid) {
        assert ArePairApart(steps[0], steps[j + 1], faults.pid);
      }
      Untouched(d', rest, ip, faults, p);
    } else {
      assert ArePairApart(steps[0], steps[i], faults.pid);
      var path := steps[i].path;
      StepUntouched(d, steps[0], ip, faults, path);
      StepUntouched(d, steps[0], ip, faults, TempOf(path, faults.pid));
      SameStep(d, d', path, steps[i].content, faults);
      WritesAreExact(d', rest, ip, faults, i - 1, p);
    }
  }

  lemma WrittenPath(d: Progress, path: string, content: string, faults: Faults)
    ensures Get(WriteStep(d, path, content, faults).files, path)
            == if Applies(d.files, path, content, faults) then Some(Legible(content)) else Get(d.files, path)
    ensures var t, after := TempOf(path, faults.pid), WriteStep(d, path, content, faults).files;
            if TextOf(d.files, path, faults) != Some(content) && LeavesTemp(d.files, path, faults)
            then t !in d.files && t in after && IsBeginning(after[t], content)
            else Get(after, t) == Get(d.files, t)
  {
    JobIs(path, content, faults.pid);
    AttemptIs(d.files, path, content, faults);
  }

  // -- what a report says ----------------------------------------------------------------------

  lemma {:induction false} RemovedOnlyShrinks(d: Progress, steps: seq<Step>, ip: Ipv4, faults: Faults, p: string)
    requires OnlyRemoves(steps)
    ensures p in Executed(d, steps, ip, faults).files ==> p in d.files
    decreases |steps|
  {
    if steps != [] {
      RemovedOnlyShrinks(Step1(d, steps[0], ip, faults), steps[1..], ip, faults, p);
    }
  }

  /** A removal is reported exactly when the file went away. */
  lemma {:induction false} RemovedIsReported(d: Progress, steps: seq<Step>, ip: Ipv4, faults: Faults, p: string)
    requires OnlyRemoves(steps)
    ensures var out := Executed(d, steps, ip, faults);
            p in out.report.removed
            <==> || p in d.report.removed
                 || (p in d.files && p !in out.files)
                 || (Ps(p, Removed) in steps && faults.shellWorks)
    decreases |steps|
  {
    if steps != [] {
      var d' := Step1(d, steps[0], ip, faults);
      RemovedIsReported(d', steps[1..], ip, faults, p);
      RemovedOnlyShrinks(d', steps[1..], ip, faults, p);
      assert steps == [steps[0]] + steps[1..];
    }
  }

  /** A write is reported exactly when it applies. */
  lemma {:induction false} AppliedIsReported(d: Progress, steps: seq<Step>, ip: Ipv4, faults: Faults, p: string)
    requires OnlyWrites(steps) && AreApart(steps, faults.pid)
    ensures p in Executed(d, steps, ip, faults).report.applied
            <==> || p in d.report.applied
                 || (exists c :: Write(p, c) in steps && Applies(d.files, p, c, faults))
                 || (Ps(p, Applied) in steps && faults.shellWorks)
    decreases |steps|
  {
    if steps != [] {
      var d', rest := Step1(d, steps[0], ip, faults), steps[1..];
      assert steps == [steps[0]] + rest;
      AppliedIsReported(d', rest, ip, faults, p);
      forall c | Write(p, c) in rest ensures Applies(d.files, p, c, faults) <==> Applies(d'.files, p, c, faults) {
        AppliesLater(d, steps, ip, faults, p, c);
      }
      StepReports(d, steps[0], ip, faults, p);
    }
  }

  lemma AppliesLater(d: Progress, steps: seq<Step>, ip: Ipv4, faults: Faults, p: string, c: string)
    requires OnlyWrites(steps) && AreApart(steps, faults.pid) && steps != [] && Write(p, c) in steps[1..]
    ensures Applies(d.files, p, c, faults) <==> Applies(Step1(d, steps[0], ip, faults).files, p, c, faults)
  {
    var j :| 0 <= j < |steps[1..]| && steps[1..][j] == Write(p, c);
    assert ArePairApart(steps[0], steps[j + 1], faults.pid);
    StepUntouched(d, steps[0], ip, faults, p);
    StepUntouched(d, steps[0], ip, faults, TempOf(p, faults.pid));
    SameStep(d, Step1(d, steps[0], ip, faults), p, c, faults);
  }

  lemma StepReports(d: Progress, step: Step, ip: Ipv4, faults: Faults, p: string)
    requires !step.RemoveOurs?
    ensures p in Step1(d, step, ip, faults).report.applied
            <==> || p in d.report.applied
                 || (step.Write? && step.path == p && Applies(d.files, p, step.content, faults))
                 || (step == Ps(p, Applied) && faults.shellWorks)
  {
    if step.Write? {
      AttemptIs(d.files, step.path, step.content, faults);
    }
  }

  // -- the two plans ---------------------------------------------------------------------------

  lemma PlanShapes(os: Os, owner: ResolvOwner, ip: Ipv4, tld: string)
    ensures OnlyWrites(ConfigureSteps(os, owner, ip, tld)) && OnlyRemoves(UnconfigureSteps(os, tld))
    ensures forall step :: step in ConfigureSteps(os, owner, ip, tld) && step.Write? ==> step.path in PlanPaths(os, tld)
    ensures forall p :: p in RemovePaths(UnconfigureSteps(os, tld)) <==> p in PlanPaths(os, tld)
  {
    UnconfigurePaths(os, tld);
  }

  /** The files the tool owns on an OS. */
  function PlanPaths(os: Os, tld: string): seq<string> {
    match os
    case Linux => [LINUX_RESOLVED_DROPIN, LINUX_NM_DNSMASQ_CONF]
    case MacOs => [MACOS_LO0_PLIST, MacosResolverPath(tld)]
    case Windows => []
    case OtherOs => []
  }

  lemma {:induction false} RemovePathsOf(steps: seq<Step>, p: string)
    ensures p in RemovePaths(steps) <==> RemoveOurs(p) in steps
  {
    if steps != [] {
      RemovePathsOf(steps[1..], p);
      assert steps == [steps[0]] + steps[1..];
    }
  }

  lemma UnconfigurePaths(os: Os, tld: string)
    ensures forall p :: p in RemovePaths(UnconfigureSteps(os, tld)) <==> p in PlanPaths(os, tld)
  {
    forall p ensures p in RemovePaths(UnconfigureSteps(os, tld)) <==> p in PlanPaths(os, tld) {
      RemovePathsOf(UnconfigureSteps(os, tld), p);
      assert UnconfigureSteps(Linux, tld)[0] == RemoveOurs(LINUX_RESOLVED_DROPIN);
      assert UnconfigureSteps(Linux, tld)[3] == RemoveOurs(LINUX_NM_DNSMASQ_CONF);
      assert UnconfigureSteps(MacOs, tld)[1] == RemoveOurs(MACOS_LO0_PLIST);
      assert UnconfigureSteps(MacOs, tld)[3] == RemoveOurs(MacosResolverPath(tld));
    }
  }

  /** Everything configuring writes carries the marker, so unconfiguring may remove it. */
  lemma WrittenIsOurs(os: Os, owner: ResolvOwner, ip: Ipv4, tld: string, step: Step)
    requires step in ConfigureSteps(os, owner, ip, tld) && step.Write?
    ensures IsOurs(step.content, ip)
  {
    ArtifactsAreMarked(ip, tld);
  }

  function Configured(files: Files, os: Os, owner: ResolvOwner, ip: Ipv4, tld: string, faults: Faults): Progress {
    Executed(Start(files), ConfigureSteps(os, owner, ip, tld), ip, faults)
  }

  function Unconfigured(files: Files, os: Os, ip: Ipv4, tld: string, faults: Faults): Progress {
    Executed(Start(files), UnconfigureSteps(os, tld), ip, faults)
  }

  /** Unconfiguring removes exactly the plan's paths whose content is ours, and nothing else. */
  lemma UnconfigureIsExact(files: Files, os: Os, ip: Ipv4, tld: string, faults: Faults)
    ensures Unconfigured(files, os, ip, tld, faults).files
            == map p | p in files && !(p in PlanPaths(os, tld) && Removable(files, p, ip, faults)) :: files[p]
  {
    var steps := UnconfigureSteps(os, tld);
    UnconfigureOnlyRemoves(os, tld);
    UnconfigurePaths(os, tld);
    RemovalsAreExact(Start(files), steps, ip, faults);
    KeepsTheRest(files, RemovePaths(steps), PlanPaths(os, tld), ip, faults);
  }

  lemma UnconfigureOnlyRemoves(os: Os, tld: string)
    ensures OnlyRemoves(UnconfigureSteps(os, tld))
  {
  }

  lemma KeepsTheRest(files: Files, paths: seq<string>, planned: seq<string>, ip: Ipv4, faults: Faults)
    requires forall p :: p in paths <==> p in planned
    ensures files - RemovableSet(files, paths, ip, faults)
            == map p | p in files && !(p in planned && Removable(files, p, ip, faults)) :: files[p]
  {
  }

  // -- configuring -----------------------------------------------------------------------------

  lemma TempKeepsSecond(path: string, pid: string, i: nat)
    requires 1 <= i < |path| && path[i] == '/'
    ensures |TempOf(path, pid)| >= 2 && TempOf(path, pid)[1] == path[1]
  {
    assert NameAt(path) > i;
  }

  lemma TempEnds(path: string, pid: string)
    ensures TempOf(path, pid) != "" && TempOf(path, pid)[|TempOf(path, pid)| - 1] == 'p'
  {
    var front := JobOf(path, "", pid).dir + "." + JobOf(path, "", pid).name + ".dig-dns." + pid;
    assert TempOf(path, pid) == front + ".tmp";
    assert ".tmp"[3] == 'p';
  }

  lemma MacPaths(tld: string, pid: string)
    ensures var a, b := MACOS_LO0_PLIST, MacosResolverPath(tld);
            && |a| >= 2 && |b| >= 2 && a[1] == 'L' && b[1] == 'e'
            && |TempOf(a, pid)| >= 2 && |TempOf(b, pid)| >= 2 && TempOf(a, pid)[1] == 'L' && TempOf(b, pid)[1] == 'e'
  {
    assert "/Library/"[1] == 'L' && "/Library/"[8] == '/';
    assert "/etc/resolver/"[1] == 'e' && "/etc/resolver/"[13] == '/';
    TempKeepsSecond(MACOS_LO0_PLIST, pid, 8);
    TempKeepsSecond(MacosResolverPath(tld), pid, 13);
  }

  lemma LinuxPaths()
    ensures var a, b := LINUX_RESOLVED_DROPIN, LINUX_NM_DNSMASQ_CONF;
            a != "" && b != "" && a[|a| - 1] == 'f' && b[|b| - 1] == 'f'
  {
  }

  lemma SecondsApart(a: string, b: string, ca: string, cb: string, pid: string)
    requires |a| >= 2 && |b| >= 2 && |TempOf(a, pid)| >= 2 && |TempOf(b, pid)| >= 2
    requires a[1] == TempOf(a, pid)[1] != b[1] == TempOf(b, pid)[1]
    ensures ArePairApart(Write(a, ca), Write(b, cb), pid)
    ensures TempOf(a, pid) != b && TempOf(b, pid) != a
  {
  }

  lemma MacIsApart(owner: ResolvOwner, ip: Ipv4, tld: string, pid: string)
    ensures AreApart(ConfigureSteps(MacOs, owner, ip, tld), pid)
  {
    var steps := ConfigureSteps(MacOs, owner, ip, tld);
    MacPaths(tld, pid);
    SecondsApart(MACOS_LO0_PLIST, MacosResolverPath(tld), Lo0Plist(ip), ResolverFile(ip), pid);
    forall i, j | 0 <= i < j < |steps| ensures ArePairApart(steps[i], steps[j], pid) {
      assert steps[i].Write? && steps[j].Write? ==> i == 1 && j == 5;
    }
  }

  /** Temporary files and artifacts do not get in each other's way. */
  lemma PlanIsApart(os: Os, owner: ResolvOwner, ip: Ipv4, tld: string, pid: string)
    ensures AreApart(ConfigureSteps(os, owner, ip, tld), pid)
  {
    if os == MacOs {
      MacIsApart(owner, ip, tld, pid);
    } else {
      var steps := ConfigureSteps(os, owner, ip, tld);
      forall i, j | 0 <= i < j < |steps| ensures ArePairApart(steps[i], steps[j], pid) {
        assert !steps[j].Write?;
      }
    }
  }

  lemma TempsAreNotPlanned(os: Os, tld: string, pid: string, p: string, q: string)
    requires p in PlanPaths(os, tld) && q in PlanPaths(os, tld)
    ensures TempOf(p, pid) != q
  {
    JobIs(p, "", pid);
    if os == MacOs {
      MacTemps(tld, pid, p, q);
    } else {
      LinuxTemps(tld, pid, p, q);
    }
  }

  lemma MacTemps(tld: string, pid: string, p: string, q: string)
    requires p in PlanPaths(MacOs, tld) && q in PlanPaths(MacOs, tld) && TempOf(p, pid) != p
    ensures TempOf(p, pid) != q
  {
    var a, b := MACOS_LO0_PLIST, MacosResolverPath(tld);
    MacPaths(tld, pid);
    SecondsApart(a, b, "", "", pid);
    assert (p == a || p == b) && (q == a || q == b);
  }

  lemma LinuxTemps(tld: string, pid: string, p: string, q: string)
    requires q in PlanPaths(Linux, tld)
    ensures TempOf(p, pid) != q
  {
    LinuxPaths();
    TempEnds(p, pid);
    var t := TempOf(p, pid);
    assert q == LINUX_RESOLVED_DROPIN || q == LINUX_NM_DNSMASQ_CONF;
    assert q[|q| - 1] == 'f' && t[|t| - 1] == 'p';
  }

  // -- what configuring does to one path -------------------------------------------------------

  lemma ConfiguredPath(files: Files, os: Os, owner: ResolvOwner, ip: Ipv4, tld: string, faults: Faults, p: string,
                       c: string)
    requires Write(p, c) in ConfigureSteps(os, owner, ip, tld)
    ensures var after := Configured(files, os, owner, ip, tld, faults).files;
            && Get(after, p) == (if Applies(files, p, c, faults) then Some(Legible(c)) else Get(files, p))
            && var t := TempOf(p, faults.pid);
            if TextOf(files, p, faults) != Some(c) && LeavesTemp(files, p, faults)
            then t !in files && t in after && IsBeginning(after[t], c)
            else Get(after, t) == Get(files, t)
  {
    var steps, t := ConfigureSteps(os, owner, ip, tld), TempOf(p, faults.pid);
    PlanShapes(os, owner, ip, tld);
    PlanIsApart(os, owner, ip, tld, faults.pid);
    var i :| 0 <= i < |steps| && steps[i] == Write(p, c);
    WritesAreExact(Start(files), steps, ip, faults, i, p);
    WritesAreExact(Start(files), steps, ip, faults, i, t);
    WrittenPath(Start(files), p, c, faults);
    var after := Configured(files, os, owner, ip, tld, faults).files;
    var alone := WriteStep(Start(files), p, c, faults).files;
    assert Get(after, t) == Get(alone, t);
  }

  lemma ConfiguredElsewhere(files: Files, os: Os, owner: ResolvOwner, ip: Ipv4, tld: string, faults: Faults, x: string)
    requires forall step :: step in ConfigureSteps(os, owner, ip, tld) ==> !Touches(step, x, faults.pid)
    ensures Get(Configured(files, os, owner, ip, tld, faults).files, x) == Get(files, x)
  {
    PlanShapes(os, owner, ip, tld);
    Untouched(Start(files), ConfigureSteps(os, owner, ip, tld), ip, faults, x);
  }

  /** A write that would change nothing. */
  predicate IsQuiet(files: Files, p: string, c: string, faults: Faults) {
    if Get(files, p) == Some(Legible(c)) then faults.read(p) ==> !LeavesTemp(files, p, faults)
    else !CanWrite(files, p, faults) && !LeavesTemp(files, p, faults)
  }

  lemma QuietPath(files: Files, os: Os, owner: ResolvOwner, ip: Ipv4, tld: string, faults: Faults, p: string, c: string)
    requires Write(p, c) in ConfigureSteps(os, owner, ip, tld)
    ensures var after, t := Configured(files, os, owner, ip, tld, faults).files, TempOf(p, faults.pid);
            Get(after, p) == Get(files, p) && Get(after, t) == Get(files, t) <==> IsQuiet(files, p, c, faults)
  {
    ConfiguredPath(files, os, owner, ip, tld, faults, p, c);
  }

  /**
   Configuring changes nothing exactly when each write of the plan would change nothing: its content
   is in place and is seen, or at least leaves no temporary file; or the write fails without a trace.
   */
  lemma ConfigureIsQuiet(files: Files, os: Os, owner: ResolvOwner, ip: Ipv4, tld: string, faults: Faults)
    ensures Configured(files, os, owner, ip, tld, faults).files == files
            <==> forall p, c :: Write(p, c) in ConfigureSteps(os, owner, ip, tld) ==> IsQuiet(files, p, c, faults)
  {
    var steps, after := ConfigureSteps(os, owner, ip, tld), Configured(files, os, owner, ip, tld, faults).files;
    forall p, c | Write(p, c) in steps && after == files ensures IsQuiet(files, p, c, faults) {
      QuietPath(files, os, owner, ip, tld, faults, p, c);
    }
    if forall p, c :: Write(p, c) in steps ==> IsQuiet(files, p, c, faults) {
      forall x ensures Get(after, x) == Get(files, x) {
        QuietAt(files, os, owner, ip, tld, faults, x);
      }
      SameMaps(after, files);
    }
  }

  lemma QuietAt(files: Files, os: Os, owner: ResolvOwner, ip: Ipv4, tld: string, faults: Faults, x: string)
    requires forall p, c :: Write(p, c) in ConfigureSteps(os, owner, ip, tld) ==> IsQuiet(files, p, c, faults)
    ensures Get(Configured(files, os, owner, ip, tld, faults).files, x) == Get(files, x)
  {
    if step :| step in ConfigureSteps(os, owner, ip, tld) && Touches(step, x, faults.pid) {
      assert step == Write(step.path, step.content);
      QuietPath(files, os, owner, ip, tld, faults, step.path, step.content);
    } else {
      ConfiguredElsewhere(files, os, owner, ip, tld, faults, x);
    }
  }

  /** Each write is quiet when it is repeated by the same process under the same faults. */
  lemma QuietAgain(files: Files, os: Os, owner: ResolvOwner, ip: Ipv4, tld: string, faults: Faults, p: string,
                   c: string)
    requires Write(p, c) in ConfigureSteps(os, owner, ip, tld)
    ensures IsQuiet(Configured(files, os, owner, ip, tld, faults).files, p, c, faults)
  {
    ConfiguredPath(files, os, owner, ip, tld, faults, p, c);
  }

  /**
   Configuring again changes nothing, under the same faults always, and under others exactly when
   each write is quiet on what the first run left.
   */
  lemma ConfigureIsIdempotent(files: Files, os: Os, owner: ResolvOwner, ip: Ipv4, tld: string, f: Faults, g: Faults)
    ensures var once := Configured(files, os, owner, ip, tld, f).files;
            && Configured(once, os, owner, ip, tld, f).files == once
            && (Configured(once, os, owner, ip, tld, g).files == once
                <==> forall p, c :: Write(p, c) in ConfigureSteps(os, owner, ip, tld) ==> IsQuiet(once, p, c, g))
  {
    var once := Configured(files, os, owner, ip, tld, f).files;
    forall p, c | Write(p, c) in ConfigureSteps(os, owner, ip, tld) ensures IsQuiet(once, p, c, f) {
      QuietAgain(files, os, owner, ip, tld, f, p, c);
    }
    ConfigureIsQuiet(once, os, owner, ip, tld, f);
    ConfigureIsQuiet(once, os, owner, ip, tld, g);
  }

  /** No write of the plan leaves its temporary file. */
  ghost predicate LeavesNone(files: Files, steps: seq<Step>, faults: Faults) {
    forall p, c :: Write(p, c) in steps ==> !LeavesTemp(files, p, faults)
  }

  /**
   Starting with none of the plan's paths present, configuring and then unconfiguring with the same
   TLD leaves the files as they were exactly when no write failed leaving its temporary file, which
   nothing removes, and every artifact that got written can be read and removed.
   */
  lemma ConfigureThenUnconfigure(files: Files, os: Os, owner: ResolvOwner, ip: Ipv4, tld: string, f: Faults, g: Faults)
    requires forall p :: p in PlanPaths(os, tld) ==> p !in files
    ensures var mid := Configured(files, os, owner, ip, tld, f).files;
            Unconfigured(mid, os, ip, tld, g).files == files
            <==> && LeavesNone(files, ConfigureSteps(os, owner, ip, tld), f)
                 && forall p :: p in PlanPaths(os, tld) && p in mid ==> !g.read(p) && !g.remove(p)
  {
    var steps, mid := ConfigureSteps(os, owner, ip, tld), Configured(files, os, owner, ip, tld, f).files;
    var out, paths := Unconfigured(mid, os, ip, tld, g).files, PlanPaths(os, tld);
    forall x ensures Get(out, x) == if x in paths && Removable(mid, x, ip, g) then None else Get(mid, x) {
      UnconfiguredAt(mid, os, ip, tld, g, x);
    }
    forall x | x in paths && x in mid ensures mid[x].Legible? && IsOurs(mid[x].text, ip) {
      PlannedIsOurs(files, os, owner, ip, tld, f, x);
    }
    var clean := LeavesNone(files, steps, f);
    if clean {
      forall x | x !in paths ensures Get(mid, x) == Get(files, x) {
        UnplannedStays(files, os, owner, ip, tld, f, x);
      }
    } else {
      SomeTempStays(files, os, owner, ip, tld, f);
    }
    RestoredExactly(files, mid, out, paths, ip, g, clean);
  }

  lemma UnconfiguredAt(files: Files, os: Os, ip: Ipv4, tld: string, g: Faults, x: string)
    ensures Get(Unconfigured(files, os, ip, tld, g).files, x)
            == if x in PlanPaths(os, tld) && Removable(files, x, ip, g) then None else Get(files, x)
  {
    UnconfigureIsExact(files, os, ip, tld, g);
  }

  /** The round trip by what each run does to every path. */
  lemma RestoredExactly(files: Files, mid: Files, out: Files, paths: seq<string>, ip: Ipv4, g: Faults, clean: bool)
    requires forall x :: x in paths ==> x !in files
    requires forall x :: x in paths && x in mid ==> mid[x].Legible? && IsOurs(mid[x].text, ip)
    requires forall x :: Get(out, x) == if x in paths && Removable(mid, x, ip, g) then None else Get(mid, x)
    requires clean ==> forall x :: x !in paths ==> Get(mid, x) == Get(files, x)
    requires !clean ==> exists t :: t !in paths && t !in files && t in mid
    ensures out == files <==> clean && forall p :: p in paths && p in mid ==> !g.read(p) && !g.remove(p)
  {
    SameMaps(out, files);
    if !clean {
      var t :| t !in paths && t !in files && t in mid;
      assert Get(out, t) != Get(files, t);
    } else if p :| p in paths && p in mid && (g.read(p) || g.remove(p)) {
      assert Get(out, p) != Get(files, p);
    } else {
      forall x ensures Get(out, x) == Get(files, x) {
        assert x in paths && x in mid ==> Removable(mid, x, ip, g);
      }
    }
  }

  lemma PlannedIsOurs(files: Files, os: Os, owner: ResolvOwner, ip: Ipv4, tld: string, f: Faults, x: string)
    requires x in PlanPaths(os, tld) && x !in files && x in Configured(files, os, owner, ip, tld, f).files
    ensures var mid := Configured(files, os, owner, ip, tld, f).files; mid[x].Legible? && IsOurs(mid[x].text, ip)
  {
    var steps := ConfigureSteps(os, owner, ip, tld);
    if c :| Write(x, c) in steps {
      ConfiguredPath(files, os, owner, ip, tld, f, x, c);
      WrittenIsOurs(os, owner, ip, tld, Write(x, c));
    } else {
      forall step | step in steps ensures !Touches(step, x, f.pid) {
        PlannedIsNoTemp(os, owner, ip, tld, f.pid, step, x);
        assert step.Write? ==> step == Write(step.path, step.content);
      }
      ConfiguredElsewhere(files, os, owner, ip, tld, f, x);
    }
  }

  lemma PlannedIsNoTemp(os: Os, owner: ResolvOwner, ip: Ipv4, tld: string, pid: string, step: Step, x: string)
    requires x in PlanPaths(os, tld) && step in ConfigureSteps(os, owner, ip, tld)
    ensures step.Write? ==> x != TempOf(step.path, pid)
  {
    PlanShapes(os, owner, ip, tld);
    if step.Write? {
      TempsAreNotPlanned(os, tld, pid, step.path, x);
    }
  }

  lemma UnplannedStays(files: Files, os: Os, owner: ResolvOwner, ip: Ipv4, tld: string, f: Faults, x: string)
    requires x !in PlanPaths(os, tld) && LeavesNone(files, ConfigureSteps(os, owner, ip, tld), f)
    ensures Get(Configured(files, os, owner, ip, tld, f).files, x) == Get(files, x)
  {
    var steps := ConfigureSteps(os, owner, ip, tld);
    PlanShapes(os, owner, ip, tld);
    if step :| step in steps && Touches(step, x, f.pid) {
      assert step == Write(step.path, step.content);
      ConfiguredPath(files, os, owner, ip, tld, f, step.path, step.content);
    } else {
      ConfiguredElsewhere(files, os, owner, ip, tld, f, x);
    }
  }

  lemma SomeTempStays(files: Files, os: Os, owner: ResolvOwner, ip: Ipv4, tld: string, f: Faults)
    requires !LeavesNone(files, ConfigureSteps(os, owner, ip, tld), f)
    requires forall p :: p in PlanPaths(os, tld) ==> p !in files
    ensures exists t :: t !in PlanPaths(os, tld) && t !in files && t in Configured(files, os, owner, ip, tld, f).files
  {
    var p, c :| Write(p, c) in ConfigureSteps(os, owner, ip, tld) && LeavesTemp(files, p, f);
    var t := TempOf(p, f.pid);
    PlanShapes(os, owner, ip, tld);
    ConfiguredPath(files, os, owner, ip, tld, f, p, c);
    assert t !in PlanPaths(os, tld) by {
      if t in PlanPaths(os, tld) {
        TempsAreNotPlanned(os, tld, f.pid, p, t);
      }
    }
  }

  /** The lists of a report are the steps that succeeded: contents in place, and files that went away. */
  lemma ReportsMatch(files: Files, os: Os, owner: ResolvOwner, ip: Ipv4, tld: string, faults: Faults, p: string)
    ensures var d, steps := Configured(files, os, owner, ip, tld, faults), ConfigureSteps(os, owner, ip, tld);
            p in d.report.applied
            <==> || (exists c :: Write(p, c) in steps && InPlace(files, d.files, p, c, faults))
                 || (Ps(p, Applied) in steps && faults.shellWorks)
    ensures var d := Unconfigured(files, os, ip, tld, faults);
            p in d.report.removed
            <==> (p in files && p !in d.files) || (Ps(p, Removed) in UnconfigureSteps(os, tld) && faults.shellWorks)
  {
    PlanShapes(os, owner, ip, tld);
    PlanIsApart(os, owner, ip, tld, faults.pid);
    var steps := ConfigureSteps(os, owner, ip, tld);
    AppliedIsReported(Start(files), steps, ip, faults, p);
    RemovedIsReported(Start(files), UnconfigureSteps(os, tld), ip, faults, p);
    var after := Configured(files, os, owner, ip, tld, faults).files;
    forall c | Write(p, c) in steps ensures InPlace(files, after, p, c, faults) <==> Applies(files, p, c, faults) {
      ConfiguredPath(files, os, owner, ip, tld, faults, p, c);
    }
  }

  /** The content is at the path in the end, and could be seen there or was written. */
  predicate InPlace(before: Files, after: Files, p: string, c: string, faults: Faults) {
    Get(after, p) == Some(Legible(c)) && (!faults.read(p) || CanWrite(before, p, faults))
  }

  /**
   Unconfiguring again changes nothing, under the same faults always, and under others exactly when
   nothing of ours that the first run had to leave can be removed now.
   */
  lemma UnconfigureIsIdempotent(files: Files, os: Os, ip: Ipv4, tld: string, f: Faults, g: Faults)
    ensures var once := Unconfigured(files, os, ip, tld, f).files;
            && Unconfigured(once, os, ip, tld, f).files == once
            && (Unconfigured(once, os, ip, tld, g).files == once
                <==> forall p :: p in PlanPaths(os, tld) ==> !Removable(once, p, ip, g))
  {
    var once := Unconfigured(files, os, ip, tld, f).files;
    UnconfigureIsExact(files, os, ip, tld, f);
    UnconfigureIsExact(once, os, ip, tld, f);
    UnconfigureIsExact(once, os, ip, tld, g);
    if p :| p in PlanPaths(os, tld) && Removable(once, p, ip, g) {
      assert p in once && p !in Unconfigured(once, os, ip, tld, g).files;
    }
  }

  // -- what configuring wires ------------------------------------------------------------------

  /** Just these paths may have changed, and are there. */
  ghost predicate OnlyThese(before: Files, after: Files, paths: set<string>) {
    && (forall p :: p in paths ==> p in after && after[p].Legible?)
    && forall p :: p !in paths ==> Get(after, p) == Get(before, p)
  }

  /** The text routes the TLD to the address, as the reader of the file would have it. */
  predicate RoutesByResolved(text: string, ip: Ipv4, tld: string) {
    var section := Section(Split(text, '\n'), "[Resolve]");
    var dns := Setting(section, "DNS=");
    dns.Some? && Config.ParseIp(dns.value) == Some(ip) && Setting(section, "Domains=~") == Some(tld)
  }

  predicate RoutesByDnsmasq(text: string, ip: Ipv4, tld: string) {
    var rule := Setting(Split(text, '\n'), "server=/");
    && rule.Some?
    && var parts := Split(rule.value, '/');
    |parts| == 2 && parts[0] == tld && Config.ParseIp(parts[1]) == Some(ip)
  }

  predicate NamesServer(text: string, ip: Ipv4) {
    var server := Setting(Split(text, '\n'), "nameserver ");
    server.Some? && Config.ParseIp(server.value) == Some(ip)
  }

  predicate AliasesAddress(text: string, ip: Ipv4) {
    var command := ReadElements(Split(text, '\n'));
    && |command| == 5 && command[..3] == ["/sbin/ifconfig", "lo0", "alias"] && command[4] == "up"
    && Config.ParseIp(command[3]) == Some(ip)
  }

  lemma ArtifactsRoute(ip: Ipv4, tld: string)
    requires Host.IsSafeTld(tld)
    ensures RoutesByResolved(SystemdResolvedDropin(ip, tld), ip, tld)
    ensures RoutesByDnsmasq(NetworkManagerConf(ip, tld), ip, tld)
    ensures NamesServer(ResolverFile(ip), ip) && AliasesAddress(Lo0Plist(ip), ip)
  {
    ResolvedIsRead(ip, tld);
    DnsmasqIsRead(ip, tld);
    ResolverFileIsRead(ip);
    PlistIsRead(ip);
    Config.IpRoundTrip(ip);
  }

  /** No write can fail: none has a fault, and no temporary file of this process is in the way. */
  ghost predicate WritesFreely(files: Files, faults: Faults) {
    && (forall p :: faults.write(p).Succeeds?)
    && forall p :: TempOf(p, faults.pid) !in files
  }

  /** What each OS and owner needs, on the files. */
  ghost predicate IsWired(before: Files, after: Files, os: Os, owner: ResolvOwner, ip: Ipv4, tld: string) {
    var resolved, dnsmasq := "/etc/systemd/resolved.conf.d/dig.conf", "/etc/NetworkManager/dnsmasq.d/dig.conf";
    var plist, resolver := "/Library/" + "LaunchDaemons/net.dignetwork.dig-dns-lo0.plist", "/etc/resolver/" + tld;
    match os
    case Linux =>
      (match owner
       case SystemdResolved =>
         OnlyThese(before, after, {resolved}) && RoutesByResolved(after[resolved].text, ip, tld)
       case NetworkManagerDnsmasq =>
         OnlyThese(before, after, {dnsmasq}) && RoutesByDnsmasq(after[dnsmasq].text, ip, tld)
       case UnknownOwner => after == before)
    case MacOs =>
      && OnlyThese(before, after, {plist, resolver})
      && AliasesAddress(after[plist].text, ip) && NamesServer(after[resolver].text, ip)
    case Windows => after == before
    case OtherOs => after == before
  }

  lemma WrittenFreely(files: Files, os: Os, owner: ResolvOwner, ip: Ipv4, tld: string, faults: Faults, p: string,
                      c: string)
    requires WritesFreely(files, faults) && IsNamed(p) && Write(p, c) in ConfigureSteps(os, owner, ip, tld)
    ensures var after := Configured(files, os, owner, ip, tld, faults).files;
            && Get(after, p) == Some(Legible(c))
            && Get(after, TempOf(p, faults.pid)) == Get(files, TempOf(p, faults.pid))
  {
    ConfiguredPath(files, os, owner, ip, tld, faults, p, c);
  }

  lemma ElsewhereStays(files: Files, os: Os, owner: ResolvOwner, ip: Ipv4, tld: string, faults: Faults, x: string)
    requires WritesFreely(files, faults)
    requires forall p, c :: Write(p, c) in ConfigureSteps(os, owner, ip, tld) ==> IsNamed(p) && p != x
    ensures Get(Configured(files, os, owner, ip, tld, faults).files, x) == Get(files, x)
  {
    if step :| step in ConfigureSteps(os, owner, ip, tld) && Touches(step, x, faults.pid) {
      assert step == Write(step.path, step.content);
      WrittenFreely(files, os, owner, ip, tld, faults, step.path, step.content);
    } else {
      ConfiguredElsewhere(files, os, owner, ip, tld, faults, x);
    }
  }

  /** The writes of a plan change their paths alone. */
  lemma AllAreWritten(files: Files, os: Os, owner: ResolvOwner, ip: Ipv4, tld: string, faults: Faults,
                      paths: set<string>)
    requires WritesFreely(files, faults)
    requires forall x, e :: Write(x, e) in ConfigureSteps(os, owner, ip, tld) ==> x in paths && IsNamed(x)
    requires forall x :: x in paths ==> exists e :: Write(x, e) in ConfigureSteps(os, owner, ip, tld)
    ensures var after := Configured(files, os, owner, ip, tld, faults).files;
            && OnlyThese(files, after, paths)
            && forall x, e :: Write(x, e) in ConfigureSteps(os, owner, ip, tld) ==> after[x] == Legible(e)
  {
    var after := Configured(files, os, owner, ip, tld, faults).files;
    forall x, e | Write(x, e) in ConfigureSteps(os, owner, ip, tld) ensures Get(after, x) == Some(Legible(e)) {
      WrittenFreely(files, os, owner, ip, tld, faults, x, e);
    }
    TheRestStays(files, os, owner, ip, tld, faults, paths);
  }

  lemma ResolvedWrites(ip: Ipv4, tld: string)
    ensures var steps := ConfigureSteps(Linux, SystemdResolved, ip, tld);
            && Write(LINUX_RESOLVED_DROPIN, SystemdResolvedDropin(ip, tld)) in steps
            && forall q, d :: Write(q, d) in steps ==> q == LINUX_RESOLVED_DROPIN
  {
    var steps := ConfigureSteps(Linux, SystemdResolved, ip, tld);
    assert steps[0] == Write(LINUX_RESOLVED_DROPIN, SystemdResolvedDropin(ip, tld));
  }

  lemma DnsmasqWrites(ip: Ipv4, tld: string)
    ensures var steps := ConfigureSteps(Linux, NetworkManagerDnsmasq, ip, tld);
            && Write(LINUX_NM_DNSMASQ_CONF, NetworkManagerConf(ip, tld)) in steps
            && forall q, d :: Write(q, d) in steps ==> q == LINUX_NM_DNSMASQ_CONF
  {
    var steps := ConfigureSteps(Linux, NetworkManagerDnsmasq, ip, tld);
    assert steps[0] == Write(LINUX_NM_DNSMASQ_CONF, NetworkManagerConf(ip, tld));
  }

  lemma ResolvedIsWritten(files: Files, ip: Ipv4, tld: string, faults: Faults)
    requires WritesFreely(files, faults)
    ensures var after := Configured(files, Linux, SystemdResolved, ip, tld, faults).files;
            && OnlyThese(files, after, {LINUX_RESOLVED_DROPIN})
            && after[LINUX_RESOLVED_DROPIN] == Legible(SystemdResolvedDropin(ip, tld))
  {
    ResolvedWrites(ip, tld);
    LinuxAreNamed();
    AllAreWritten(files, Linux, SystemdResolved, ip, tld, faults, {LINUX_RESOLVED_DROPIN});
  }

  lemma DnsmasqIsWritten(files: Files, ip: Ipv4, tld: string, faults: Faults)
    requires WritesFreely(files, faults)
    ensures var after := Configured(files, Linux, NetworkManagerDnsmasq, ip, tld, faults).files;
            && OnlyThese(files, after, {LINUX_NM_DNSMASQ_CONF})
            && after[LINUX_NM_DNSMASQ_CONF] == Legible(NetworkManagerConf(ip, tld))
  {
    DnsmasqWrites(ip, tld);
    LinuxAreNamed();
    AllAreWritten(files, Linux, NetworkManagerDnsmasq, ip, tld, faults, {LINUX_NM_DNSMASQ_CONF});
  }

  lemma MacIsWritten(files: Files, owner: ResolvOwner, ip: Ipv4, tld: string, faults: Faults)
    requires Host.IsSafeTld(tld) && WritesFreely(files, faults)
    ensures var after := Configured(files, MacOs, owner, ip, tld, faults).files;
            && OnlyThese(files, after, {MACOS_LO0_PLIST, MacosResolverPath(tld)})
            && after[MACOS_LO0_PLIST] == Legible(Lo0Plist(ip))
            && after[MacosResolverPath(tld)] == Legible(ResolverFile(ip))
  {
    MacAreNamed(tld);
    MacWrites(owner, ip, tld);
    AllAreWritten(files, MacOs, owner, ip, tld, faults, {MACOS_LO0_PLIST, MacosResolverPath(tld)});
  }

  lemma ResolvedIsWired(files: Files, ip: Ipv4, tld: string, faults: Faults)
    requires Host.IsSafeTld(tld) && WritesFreely(files, faults)
    ensures IsWired(files, Configured(files, Linux, SystemdResolved, ip, tld, faults).files, Linux, SystemdResolved,
                    ip, tld)
  {
    ResolvedIsWritten(files, ip, tld, faults);
    ArtifactsRoute(ip, tld);
  }

  lemma DnsmasqIsWired(files: Files, ip: Ipv4, tld: string, faults: Faults)
    requires Host.IsSafeTld(tld) && WritesFreely(files, faults)
    ensures IsWired(files, Configured(files, Linux, NetworkManagerDnsmasq, ip, tld, faults).files, Linux,
                    NetworkManagerDnsmasq, ip, tld)
  {
    DnsmasqIsWritten(files, ip, tld, faults);
    ArtifactsRoute(ip, tld);
  }

  lemma LinuxAreNamed()
    ensures IsNamed(LINUX_RESOLVED_DROPIN) && IsNamed(LINUX_NM_DNSMASQ_CONF)
  {
    LinuxPaths();
  }

  lemma MacAreNamed(tld: string)
    requires Host.IsSafeTld(tld)
    ensures IsNamed(MACOS_LO0_PLIST) && IsNamed(MacosResolverPath(tld)) && MACOS_LO0_PLIST != MacosResolverPath(tld)
  {
    assert Host.IsSafeTldChar(tld[|tld| - 1]);
    var path := MacosResolverPath(tld);
    assert path[|path| - 1] == tld[|tld| - 1];
    assert "plist"[4] == 't';
    MacPaths(tld, "");
    PlistEnds();
  }

  lemma PlistEnds()
    ensures MACOS_LO0_PLIST[|MACOS_LO0_PLIST| - 1] == 't'
  {
  }

  lemma TheRestStays(files: Files, os: Os, owner: ResolvOwner, ip: Ipv4, tld: string, faults: Faults,
                     paths: set<string>)
    requires WritesFreely(files, faults)
    requires forall x, e :: Write(x, e) in ConfigureSteps(os, owner, ip, tld) ==> x in paths && IsNamed(x)
    ensures forall x :: x !in paths ==>
              Get(Configured(files, os, owner, ip, tld, faults).files, x) == Get(files, x)
  {
    forall x | x !in paths
      ensures Get(Configured(files, os, owner, ip, tld, faults).files, x) == Get(files, x)
    {
      ElsewhereStays(files, os, owner, ip, tld, faults, x);
    }
  }

  lemma MacWrites(owner: ResolvOwner, ip: Ipv4, tld: string)
    ensures var steps := ConfigureSteps(MacOs, owner, ip, tld);
            && Write(MACOS_LO0_PLIST, Lo0Plist(ip)) in steps && Write(MacosResolverPath(tld), ResolverFile(ip)) in steps
            && forall x, e :: Write(x, e) in steps ==> x == MACOS_LO0_PLIST || x == MacosResolverPath(tld)
  {
    var steps := ConfigureSteps(MacOs, owner, ip, tld);
    assert steps[1] == Write(MACOS_LO0_PLIST, Lo0Plist(ip));
    assert steps[5] == Write(MacosResolverPath(tld), ResolverFile(ip));
  }

  lemma MacIsWired(files: Files, owner: ResolvOwner, ip: Ipv4, tld: string, faults: Faults)
    requires Host.IsSafeTld(tld) && WritesFreely(files, faults)
    ensures IsWired(files, Configured(files, MacOs, owner, ip, tld, faults).files, MacOs, owner, ip, tld)
  {
    MacIsWritten(files, owner, ip, tld, faults);
    ArtifactsRoute(ip, tld);
  }

  /**
   What configuring is for. When no write can fail, the one file that the resolver's owner reads is
   written, or on macOS the alias daemon and the resolver file, and nothing else; and its reader takes
   the address and the TLD back out of it. Where there is nothing to write nothing changes.
   */
  lemma ConfigureWires(files: Files, os: Os, owner: ResolvOwner, ip: Ipv4, tld: string, faults: Faults)
    requires Host.IsSafeTld(tld) && WritesFreely(files, faults)
    ensures IsWired(files, Configured(files, os, owner, ip, tld, faults).files, os, owner, ip, tld)
    ensures os == Windows && faults.shellWorks ==>
              Configured(files, os, owner, ip, tld, faults).report.applied == ["." + tld + " NRPT rule"]
  {
    match os
    case Linux =>
      match owner {
        case SystemdResolved => ResolvedIsWired(files, ip, tld, faults);
        case NetworkManagerDnsmasq => DnsmasqIsWired(files, ip, tld, faults);
        case UnknownOwner => NothingIsWritten(files, os, owner, ip, tld, faults);
      }
    case MacOs => MacIsWired(files, owner, ip, tld, faults);
    case Windows => NothingIsWritten(files, os, owner, ip, tld, faults);
    case OtherOs => NothingIsWritten(files, os, owner, ip, tld, faults);
  }

  lemma NothingIsWritten(files: Files, os: Os, owner: ResolvOwner, ip: Ipv4, tld: string, faults: Faults)
    requires os == Windows || os == OtherOs || (os == Linux && owner == UnknownOwner)
    ensures Configured(files, os, owner, ip, tld, faults).files == files
    ensures os == Windows && faults.shellWorks ==>
              Configured(files, os, owner, ip, tld, faults).report.applied == ["." + tld + " NRPT rule"]
  {
    var steps, d := ConfigureSteps(os, owner, ip, tld), Start(files);
    if os == Windows {
      var d1 := Step1(d, Ps(NrptEntry(tld), Applied), ip, faults);
      assert steps[0] == Ps(NrptEntry(tld), Applied) && steps[1..] == [PsExec];
      assert Executed(d, steps, ip, faults) == Executed(d1, [PsExec], ip, faults);
      assert [PsExec][1..] == [];
      assert Executed(d1, [PsExec], ip, faults) == Executed(d1, [], ip, faults) == d1;
    } else if os == Linux {
      assert steps[0] == Note && steps[1..] == [];
      assert Executed(d, steps, ip, faults) == Executed(d, [], ip, faults);
    }
  }

  /** What the tool may remove: a text with its own marker or the installer's, or the bare resolver line. */
  lemma OursMeans(content: string, ip: Ipv4)
    ensures IsOurs(content, ip)
            <==> || (exists a, b :: content == a + "managed by dig-dns configure-os" + b)
                 || (exists a, b :: content == a + ("managed by dig-installer " + "(dig-dns, task #177)") + b)
                 || Trim(content) == "nameserver " + Config.PrintIp(ip)
  {
    ContainsMeans(content, MARKER);
    ContainsMeans(content, LEGACY_INSTALLER_MARKER);
  }

  /** What unconfiguring may take away, by name. */
  lemma UnconfigureTouches(files: Files, os: Os, ip: Ipv4, tld: string, faults: Faults, p: string)
    requires p in files && p !in Unconfigured(files, os, ip, tld, faults).files
    ensures os == Linux || os == MacOs
    ensures os == Linux ==>
              p in {"/etc/systemd/resolved.conf.d/dig.conf", "/etc/NetworkManager/dnsmasq.d/dig.conf"}
    ensures os == MacOs ==>
              p in {"/Library/" + "LaunchDaemons/net.dignetwork.dig-dns-lo0.plist", "/etc/resolver/" + tld}
  {
    UnconfigureIsExact(files, os, ip, tld, faults);
  }
}
