/**
 The clean reinstall of the OS service: stop, delete, wait for removal, create, start. The service
 manager is an arbitrary responder over the whole history of its own answers, so a lingering
 deletion and a failure of any operation are both covered.
 */
module Service {
  import opened Prelude

  const REMOVAL_POLL_ATTEMPTS: nat := 40

  datatype Op = Stop | Delete | Create | Start

  /** A probe with its answer (none when it failed), or an operation with its success. */
  datatype Event = Probe(answer: Option<bool>) | Did(op: Op, ok: bool)

  datatype Backend = Backend(probe: seq<Event> -> Option<bool>, does: (seq<Event>, Op) -> bool)

  datatype Report = Report(existed: bool, stopped: bool, deleted: bool, created: bool, started: bool)

  datatype Failure = ProbeFailed | DeleteFailed | TimedOut | CreateFailed | StartFailed

  /** A finished run: its result and everything that happened. */
  datatype Run = Run(result: Result<Report, Failure>, trace: seq<Event>)

  // -- the machine -----------------------------------------------------------------------------

  /** What the removal poll does with `n` attempts left. */
  function Waited(b: Backend, trace: seq<Event>, n: nat): (Option<Failure>, seq<Event>)
    decreases n
  {
    if n == 0 then (Some(TimedOut), trace)
    else
      var answer := b.probe(trace);
      var t := trace + [Probe(answer)];
      if answer.None? then (Some(ProbeFailed), t)
      else if !answer.value then (None, t)
      else Waited(b, t, n - 1)
  }

  function Recreate(b: Backend, trace: seq<Event>, report: Report): Run {
    var created := b.does(trace, Create);
    var t := trace + [Did(Create, created)];
    if !created then Run(Err(CreateFailed), t)
    else
      var started := b.does(t, Start);
      if !started then Run(Err(StartFailed), t + [Did(Start, false)])
      else Run(Ok(report.(created := true, started := true)), t + [Did(Start, true)])
  }

  function Reinstalled(b: Backend): Run {
    var answer := b.probe([]);
    var t0 := [Probe(answer)];
    if answer.None? then Run(Err(ProbeFailed), t0)
    else if !answer.value then Recreate(b, t0, Report(false, false, false, false, false))
    else
      var stopped := b.does(t0, Stop);
      var t1 := t0 + [Did(Stop, stopped)];
      var deleted := b.does(t1, Delete);
      var t2 := t1 + [Did(Delete, deleted)];
      if !deleted then Run(Err(DeleteFailed), t2)
      else
        var (failure, t3) := Waited(b, t2, REMOVAL_POLL_ATTEMPTS);
        if failure.Some? then Run(Err(failure.value), t3)
        else Recreate(b, t3, Report(true, stopped, true, false, false))
  }

  /** A service manager in use, with what it has been asked and has answered. */
  class Manager {
    const backend: Backend
    var trace: seq<Event>

    constructor (backend: Backend)
      ensures this.backend == backend && trace == []
    {
      this.backend := backend;
      trace := [];
    }

    method IsInstalled() returns (answer: Option<bool>)
      modifies this`trace
      ensures answer == backend.probe(old(trace)) && trace == old(trace) + [Probe(answer)]
    {
      answer := backend.probe(trace);
      trace := trace + [Probe(answer)];
    }

    method Perform(op: Op) returns (ok: bool)
      modifies this`trace
      ensures ok == backend.does(old(trace), op) && trace == old(trace) + [Did(op, ok)]
    {
      ok := backend.does(trace, op);
      trace := trace + [Did(op, ok)];
    }

    method WaitForRemoval() returns (failure: Option<Failure>)
      modifies this`trace
      ensures (failure, trace) == Waited(backend, old(trace), REMOVAL_POLL_ATTEMPTS)
    {
      for i := 0 to REMOVAL_POLL_ATTEMPTS
        invariant Waited(backend, trace, REMOVAL_POLL_ATTEMPTS - i)
                  == Waited(backend, old(trace), REMOVAL_POLL_ATTEMPTS)
      {
        var answer := IsInstalled();
        if answer.None? {
          return Some(ProbeFailed);
        }
        if !answer.value {
          return None;
        }
      }
      return Some(TimedOut);
    }

    method Reinstall() returns (r: Result<Report, Failure>)
      requires trace == []
      modifies this`trace
      ensures Run(r, trace) == Reinstalled(backend)
    {
      var report := Report(false, false, false, false, false);
      var installed := IsInstalled();
      assert trace == [Probe(installed)];
      if installed.None? {
        return Err(ProbeFailed);
      }
      if installed.value {
        report := report.(existed := true);
        var stopped := Perform(Stop);
        if stopped {
          report := report.(stopped := true);
        }
        var deleted := Perform(Delete);
        if !deleted {
          return Err(DeleteFailed);
        }
        report := report.(deleted := true);
        var failure := WaitForRemoval();
        if failure.Some? {
          return Err(failure.value);
        }
      }
      var created := Perform(Create);
      if !created {
        return Err(CreateFailed);
      }
      report := report.(created := true);
      var started := Perform(Start);
      if !started {
        return Err(StartFailed);
      }
      report := report.(started := true);
      return Ok(report);
    }
  }

  // -- every run -------------------------------------------------------------------------------

  datatype Ending = CreateBroke | StartBroke | Running

  /** The runs there are; `polls` counts the answers that the deleted service was still there. */
  datatype Story =
    | CannotProbe
    | Fresh(ending: Ending)
    | CannotDelete(stopped: bool)
    | LostWhileWaiting(stopped: bool, polls: nat)
    | NeverRemoved(stopped: bool)
    | Recreated(stopped: bool, polls: nat, ending: Ending)

  predicate IsStory(s: Story) {
    (s.LostWhileWaiting? || s.Recreated?) ==> s.polls < 40
  }

  function Lingering(k: nat): (t: seq<Event>)
    ensures |t| == k && forall i :: 0 <= i < k ==> t[i] == Probe(Some(true))
  {
    seq(k, _ => Probe(Some(true)))
  }

  function EndTrace(e: Ending): seq<Event> {
    match e
    case CreateBroke => [Did(Create, false)]
    case StartBroke => [Did(Create, true), Did(Start, false)]
    case Running => [Did(Create, true), Did(Start, true)]
  }

  function Removing(stopped: bool): seq<Event> {
    [Probe(Some(true)), Did(Stop, stopped), Did(Delete, true)]
  }

  function TraceOf(s: Story): seq<Event> {
    match s
    case CannotProbe => [Probe(None)]
    case Fresh(e) => [Probe(Some(false))] + EndTrace(e)
    case CannotDelete(stopped) => [Probe(Some(true)), Did(Stop, stopped), Did(Delete, false)]
    case LostWhileWaiting(stopped, k) => Removing(stopped) + Lingering(k) + [Probe(None)]
    case NeverRemoved(stopped) => Removing(stopped) + Lingering(REMOVAL_POLL_ATTEMPTS)
    case Recreated(stopped, k, e) => Removing(stopped) + Lingering(k) + [Probe(Some(false))] + EndTrace(e)
  }

  function EndResult(e: Ending, report: Report): Result<Report, Failure> {
    match e
    case CreateBroke => Err(CreateFailed)
    case StartBroke => Err(StartFailed)
    case Running => Ok(report)
  }

  function ResultOf(s: Story): Result<Report, Failure> {
    match s
    case CannotProbe => Err(ProbeFailed)
    case Fresh(e) => EndResult(e, Report(false, false, false, true, true))
    case CannotDelete(_) => Err(DeleteFailed)
    case LostWhileWaiting(_, _) => Err(ProbeFailed)
    case NeverRemoved(_) => Err(TimedOut)
    case Recreated(stopped, _, e) => EndResult(e, Report(true, stopped, true, true, true))
  }

  /** How a poll from `trace` with `n` attempts left can end, after `k` lingering answers. */
  lemma {:induction false} WaitEnds(b: Backend, trace: seq<Event>, n: nat) returns (k: nat)
    ensures var (failure, t) := Waited(b, trace, n);
            match failure
            case Some(TimedOut) => k == n && t == trace + Lingering(k)
            case Some(ProbeFailed) => k < n && t == trace + Lingering(k) + [Probe(None)]
            case None => k < n && t == trace + Lingering(k) + [Probe(Some(false))]
            case _ => false
    decreases n
  {
    if n == 0 {
      k := 0;
    } else {
      var answer := b.probe(trace);
      var t := trace + [Probe(answer)];
      if answer == Some(true) {
        var k' := WaitEnds(b, t, n - 1);
        k := k' + 1;
        assert t + Lingering(k') == trace + Lingering(k);
      } else {
        k := 0;
        assert trace + Lingering(0) == trace;
      }
    }
  }

  lemma RecreateEnds(b: Backend, trace: seq<Event>, report: Report) returns (e: Ending)
    ensures Recreate(b, trace, report)
            == Run(EndResult(e, report.(created := true, started := true)), trace + EndTrace(e))
  {
    var t := trace + [Did(Create, true)];
    if !b.does(trace, Create) {
      e := CreateBroke;
    } else if !b.does(t, Start) {
      e := StartBroke;
      assert t + [Did(Start, false)] == trace + EndTrace(e);
    } else {
      e := Running;
      assert t + [Did(Start, true)] == trace + EndTrace(e);
    }
  }

  /** Against every service manager the run is one of these stories. */
  lemma EveryRunIsAStory(b: Backend) returns (s: Story)
    ensures IsStory(s) && Reinstalled(b) == Run(ResultOf(s), TraceOf(s))
  {
    var answer := b.probe([]);
    var t0 := [Probe(answer)];
    if answer.None? {
      s := CannotProbe;
    } else if !answer.value {
      var e := RecreateEnds(b, t0, Report(false, false, false, false, false));
      s := Fresh(e);
    } else {
      var stopped := b.does(t0, Stop);
      var t1 := t0 + [Did(Stop, stopped)];
      var deleted := b.does(t1, Delete);
      var t2 := t1 + [Did(Delete, deleted)];
      if !deleted {
        s := CannotDelete(stopped);
        assert t2 == TraceOf(s);
      } else {
        assert t2 == Removing(stopped);
        var k := WaitEnds(b, t2, REMOVAL_POLL_ATTEMPTS);
        var (failure, t3) := Waited(b, t2, REMOVAL_POLL_ATTEMPTS);
        if failure.None? {
          var e := RecreateEnds(b, t3, Report(true, stopped, true, false, false));
          s := Recreated(stopped, k, e);
        } else if failure.value == TimedOut {
          s := NeverRemoved(stopped);
        } else {
          s := LostWhileWaiting(stopped, k);
        }
      }
    }
  }

  // -- and every story is a run ----------------------------------------------------------------

  /** The service manager that answers as a given trace says. */
  function Replay(t: seq<Event>): Backend {
    Backend(h => if |h| < |t| && t[|h|].Probe? then t[|h|].answer else None,
            (h, op) => |h| < |t| && t[|h|].Did? && t[|h|].ok)
  }

  lemma {:induction false} ReplayWaits(t: seq<Event>, at: nat, k: nat, n: nat)
    requires at + k <= |t| && t[at..at + k] == Lingering(k)
    requires k <= n && (k < n ==> at + k < |t| && t[at + k].Probe? && t[at + k].answer != Some(true))
    ensures Waited(Replay(t), t[..at], n)
            == if k == n then (Some(TimedOut), t[..at + k])
               else if t[at + k].answer.None? then (Some(ProbeFailed), t[..at + k + 1])
               else (None, t[..at + k + 1])
    decreases k
  {
    if n > 0 {
      if k > 0 {
        assert t[at] == t[at..at + k][0] == Probe(Some(true));
        assert t[at + 1..at + k] == t[at..at + k][1..] == Lingering(k - 1);
        ReplayWaits(t, at + 1, k - 1, n - 1);
      }
      assert t[..at] + [t[at]] == t[..at + 1];
    }
  }

  lemma ReplayRecreates(t: seq<Event>, at: nat, e: Ending, report: Report)
    requires at <= |t| && t[at..] == EndTrace(e)
    ensures Recreate(Replay(t), t[..at], report)
            == Run(EndResult(e, report.(created := true, started := true)), t)
  {
    assert t == t[..at] + EndTrace(e);
    assert t[at] == t[at..][0];
    assert t[..at] + [t[at]] == t[..at + 1];
    if !e.CreateBroke? {
      assert t[at + 1] == t[at..][1];
      assert t[..at + 1] + [t[at + 1]] == t;
    }
  }

  /** Every story happens, against the service manager that replays it. */
  lemma EveryStoryIsARun(s: Story)
    requires IsStory(s)
    ensures Reinstalled(Replay(TraceOf(s))) == Run(ResultOf(s), TraceOf(s))
  {
    var t := TraceOf(s);
    match s
    case CannotProbe =>
    case Fresh(e) =>
      assert t[..1] == [Probe(Some(false))];
      ReplayRecreates(t, 1, e, Report(false, false, false, false, false));
    case CannotDelete(stopped) =>
    case LostWhileWaiting(stopped, k) =>
      ReplayRemoves(t, stopped, k);
      assert t[..3 + k + 1] == t;
    case NeverRemoved(stopped) =>
      ReplayRemoves(t, stopped, REMOVAL_POLL_ATTEMPTS);
      assert t[..3 + REMOVAL_POLL_ATTEMPTS] == t;
    case Recreated(stopped, k, e) =>
      ReplayRemoves(t, stopped, k);
      assert t[3 + k + 1..] == EndTrace(e);
      ReplayRecreates(t, 3 + k + 1, e, Report(true, stopped, true, false, false));
  }

  /** The replay of a removal that lingers for `k` polls. */
  lemma ReplayRemoves(t: seq<Event>, stopped: bool, k: nat)
    requires Removing(stopped) + Lingering(k) <= t && k <= REMOVAL_POLL_ATTEMPTS
    requires k < REMOVAL_POLL_ATTEMPTS ==> 3 + k < |t| && t[3 + k].Probe? && t[3 + k].answer != Some(true)
    ensures var b, t0 := Replay(t), [Probe(Some(true))];
            var t1 := t0 + [Did(Stop, stopped)];
            var t2 := t1 + [Did(Delete, true)];
            && b.probe([]) == Some(true) && b.does(t0, Stop) == stopped && b.does(t1, Delete)
            && Waited(b, t2, REMOVAL_POLL_ATTEMPTS)
               == if k == REMOVAL_POLL_ATTEMPTS then (Some(TimedOut), t[..3 + k])
                  else if t[3 + k].answer.None? then (Some(ProbeFailed), t[..3 + k + 1])
                  else (None, t[..3 + k + 1])
  {
    var head := Removing(stopped) + Lingering(k);
    assert t[0] == head[0] && t[1] == head[1] && t[2] == head[2];
    assert t[..3] == [Probe(Some(true))] + [Did(Stop, stopped)] + [Did(Delete, true)];
    assert t[3..3 + k] == head[3..] == Lingering(k);
    ReplayWaits(t, 3, k, REMOVAL_POLL_ATTEMPTS);
  }

  // -- what a caller relies on -----------------------------------------------------------------

  /** Creation follows an answer that the service is absent, immediately. */
  predicate CreatesOnAbsence(t: seq<Event>) {
    forall i :: 0 <= i < |t| && t[i].Did? && t[i].op == Create ==> i > 0 && t[i - 1] == Probe(Some(false))
  }

  lemma CreateAfter(head: seq<Event>, e: Ending)
    requires head != [] && head[|head| - 1] == Probe(Some(false))
    requires forall i :: 0 <= i < |head| ==> !(head[i].Did? && head[i].op == Create)
    ensures CreatesOnAbsence(head + EndTrace(e))
  {
  }

  /**
   In every run, creation is attempted only when the latest answer was that the service is absent;
   removal is polled at most 40 times; and each flag of a returned report says exactly whether that
   step succeeded.
   */
  lemma RunIsClean(b: Backend)
    ensures var run := Reinstalled(b);
            && CreatesOnAbsence(run.trace)
            && |run.trace| <= 3 + 40 + 2
            && (run.result.Ok? ==>
                  var r := run.result.value;
                  && (r.existed <==> Probe(Some(true)) in run.trace)
                  && (r.stopped <==> Did(Stop, true) in run.trace)
                  && (r.deleted <==> Did(Delete, true) in run.trace)
                  && (r.created <==> Did(Create, true) in run.trace)
                  && (r.started <==> Did(Start, true) in run.trace))
  {
    var s := EveryRunIsAStory(b);
    StoryIsClean(s);
    if ResultOf(s).Ok? {
      StoryFlags(s);
    }
  }

  lemma StoryIsClean(s: Story)
    requires IsStory(s)
    ensures CreatesOnAbsence(TraceOf(s)) && |TraceOf(s)| <= 45
  {
    match s
    case Fresh(e) =>
      CreateAfter([Probe(Some(false))], e);
    case Recreated(stopped, k, e) =>
      CreateAfter(Removing(stopped) + Lingering(k) + [Probe(Some(false))], e);
    case _ =>
  }

  lemma StoryFlags(s: Story)
    requires IsStory(s) && ResultOf(s).Ok?
    ensures var r, t := ResultOf(s).value, TraceOf(s);
            && (r.existed <==> Probe(Some(true)) in t)
            && (r.stopped <==> Did(Stop, true) in t)
            && (r.deleted <==> Did(Delete, true) in t)
            && (r.created <==> Did(Create, true) in t)
            && (r.started <==> Did(Start, true) in t)
  {
    var t := TraceOf(s);
    match s
    case Fresh(e) =>
      assert t == [Probe(Some(false)), Did(Create, true), Did(Start, true)];
    case Recreated(stopped, k, e) =>
      var end := [Did(Create, true), Did(Start, true)];
      assert t == Removing(stopped) + Lingering(k) + [Probe(Some(false))] + end;
      forall x ensures x in t <==> x in Removing(stopped) || x in Lingering(k) || x == Probe(Some(false)) || x in end {
      }
  }

  /** A world in which the service is registered or not, which probes report truthfully. */
  ghost predicate Truthful(b: Backend, registered: seq<Event> -> bool) {
    && (forall h :: b.probe(h).Some? ==> b.probe(h).value == registered(h))
    && (forall h: seq<Event>, e: Event {:trigger registered(h + [e])} ::
          e != Did(Create, true) && registered(h + [e]) ==> registered(h))
  }

  /** The trace up to an event is what the backend had seen when it produced the event. */
  predicate Produced(b: Backend, t: seq<Event>) {
    forall i :: 0 <= i < |t| && t[i].Probe? ==> t[i].answer == b.probe(t[..i])
  }

  lemma {:induction false} WaitedIsProduced(b: Backend, trace: seq<Event>, n: nat)
    requires Produced(b, trace)
    ensures Produced(b, Waited(b, trace, n).1)
    decreases n
  {
    if n > 0 {
      ProducedStep(b, trace, Probe(b.probe(trace)));
      WaitedIsProduced(b, trace + [Probe(b.probe(trace))], n - 1);
    }
  }

  lemma ProducedStep(b: Backend, t: seq<Event>, e: Event)
    requires Produced(b, t) && (e.Probe? ==> e.answer == b.probe(t))
    ensures Produced(b, t + [e])
  {
    forall i | 0 <= i < |t + [e]| && (t + [e])[i].Probe? ensures (t + [e])[i].answer == b.probe((t + [e])[..i]) {
      assert (t + [e])[..i] == t[..i];
      assert i == |t| ==> t[..i] == t;
    }
  }

  lemma RecreateIsProduced(b: Backend, t: seq<Event>, report: Report)
    requires Produced(b, t)
    ensures Produced(b, Recreate(b, t, report).trace)
  {
    var created := b.does(t, Create);
    ProducedStep(b, t, Did(Create, created));
    var t' := t + [Did(Create, created)];
    ProducedStep(b, t', Did(Start, b.does(t', Start)));
  }

  lemma RunIsProduced(b: Backend)
    ensures Produced(b, Reinstalled(b).trace)
  {
    var t0 := [Probe(b.probe([]))];
    ProducedStep(b, [], Probe(b.probe([])));
    assert [] + t0 == t0;
    if b.probe([]) == Some(true) {
      var t1 := t0 + [Did(Stop, b.does(t0, Stop))];
      ProducedStep(b, t0, Did(Stop, b.does(t0, Stop)));
      var t2 := t1 + [Did(Delete, b.does(t1, Delete))];
      ProducedStep(b, t1, Did(Delete, b.does(t1, Delete)));
      WaitedIsProduced(b, t2, REMOVAL_POLL_ATTEMPTS);
      RecreateIsProduced(b, Waited(b, t2, REMOVAL_POLL_ATTEMPTS).1, Report(true, b.does(t0, Stop), true, false, false));
    } else if b.probe([]) == Some(false) {
      RecreateIsProduced(b, t0, Report(false, false, false, false, false));
    }
  }

  /**
   Where probes are truthful and nobody else registers the service, creation never targets a
   registered service: the "already exists" failure cannot happen.
   */
  lemma NeverAlreadyExists(b: Backend, registered: seq<Event> -> bool, i: nat)
    requires Truthful(b, registered)
    requires i < |Reinstalled(b).trace| && Reinstalled(b).trace[i].Did? && Reinstalled(b).trace[i].op == Create
    ensures !registered(Reinstalled(b).trace[..i])
  {
    RunIsClean(b);
    RunIsProduced(b);
    var t := Reinstalled(b).trace;
    assert t[i - 1] == Probe(Some(false));
    assert t[..i] == t[..i - 1] + [t[i - 1]];
  }
}
