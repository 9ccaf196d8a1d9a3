/**
 The shared shutdown flag of the service and the subtasks that wait for it. The flag is a value with
 a version; sending sets both and only then wakes those who wait. A waiter reads the value, and if
 it is not yet set registers to be woken, compares versions once more, and parks. Everything
 interleaves, and a subtask may subscribe at any time.
 */
module Shutdown {
  import opened Prelude

  type Task = nat

  datatype Sender = Idle | Sent | Notified
  datatype Pc =
    | Checking
    | Registering(seen: nat)
    | Comparing(seen: nat, woken: bool)
    | Parked(seen: nat, woken: bool)
    | Stopped
  datatype State = State(value: bool, version: nat, sender: Sender, tasks: map<Task, Pc>)

  datatype Action = Send | Notify | Subscribe(task: Task) | Own(task: Task)

  const START := State(false, 0, Idle, map[])

  function Woken(pc: Pc): Pc {
    match pc
    case Comparing(seen, _) => Comparing(seen, true)
    case Parked(seen, _) => Parked(seen, true)
    case _ => pc
  }

  /** A waiter's next step; None for one that has stopped, or is parked and not woken. */
  function Advance(pc: Pc, value: bool, version: nat): Option<Pc> {
    match pc
    case Checking => Some(if value then Stopped else Registering(version))
    case Registering(seen) => Some(Comparing(seen, false))
    case Comparing(seen, woken) => Some(if version != seen then Checking else Parked(seen, woken))
    case Parked(seen, woken) => if woken then Some(Registering(seen)) else None
    case Stopped => None
  }

  function Step(s: State, a: Action): Option<State> {
    match a
    case Send => if s.sender == Idle then Some(s.(value := true, version := s.version + 1, sender := Sent)) else None
    case Notify =>
      if s.sender != Sent then None
      else Some(s.(sender := Notified, tasks := map t | t in s.tasks :: Woken(s.tasks[t])))
    case Subscribe(t) => if t !in s.tasks then Some(s.(tasks := s.tasks[t := Checking])) else None
    case Own(t) =>
      if t !in s.tasks then None
      else
        match Advance(s.tasks[t], s.value, s.version)
        case None => None
        case Some(pc) => Some(s.(tasks := s.tasks[t := pc]))
  }

  /** The state after the actions in order, if each can be taken. */
  function After(s: State, acts: seq<Action>): Option<State>
    decreases |acts|
  {
    if acts == [] then Some(s)
    else
      match Step(s, acts[0])
      case None => None
      case Some(s') => After(s', acts[1..])
  }

  function Count(acts: seq<Action>, a: Action): nat {
    if acts == [] then 0 else (if acts[0] == a then 1 else 0) + Count(acts[1..], a)
  }

  /** One waiter, against the state of the sender. */
  predicate WaiterOk(pc: Pc, sender: Sender) {
    match pc
    case Checking => true
    case Registering(seen) => seen == 0
    case Comparing(seen, _) => seen == 0
    case Parked(seen, woken) => seen == 0 && (sender == Notified ==> woken)
    case Stopped => sender != Idle
  }

  predicate Inv(s: State) {
    && (s.value <==> s.sender != Idle)
    && s.version == (if s.value then 1 else 0)
    && forall t :: t in s.tasks ==> WaiterOk(s.tasks[t], s.sender)
  }

  lemma StepKeepsInv(s: State, a: Action)
    requires Inv(s) && Step(s, a).Some?
    ensures Inv(Step(s, a).value)
  {
    var s' := Step(s, a).value;
    forall t | t in s'.tasks ensures WaiterOk(s'.tasks[t], s'.sender) {
      if t in s.tasks {
        assert WaiterOk(s.tasks[t], s.sender);
      }
    }
  }

  lemma {:induction false} RunKeepsInv(s: State, acts: seq<Action>)
    requires Inv(s) && After(s, acts).Some?
    ensures Inv(After(s, acts).value)
    decreases |acts|
  {
    if acts != [] {
      StepKeepsInv(s, acts[0]);
      RunKeepsInv(Step(s, acts[0]).value, acts[1..]);
    }
  }

  /** How many own steps a waiter is from having stopped, once the sender is done. */
  function Remaining(pc: Pc): nat {
    match pc
    case Stopped => 0
    case Checking => 1
    case Comparing(_, _) => 2
    case Registering(_) => 3
    case Parked(_, _) => 4
  }

  /** Once the sender is done every step of a waiter brings it nearer, and no other step moves it. */
  lemma NotifiedStep(s: State, a: Action, t: Task)
    requires Inv(s) && s.sender == Notified && t in s.tasks
    ensures Step(s, Own(t)).Some? <==> s.tasks[t] != Stopped
    ensures Step(s, a).Some? ==>
              var s' := Step(s, a).value;
              && s'.sender == Notified && t in s'.tasks
              && Remaining(s.tasks[t]) == Remaining(s'.tasks[t]) + (if a == Own(t) then 1 else 0)
  {
    assert WaiterOk(s.tasks[t], s.sender);
  }

  lemma {:induction false} NotifiedRun(s: State, acts: seq<Action>, t: Task)
    requires Inv(s) && s.sender == Notified && t in s.tasks && After(s, acts).Some?
    ensures var s' := After(s, acts).value;
            && s'.sender == Notified && t in s'.tasks
            && Remaining(s.tasks[t]) == Remaining(s'.tasks[t]) + Count(acts, Own(t))
    decreases |acts|
  {
    if acts != [] {
      NotifiedStep(s, acts[0], t);
      StepKeepsInv(s, acts[0]);
      NotifiedRun(Step(s, acts[0]).value, acts[1..], t);
    }
  }

  lemma {:induction false} AfterSplit(s: State, before: seq<Action>, after: seq<Action>)
    ensures After(s, before + after) == match After(s, before) case None => None case Some(m) => After(m, after)
    decreases |before|
  {
    if before == [] {
      assert before + after == after;
    } else {
      assert (before + after)[0] == before[0] && (before + after)[1..] == before[1..] + after;
      if Step(s, before[0]).Some? {
        AfterSplit(Step(s, before[0]).value, before[1..], after);
      }
    }
  }

  /**
   No wake-up is lost. In every run, for every subtask that has subscribed by the end, before or
   after the flag was set: once the sender is done, the subtask is never stuck, and it has stopped as
   soon as it has made the few steps that remained to it, which are four at most.
   */
  lemma FlagReachesEveryTask(before: seq<Action>, after: seq<Action>, t: Task)
    requires After(START, before).Some? && After(START, before).value.sender == Notified
    requires t in After(START, before).value.tasks
    requires After(START, before + after).Some?
    ensures var was, now := After(START, before).value.tasks[t], After(START, before + after).value;
            && t in now.tasks
            && Remaining(was) <= 4 && Count(after, Own(t)) <= Remaining(was)
            && (now.tasks[t] == Stopped <==> Count(after, Own(t)) == Remaining(was))
            && (now.tasks[t] != Stopped ==> After(START, before + after + [Own(t)]).Some?)
  {
    RunKeepsInv(START, before);
    AfterSplit(START, before, after);
    NotifiedRun(After(START, before).value, after, t);
    RunKeepsInv(START, before + after);
    var now := After(START, before + after).value;
    NotifiedStep(now, Own(t), t);
    AfterSplit(START, before + after, [Own(t)]);
    if now.tasks[t] != Stopped {
      var last := [Own(t)];
      assert last[1..] == [];
      assert After(now, last) == Step(now, Own(t));
    }
  }

  /** And none stops before the flag is set. */
  lemma NoneStopsEarly(acts: seq<Action>, t: Task)
    requires After(START, acts).Some?
    ensures var s := After(START, acts).value; t in s.tasks && s.tasks[t] == Stopped ==> s.value && Send in acts
  {
    RunKeepsInv(START, acts);
    ValueIsSent(START, acts);
    var s := After(START, acts).value;
    if t in s.tasks && s.tasks[t] == Stopped {
      assert WaiterOk(s.tasks[t], s.sender);
    }
  }

  lemma {:induction false} ValueIsSent(s: State, acts: seq<Action>)
    requires After(s, acts).Some?
    ensures After(s, acts).value.value ==> s.value || Send in acts
    decreases |acts|
  {
    if acts != [] {
      ValueIsSent(Step(s, acts[0]).value, acts[1..]);
    }
  }
}
