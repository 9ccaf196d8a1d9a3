/**
 The race for the one dig.local address. Any number of dig-dns services run their ensure loop (probe,
 bind if nothing answered, serve until shutdown, or sleep and try again; an attempt whose HTTP client
 cannot be built sleeps without a probe) while other processes such as dig-node bind and release the
 same address. Binding is atomic and exclusive; a bind may also
 fail for other reasons, and a holder need not answer a probe, but only a held address answers.
 */
module Ensure {
  import opened Prelude

  type Proc = nat

  datatype Pc = Probing | Unanswered | Serving | Sleeping(elapsed: bool) | Ended
  datatype State = State(holders: set<Proc>, loops: map<Proc, Pc>, stopped: set<Proc>)

  datatype Action =
    | Start(proc: Proc)
    | NoClient(proc: Proc)
    | Probe(proc: Proc, answered: bool)
    | Bind(proc: Proc, granted: bool)
    | Resume(proc: Proc)
    | Quit(proc: Proc)
    | Finish(proc: Proc)
    // not steps of a loop
    | Elapse(sleeper: Proc)
    | Flip(service: Proc)
    | ForeignBind(other: Proc)
    | ForeignRelease(other: Proc)

  const START := State({}, map[], {})

  predicate At(s: State, p: Proc, pc: Pc) {
    p in s.loops && s.loops[p] == pc
  }

  function Goto(s: State, p: Proc, pc: Pc): State {
    s.(loops := s.loops[p := pc])
  }

  predicate Enabled(s: State, a: Action) {
    match a
    case Start(p) => p !in s.loops && p !in s.holders
    case NoClient(p) => At(s, p, Probing)
    case Probe(p, answered) => At(s, p, Probing) && (answered ==> s.holders != {})
    case Bind(p, granted) => At(s, p, Unanswered) && (granted ==> s.holders == {})
    case Resume(p) => At(s, p, Sleeping(true))
    case Quit(p) => p in s.stopped && (At(s, p, Sleeping(false)) || At(s, p, Sleeping(true)))
    case Finish(p) => p in s.stopped && At(s, p, Serving)
    case Elapse(p) => At(s, p, Sleeping(false))
    case Flip(p) => true
    case ForeignBind(q) => q !in s.loops && s.holders == {}
    case ForeignRelease(q) => q !in s.loops && q in s.holders
  }

  /** A loop that goes to sleep with the flag already set leaves at once, its timer not having run. */
  function Retry(s: State, p: Proc): Pc {
    if p in s.stopped then Ended else Sleeping(false)
  }

  function Apply(s: State, a: Action): State {
    match a
    case Start(p) => Goto(s, p, Probing)
    case NoClient(p) => Goto(s, p, Retry(s, p))
    case Probe(p, answered) => Goto(s, p, if answered then Ended else Unanswered)
    case Bind(p, granted) =>
      if granted then Goto(s, p, Serving).(holders := s.holders + {p})
      else Goto(s, p, Retry(s, p))
    case Resume(p) => Goto(s, p, Probing)
    case Quit(p) => Goto(s, p, Ended)
    case Finish(p) => Goto(s, p, Ended).(holders := s.holders - {p})
    case Elapse(p) => Goto(s, p, Sleeping(true))
    case Flip(p) => s.(stopped := s.stopped + {p})
    case ForeignBind(q) => s.(holders := s.holders + {q})
    case ForeignRelease(q) => s.(holders := s.holders - {q})
  }

  predicate IsRun(acts: seq<Action>)
    decreases |acts|
  {
    acts == [] || (IsRun(acts[..|acts| - 1]) && Enabled(After(acts[..|acts| - 1]), acts[|acts| - 1]))
  }

  function After(acts: seq<Action>): State
    decreases |acts|
  {
    if acts == [] then START else Apply(After(acts[..|acts| - 1]), acts[|acts| - 1])
  }

  predicate IsStepOf(a: Action, p: Proc) {
    match a
    case Start(q) => q == p
    case NoClient(q) => q == p
    case Probe(q, _) => q == p
    case Bind(q, _) => q == p
    case Resume(q) => q == p
    case Quit(q) => q == p
    case Finish(q) => q == p
    case _ => false
  }

  /** The last step that the loop of `p` itself took. */
  function LastOf(acts: seq<Action>, p: Proc): Option<Action>
    decreases |acts|
  {
    if acts == [] then None
    else if IsStepOf(acts[|acts| - 1], p) then Some(acts[|acts| - 1])
    else LastOf(acts[..|acts| - 1], p)
  }

  /** What a loop's place says of its last step, of the address and of the flag. */
  predicate LoopOk(s: State, p: Proc, last: Option<Action>) {
    if p !in s.loops then last == None
    else
      && (p in s.holders <==> s.loops[p] == Serving)
      && match s.loops[p]
         case Probing => last == Some(Start(p)) || last == Some(Resume(p))
         case Unanswered => last == Some(Probe(p, false))
         case Serving => last == Some(Bind(p, true))
         case Sleeping(_) => last == Some(Bind(p, false)) || last == Some(NoClient(p))
         case Ended =>
           || last == Some(Probe(p, true))
           || (p in s.stopped && last in {Some(NoClient(p)), Some(Bind(p, false)), Some(Quit(p)), Some(Finish(p))})
  }

  lemma StepKeepsLoop(s: State, a: Action, p: Proc, last: Option<Action>)
    requires LoopOk(s, p, last) && Enabled(s, a)
    ensures LoopOk(Apply(s, a), p, if IsStepOf(a, p) then Some(a) else last)
  {
  }

  lemma {:induction false} RunKeepsLoop(acts: seq<Action>, p: Proc)
    requires IsRun(acts)
    ensures LoopOk(After(acts), p, LastOf(acts, p))
    decreases |acts|
  {
    if acts != [] {
      var init := acts[..|acts| - 1];
      RunKeepsLoop(init, p);
      StepKeepsLoop(After(init), acts[|acts| - 1], p, LastOf(init, p));
    }
  }

  lemma {:induction false} BeginningIsRun(acts: seq<Action>, i: nat)
    requires IsRun(acts) && i <= |acts|
    ensures IsRun(acts[..i])
    ensures i < |acts| ==>
              Enabled(After(acts[..i]), acts[i]) && After(acts[..i + 1]) == Apply(After(acts[..i]), acts[i])
    decreases |acts|
  {
    if i == |acts| {
      assert acts[..i] == acts;
    } else {
      var init := acts[..|acts| - 1];
      if i < |init| {
        BeginningIsRun(init, i);
        assert init[..i] == acts[..i] && init[..i + 1] == acts[..i + 1];
      } else {
        assert acts[..i + 1] == acts && acts[..i] == init;
      }
    }
  }

  // -- what holds in every interleaving --------------------------------------------------------

  /** At most one process holds the address, and a loop holds it exactly while it serves. */
  lemma {:induction false} OneHolder(acts: seq<Action>, p: Proc)
    requires IsRun(acts)
    ensures |After(acts).holders| <= 1
    ensures p in After(acts).loops ==> (p in After(acts).holders <==> After(acts).loops[p] == Serving)
    decreases |acts|
  {
    RunKeepsLoop(acts, p);
    if acts != [] {
      OneHolder(acts[..|acts| - 1], p);
    }
  }

  /**
   A loop binds only as the step right after a probe of its own that went unanswered; when a bind
   of its own is granted nobody held the address, and then it alone does.
   */
  lemma BindsOnlyUnanswered(acts: seq<Action>, i: nat)
    requires IsRun(acts) && i < |acts| && acts[i].Bind?
    ensures var p := acts[i].proc;
            && LastOf(acts[..i], p) == Some(Probe(p, false))
            && (acts[i].granted ==> After(acts[..i]).holders == {} && After(acts[..i + 1]).holders == {p})
            && (!acts[i].granted ==> After(acts[..i + 1]).holders == After(acts[..i]).holders)
  {
    BeginningIsRun(acts, i);
    RunKeepsLoop(acts[..i], acts[i].proc);
  }

  /** What `LastOf` says in terms of positions. */
  lemma {:induction false} LastIsLast(acts: seq<Action>, p: Proc) returns (j: nat)
    requires LastOf(acts, p).Some?
    ensures j < |acts| && LastOf(acts, p) == Some(acts[j]) && IsStepOf(acts[j], p)
    ensures forall k :: j < k < |acts| ==> !IsStepOf(acts[k], p)
    decreases |acts|
  {
    j := |acts| - 1;
    if !IsStepOf(acts[j], p) {
      j := LastIsLast(acts[..|acts| - 1], p);
    }
  }

  /**
   A loop ends only when its last probe was answered, by another process that held the address at
   that moment, or after its service was told to stop.
   */
  lemma EndsOnlyMappedOrStopped(acts: seq<Action>, p: Proc)
    requires IsRun(acts) && At(After(acts), p, Ended) && p !in After(acts).stopped
    ensures LastOf(acts, p) == Some(Probe(p, true))
    ensures exists j :: 0 <= j < |acts| && acts[j] == Probe(p, true)
                        && After(acts[..j]).holders != {} && p !in After(acts[..j]).holders
  {
    RunKeepsLoop(acts, p);
    var j := LastIsLast(acts, p);
    BeginningIsRun(acts, j);
    RunKeepsLoop(acts[..j], p);
  }

  lemma EndedStays(s: State, a: Action, p: Proc)
    requires At(s, p, Ended) && Enabled(s, a)
    ensures !IsStepOf(a, p) && At(Apply(s, a), p, Ended)
  {
  }

  /** After an answered probe the loop takes no step at all, a bind included. */
  lemma {:induction false} AnsweredIsFinal(acts: seq<Action>, i: nat, k: nat)
    requires IsRun(acts) && i < k < |acts| && acts[i].Probe? && acts[i].answered
    ensures At(After(acts[..k]), acts[i].proc, Ended) && !IsStepOf(acts[k], acts[i].proc)
    decreases k
  {
    var p := acts[i].proc;
    BeginningIsRun(acts, k - 1);
    if k > i + 1 {
      AnsweredIsFinal(acts, i, k - 1);
      EndedStays(After(acts[..k - 1]), acts[k - 1], p);
    }
    BeginningIsRun(acts, k);
    EndedStays(After(acts[..k]), acts[k], p);
  }

  /** A loop that was granted the address keeps it until its service is told to stop. */
  lemma {:induction false} KeepsUntilStopped(acts: seq<Action>, i: nat, k: nat)
    requires IsRun(acts) && i < k <= |acts| && acts[i].Bind? && acts[i].granted
    requires acts[i].proc !in After(acts[..k]).stopped
    ensures At(After(acts[..k]), acts[i].proc, Serving) && After(acts[..k]).holders == {acts[i].proc}
    decreases k
  {
    BeginningIsRun(acts, k - 1);
    if k == i + 1 {
      BindsOnlyUnanswered(acts, i);
    } else {
      KeepsUntilStopped(acts, i, k - 1);
    }
  }

  // -- stopping --------------------------------------------------------------------------------

  /** A bound on the steps a loop has left once its service was told to stop. */
  function Remaining(pc: Pc): nat {
    match pc
    case Ended => 0
    case Serving => 1
    case Unanswered => 2
    case Probing => 3
    case Sleeping(_) => 4
  }

  function CountOf(acts: seq<Action>, p: Proc): nat
    decreases |acts|
  {
    if acts == [] then 0
    else CountOf(acts[..|acts| - 1], p) + (if IsStepOf(acts[|acts| - 1], p) then 1 else 0)
  }

  lemma StoppedStep(s: State, a: Action, p: Proc)
    requires p in s.stopped && p in s.loops && Enabled(s, a)
    ensures p in Apply(s, a).stopped && p in Apply(s, a).loops
    ensures Remaining(Apply(s, a).loops[p]) + (if IsStepOf(a, p) then 1 else 0) <= Remaining(s.loops[p])
  {
  }

  /**
   Once its service was told to stop at point `i` of a run, a loop takes four more steps at most, in
   any interleaving, and as long as it has not ended it can take one.
   */
  lemma {:induction false} StopsSoon(acts: seq<Action>, i: nat, p: Proc)
    requires IsRun(acts) && i <= |acts| && p in After(acts[..i]).stopped && p in After(acts[..i]).loops
    ensures p in After(acts).stopped && p in After(acts).loops
    ensures CountOf(acts[i..], p) + Remaining(After(acts).loops[p]) <= Remaining(After(acts[..i]).loops[p]) <= 4
    ensures After(acts).loops[p] != Ended ==> exists a :: IsStepOf(a, p) && Enabled(After(acts), a)
    decreases |acts|
  {
    CanMove(After(acts), p);
    if i == |acts| {
      assert acts[..i] == acts;
    } else {
      var init, last := acts[..|acts| - 1], acts[|acts| - 1];
      assert init[..i] == acts[..i];
      StopsSoon(init, i, p);
      StoppedStep(After(init), last, p);
      var rest := acts[i..];
      assert rest[..|rest| - 1] == init[i..] && rest[|rest| - 1] == last;
    }
  }

  lemma CanMove(s: State, p: Proc)
    ensures p in s.stopped && p in s.loops && s.loops[p] != Ended ==> exists a :: IsStepOf(a, p) && Enabled(s, a)
  {
    if p in s.stopped && p in s.loops {
      var a := match s.loops[p]
        case Probing => Probe(p, false)
        case Unanswered => Bind(p, false)
        case Serving => Finish(p)
        case Sleeping(_) => Quit(p)
        case Ended => Flip(p);
      assert s.loops[p] != Ended ==> IsStepOf(a, p) && Enabled(s, a);
    }
  }
}
