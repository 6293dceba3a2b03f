/** State machines whose transitions are scheduled through the event loop (src/sm.c, src/evloop.c). All
    requests come from the loop thread, before or inside callbacks; a callback may also run the loop. */
module SchedMachine {
  import opened Wrappers
  import Runs

  /** cur_state, n_schedules, the release flag, and the targets of the transitions in the control pipe. */
  datatype Core = Core(cur: nat, scheduled: int, releasing: bool, pipe: seq<nat>)

  /** The leave callback belongs to the old state but is given the new one. */
  datatype Call = Enter(state: nat) | Trigger(state: nat) | Leave(state: nat, told: nat) | Release

  /** change_sms() up to and including the start of its first callback, None if it makes no call. */
  function Begin(c: Core): (Core, Option<Call>)
    requires c.pipe != []
  {
    var target := c.pipe[0];
    var d := c.(scheduled := c.scheduled - 1, pipe := c.pipe[1..]);
    if d.releasing then (d, if d.scheduled == 0 then Some(Release) else None)
    else if target == d.cur then (d, Some(Trigger(target)))
    else (d, Some(Leave(d.cur, target)))
  }

  function Scheduled(c: Core, target: Option<nat>): Core {
    c.(scheduled := c.scheduled + 1, pipe := c.pipe + [if target.Some? then target.value else c.cur])
  }

  function Releasing(c: Core): Core {
    if c.releasing then c
    else if c.scheduled == 0 then Scheduled(c.(releasing := true), None)
    else c.(releasing := true)
  }

  // --------------------------------------------------------------------------------- the state machine

  /** The running callbacks, the innermost first. */
  datatype Stack = Idle | Running(call: Call, below: Stack)

  /** trace lists the callbacks that were started, asked all requested targets, and served counts the
      transitions that were performed. */
  datatype State = State(core: Core, stack: Stack, trace: seq<Call>, asked: seq<nat>, served: nat)

  datatype Action = Request(target: Option<nat>) | RequestRelease | Dispatch | Return

  predicate Released(s: State) { Release in s.trace }

  function Requested(s: State, target: Option<nat>): State {
    s.(core := Scheduled(s.core, target), asked := s.asked + [if target.Some? then target.value else s.core.cur])
  }

  function Calling(s: State, call: Call): State {
    s.(stack := Running(call, s.stack), trace := s.trace + [call])
  }

  /** The release callback is the end of the machine: no request comes after it was started. */
  function Next(s: State, a: Action): Option<State> {
    match a
    case Request(target) => if Released(s) then None else Some(Requested(s, target))
    case RequestRelease =>
      if Released(s) then None
      else if s.core.releasing || s.core.scheduled != 0 then Some(s.(core := Releasing(s.core)))
      else Some(Requested(s.(core := s.core.(releasing := true)), None))
    case Dispatch =>
      if s.core.pipe == [] then None
      else
        var (core, call) := Begin(s.core);
        var t := s.(core := core, served := if core.releasing then s.served else s.served + 1);
        Some(if call.Some? then Calling(t, call.value) else t)
    case Return =>
      match s.stack
      case Idle => None
      case Running(Leave(_, target), below) =>
        Some(Calling(s.(core := s.core.(cur := target), stack := below), Enter(target)))
      case Running(_, below) => Some(s.(stack := below))
  }

  /** Runs in which no leave callback runs the loop; enter and trigger callbacks may do so to any depth. */
  function Orderly(s: State, a: Action): Option<State> {
    if a.Dispatch? && s.stack.Running? && s.stack.call.Leave? then None else Next(s, a)
  }

  function New(initial: nat): State {
    State(Core(initial, 0, false, []), Idle, [], [], 0)
  }

  // ------------------------------------------------------------------------------- well-bracketed traces

  datatype Where = In(state: nat) | Leaving(target: nat) | Over

  /** Where a trace leads: a state is triggered while it is current, left only for a different one which is
      entered next, and the release comes last. None if the trace does not obey that. */
  function After(w: Where, call: Call): Option<Where> {
    match call
    case Trigger(x) => if w == In(x) then Some(w) else None
    case Leave(x, told) => if w == In(x) && told != x then Some(Leaving(told)) else None
    case Enter(x) => if w == Leaving(x) then Some(In(x)) else None
    case Release => if w.In? then Some(Over) else None
  }

  function Bracketed(initial: nat, trace: seq<Call>): Option<Where> {
    if trace == [] then Some(In(initial))
    else
      var before := Bracketed(initial, trace[..|trace| - 1]);
      if before.None? then None else After(before.value, trace[|trace| - 1])
  }

  lemma OneMore(initial: nat, trace: seq<Call>, call: Call)
    ensures Bracketed(initial, trace + [call]) ==
            if Bracketed(initial, trace).None? then None else After(Bracketed(initial, trace).value, call)
  {
    assert (trace + [call])[..|trace + [call]| - 1] == trace;
  }

  /** The states that the trace was to reach, in order. */
  function Targets(trace: seq<Call>): seq<nat> {
    if trace == [] then []
    else
      var before, call := Targets(trace[..|trace| - 1]), trace[|trace| - 1];
      match call
      case Leave(_, target) => before + [target]
      case Trigger(x) => before + [x]
      case _ => before
  }

  lemma OneMoreTarget(trace: seq<Call>, call: Call)
    ensures Targets(trace + [call]) ==
            Targets(trace) + match call case Leave(_, target) => [target] case Trigger(x) => [x] case _ => []
  {
    assert (trace + [call])[..|trace + [call]| - 1] == trace;
  }

  // ------------------------------------------------------------------------------------- the invariants

  /** What holds in every run, whatever the callbacks do. */
  ghost predicate Inv(s: State) {
    && s.core.scheduled == |s.core.pipe|
    && s.served <= |s.asked| - |s.core.pipe|
    && s.core.pipe == s.asked[|s.asked| - |s.core.pipe|..]
    && (!s.core.releasing ==> s.served == |s.asked| - |s.core.pipe| && !Released(s))
    && Targets(s.trace) == s.asked[..s.served]
    && (s.core.releasing ==> (Released(s) <==> s.core.pipe == []))
    && multiset(s.trace)[Release] <= 1
  }

  /** The state that the stack of callbacks implies, when none but the innermost is a leave callback. */
  ghost predicate NoLeave(k: Stack) {
    k.Running? ==> !k.call.Leave? && NoLeave(k.below)
  }

  ghost predicate InPlace(initial: nat, s: State) {
    && (s.stack.Running? ==> NoLeave(s.stack.below))
    && Bracketed(initial, s.trace) ==
       (if Released(s) then Some(Over)
        else if s.stack.Running? && s.stack.call.Leave? then Some(Leaving(s.stack.call.told))
        else Some(In(s.core.cur)))
    && (s.stack.Running? && s.stack.call.Leave? ==> !Released(s))
  }

  ghost predicate OrderlyInv(initial: nat, s: State) {
    Inv(s) && InPlace(initial, s)
  }

  lemma CallingKeeps(s: State, call: Call)
    ensures Released(Calling(s, call)) <==> Released(s) || call == Release
    ensures multiset(Calling(s, call).trace) == multiset(s.trace)[call := multiset(s.trace)[call] + 1]
  {
  }

  lemma RequestKeeps(s: State, target: Option<nat>, releasing: bool)
    requires Inv(s) && !Released(s) && (s.core.releasing ==> releasing)
    ensures Inv(Requested(s.(core := s.core.(releasing := releasing)), target))
  {
    var t := Requested(s.(core := s.core.(releasing := releasing)), target);
    assert t.core.pipe == t.asked[|t.asked| - |t.core.pipe|..];
    assert t.asked[..s.served] == s.asked[..s.served];
  }

  lemma PipeAfterDispatch(s: State)
    requires Inv(s) && s.core.pipe != []
    ensures s.core.pipe[1..] == s.asked[|s.asked| - |s.core.pipe| + 1..]
    ensures !s.core.releasing ==> s.asked[..s.served + 1] == s.asked[..s.served] + [s.core.pipe[0]]
  {
  }

  lemma TransitionKeeps(s: State)
    requires Inv(s) && s.core.pipe != [] && !s.core.releasing
    ensures Inv(Next(s, Dispatch).value)
  {
    PipeAfterDispatch(s);
    var call := Begin(s.core).1.value;
    CallingKeeps(s, call);
    OneMoreTarget(s.trace, call);
  }

  lemma DropKeeps(s: State)
    requires Inv(s) && s.core.pipe != [] && s.core.releasing
    ensures Inv(Next(s, Dispatch).value)
  {
    PipeAfterDispatch(s);
    CallingKeeps(s, Release);
    OneMoreTarget(s.trace, Release);
  }

  lemma DispatchKeeps(s: State)
    requires Inv(s) && s.core.pipe != []
    ensures Inv(Next(s, Dispatch).value)
  {
    if s.core.releasing { DropKeeps(s); } else { TransitionKeeps(s); }
  }

  lemma ReleaseRequestKeeps(s: State)
    requires Inv(s) && !Released(s)
    ensures Inv(Next(s, RequestRelease).value)
    ensures Next(s, RequestRelease).value.core == Releasing(s.core)
  {
    if !s.core.releasing && s.core.scheduled == 0 { RequestKeeps(s, None, true); }
  }

  lemma ReturnKeeps(s: State)
    requires Inv(s) && s.stack.Running?
    ensures Inv(Next(s, Return).value)
  {
    if s.stack.call.Leave? {
      CallingKeeps(s, Enter(s.stack.call.told));
      OneMoreTarget(s.trace, Enter(s.stack.call.told));
    }
  }

  lemma StepKeeps(s: State, a: Action)
    requires Inv(s) && Next(s, a).Some?
    ensures Inv(Next(s, a).value)
  {
    match a
    case Request(target) =>
      RequestKeeps(s, target, s.core.releasing);
      assert s.(core := s.core.(releasing := s.core.releasing)) == s;
    case RequestRelease => ReleaseRequestKeeps(s);
    case Dispatch => DispatchKeeps(s);
    case Return => ReturnKeeps(s);
  }

  lemma {:induction false} RunKeeps(s: State, acts: seq<Action>)
    requires Inv(s) && Runs.Play(Next, s, acts).Some?
    ensures Inv(Runs.Play(Next, s, acts).value)
    decreases |acts|
  {
    if acts != [] {
      StepKeeps(s, acts[0]);
      RunKeeps(Next(s, acts[0]).value, acts[1..]);
    }
  }

  lemma Reachable(initial: nat, acts: seq<Action>)
    requires Runs.Play(Next, New(initial), acts).Some?
    ensures Inv(Runs.Play(Next, New(initial), acts).value)
  {
    RunKeeps(New(initial), acts) by { NewInPlace(initial); }
  }

  lemma CallInPlace(initial: nat, s: State, t: State, call: Call)
    requires InPlace(initial, s) && !Released(s) && (s.stack.Running? ==> NoLeave(s.stack))
    requires t.stack == Running(call, s.stack) && t.trace == s.trace + [call] && t.core.cur == s.core.cur
    requires call in {Release, Trigger(s.core.cur)} || (call.Leave? && call.state == s.core.cur != call.told)
    ensures InPlace(initial, t)
  {
    OneMore(initial, s.trace, call);
  }

  lemma OrderlyDispatchKeeps(initial: nat, s: State)
    requires OrderlyInv(initial, s) && Orderly(s, Dispatch).Some?
    ensures OrderlyInv(initial, Next(s, Dispatch).value)
  {
    DispatchKeeps(s);
    var call := Begin(s.core).1;
    if call.Some? {
      CallInPlace(initial, s, Next(s, Dispatch).value, call.value);
    }
  }

  lemma OrderlyReturnKeeps(initial: nat, s: State)
    requires OrderlyInv(initial, s) && s.stack.Running?
    ensures OrderlyInv(initial, Next(s, Return).value)
  {
    ReturnKeeps(s);
    if s.stack.call.Leave? {
      CallingKeeps(s, Enter(s.stack.call.told));
      OneMore(initial, s.trace, Enter(s.stack.call.told));
    }
  }

  lemma OrderlyStepKeeps(initial: nat, s: State, a: Action)
    requires OrderlyInv(initial, s) && Orderly(s, a).Some?
    ensures OrderlyInv(initial, Orderly(s, a).value)
  {
    match a
    case Dispatch => OrderlyDispatchKeeps(initial, s);
    case Return => OrderlyReturnKeeps(initial, s);
    case _ => StepKeeps(s, a);
  }

  lemma NewInPlace(initial: nat)
    ensures OrderlyInv(initial, New(initial))
  {
  }

  lemma OrderlyReachable(initial: nat, acts: seq<Action>)
    requires Runs.Play(Orderly, New(initial), acts).Some?
    ensures OrderlyInv(initial, Runs.Play(Orderly, New(initial), acts).value)
  {
    OrderlyRun(initial, New(initial), acts) by { NewInPlace(initial); }
  }

  lemma {:induction false} OrderlyRun(initial: nat, s: State, acts: seq<Action>)
    requires OrderlyInv(initial, s) && Runs.Play(Orderly, s, acts).Some?
    ensures OrderlyInv(initial, Runs.Play(Orderly, s, acts).value)
    decreases |acts|
  {
    if acts != [] {
      OrderlyStepKeeps(initial, s, acts[0]);
      OrderlyRun(initial, Orderly(s, acts[0]).value, acts[1..]);
    }
  }

  // ---------------------------------------------------------------------------------------- what follows

  /** The counter is the number of transitions in the pipe, always. */
  lemma CounterIsPipeLength(initial: nat, acts: seq<Action>)
    requires Runs.Play(Next, New(initial), acts).Some?
    ensures var c := Runs.Play(Next, New(initial), acts).value.core; c.scheduled == |c.pipe|
  {
    Reachable(initial, acts);
  }

  /** Transitions start in the order of the requests: the targets of the trace are the first of the requested
      ones, and while no release is requested only those in the pipe are missing. */
  lemma TransitionsKeepRequestOrder(initial: nat, acts: seq<Action>)
    requires Runs.Play(Next, New(initial), acts).Some?
    ensures var s := Runs.Play(Next, New(initial), acts).value;
            && Targets(s.trace) <= s.asked
            && (!s.core.releasing ==> Targets(s.trace) + s.core.pipe == s.asked)
  {
    Reachable(initial, acts);
  }

  /** The release callback is called at most once, and after a release was requested it has been called if
      and only if nothing is queued any more. */
  lemma ReleasedOnceWithNothingQueued(initial: nat, acts: seq<Action>)
    requires Runs.Play(Next, New(initial), acts).Some?
    ensures var s := Runs.Play(Next, New(initial), acts).value;
            multiset(s.trace)[Release] == if s.core.releasing && s.core.pipe == [] then 1 else 0
  {
    Reachable(initial, acts);
  }

  /** If no leave callback runs the loop, the trace is well bracketed: every state is entered after the one
      before it was left, triggered only while it is current, and nothing follows the release. */
  lemma TraceIsBracketed(initial: nat, acts: seq<Action>)
    requires Runs.Play(Orderly, New(initial), acts).Some?
    ensures var s := Runs.Play(Orderly, New(initial), acts).value;
            Bracketed(initial, s.trace) ==
            (if Released(s) then Some(Over)
             else if s.stack.Running? && s.stack.call.Leave? then Some(Leaving(s.stack.call.told))
             else Some(In(s.core.cur)))
  {
    OrderlyReachable(initial, acts);
  }

  /** Where a leave callback does run the loop and the loop delivers a transition, the trace stays well
      bracketed only if the transition is dropped because of a pending release with more to come. */
  lemma LoopInLeaveBreaksTheTraceUnless(initial: nat, acts: seq<Action>)
    requires Runs.Play(Orderly, New(initial), acts).Some?
    requires var s := Runs.Play(Orderly, New(initial), acts).value;
             s.stack.Running? && s.stack.call.Leave? && s.core.pipe != []
    ensures var s := Runs.Play(Orderly, New(initial), acts).value;
            Bracketed(initial, Next(s, Dispatch).value.trace).Some? <==> s.core.releasing && |s.core.pipe| > 1
  {
    OrderlyReachable(initial, acts);
    DispatchInLeave(initial, Runs.Play(Orderly, New(initial), acts).value);
  }

  lemma DispatchInLeave(initial: nat, s: State)
    requires OrderlyInv(initial, s) && s.stack.Running? && s.stack.call.Leave? && s.core.pipe != []
    ensures Bracketed(initial, Next(s, Dispatch).value.trace).Some? <==> s.core.releasing && |s.core.pipe| > 1
  {
    var call := Begin(s.core).1;
    if call.Some? {
      assert Next(s, Dispatch).value.trace == s.trace + [call.value];
      OneMore(initial, s.trace, call.value);
    } else {
      assert Next(s, Dispatch).value.trace == s.trace;
    }
  }

  function Overlapped(): State {
    State(Core(0, 0, false, []), Running(Leave(0, 2), Running(Leave(0, 1), Idle)),
          [Leave(0, 1), Leave(0, 2)], [1, 2], 2)
  }

  /** Such a run: states 1 and 2 are requested, and the leave callback of state 0 runs the loop. */
  lemma LoopInLeaveIsPossible()
    ensures Runs.Play(Next, New(0), [Request(Some(1)), Request(Some(2)), Dispatch, Dispatch]) == Some(Overlapped())
  {
    var s1, s2, s3 := StatesOfRun();
    Runs.Along(Next, [New(0), s1, s2, s3, Overlapped()], [Request(Some(1)), Request(Some(2)), Dispatch, Dispatch]);
  }

  lemma StatesOfRun() returns (s1: State, s2: State, s3: State)
    ensures Next(New(0), Request(Some(1))) == Some(s1) && Next(s1, Request(Some(2))) == Some(s2)
    ensures Next(s2, Dispatch) == Some(s3) && Next(s3, Dispatch) == Some(Overlapped())
  {
    s1 := State(Core(0, 1, false, [1]), Idle, [], [1], 0);
    s2 := State(Core(0, 2, false, [1, 2]), Idle, [], [1, 2], 0);
    s3 := State(Core(0, 1, false, [2]), Running(Leave(0, 1), Idle), [Leave(0, 1)], [1, 2], 1);
    RequestFrom(New(0), 1);
    RequestFrom(s1, 2);
    DispatchFrom(s2, 1, [2]);
    DispatchFrom(s3, 2, []);
    assert [] + [1] == [1] && [1] + [2] == [1, 2] && [] + [Leave(0, 1)] == [Leave(0, 1)];
    assert [Leave(0, 1)] + [Leave(0, 2)] == [Leave(0, 1), Leave(0, 2)];
  }

  lemma RequestFrom(s: State, target: nat)
    requires !Released(s)
    ensures Next(s, Request(Some(target))) ==
            Some(s.(core := s.core.(scheduled := s.core.scheduled + 1, pipe := s.core.pipe + [target]),
                    asked := s.asked + [target]))
  {
  }

  lemma DispatchFrom(s: State, target: nat, rest: seq<nat>)
    requires s.core.pipe == [target] + rest && target != s.core.cur && !s.core.releasing
    ensures var call := Leave(s.core.cur, target);
            Next(s, Dispatch) == Some(State(s.core.(scheduled := s.core.scheduled - 1, pipe := rest),
                                            Running(call, s.stack), s.trace + [call], s.asked, s.served + 1))
  {
    assert s.core.pipe[1..] == rest;
  }

  // ------------------------------------------------------------------------------------------ progress

  /** A transition that comes up while no release is requested is carried out: its state is triggered if it is the
      current one; otherwise the current one is left, and when that is done the new one is current and entered. */
  lemma TransitionIsCarriedOut(initial: nat, acts: seq<Action>)
    requires Runs.Play(Next, New(initial), acts).Some?
    requires var s := Runs.Play(Next, New(initial), acts).value; !s.core.releasing && s.core.pipe != []
    ensures var s := Runs.Play(Next, New(initial), acts).value;
            var cur, target := s.core.cur, s.core.pipe[0];
            if target == cur then
              var t := Next(s, Dispatch);
              t.Some? && t.value.trace == s.trace + [Trigger(cur)] && t.value.core.cur == cur
            else
              var t := Runs.Play(Next, s, [Dispatch, Return]);
              && t.Some? && t.value.trace == s.trace + [Leave(cur, target)] + [Enter(target)]
              && t.value.core.cur == target
  {
    var s := Runs.Play(Next, New(initial), acts).value;
    Runs.Double(Next, s, Dispatch, Return);
  }

  /** A request joins the end of the pipe; without a target it asks for the state that is current then. */
  lemma RequestIsQueued(initial: nat, acts: seq<Action>, target: nat)
    requires Runs.Play(Next, New(initial), acts).Some? && !Released(Runs.Play(Next, New(initial), acts).value)
    ensures var s := Runs.Play(Next, New(initial), acts).value;
            var t, u := Next(s, Request(Some(target))), Next(s, Request(None));
            && t.Some? && t.value.core.pipe == s.core.pipe + [target] && t.value.core.cur == s.core.cur
            && u.Some? && u.value.core.pipe == s.core.pipe + [s.core.cur] && u.value.core.cur == s.core.cur
            && t.value.trace == u.value.trace == s.trace
  {
  }

  /** A release that is requested with nothing queued is carried out by the next transition; with transitions
      queued nothing is added, and they are dropped except for the last, which releases. */
  lemma ReleaseIsCarriedOut(initial: nat, acts: seq<Action>)
    requires Runs.Play(Next, New(initial), acts).Some? && !Released(Runs.Play(Next, New(initial), acts).value)
    ensures var s := Runs.Play(Next, New(initial), acts).value;
            var t := Next(s, RequestRelease);
            && t.Some? && t.value.core.releasing
            && |t.value.core.pipe| == (if s.core.pipe == [] then 1 else |s.core.pipe|)
            && var u := Next(t.value, Dispatch);
               u.Some? && u.value.trace == s.trace + (if |s.core.pipe| <= 1 then [Release] else [])
  {
    Reachable(initial, acts);
  }

  // ------------------------------------------------------------------------------------ the operations

  /** The fields of a state machine and its transitions in the control pipe. Every method is one step of a run,
      which history records. */
  class Machine {
    var curState: nat
    var nSchedules: int
    var flagRelease: bool
    var pipe: seq<nat>
    ghost var history: State

    ghost predicate Valid()
      reads this
    {
      Inv(history) && history.core == Core(curState, nSchedules, flagRelease, pipe)
    }

    constructor (initial: nat)
      ensures Valid() && history == New(initial)
    {
      curState, nSchedules, flagRelease, pipe, history := initial, 0, false, [], New(initial);
      new;
      NewInPlace(initial);
    }

    /** crtx_change_state(); without a target the current state is triggered. */
    method ChangeState(target: Option<nat>)
      requires Valid() && !Released(history)
      modifies this
      ensures Valid() && Next(old(history), Request(target)) == Some(history)
      ensures nSchedules == |pipe| > 0
    {
      StepKeeps(history, Request(target));
      history := Next(history, Request(target)).value;
      nSchedules := nSchedules + 1;
      var t := if target.Some? then target.value else curState;
      pipe := pipe + [t];
    }

    /** crtx_release_sm(). Whatever was requested before, there is a transition afterwards that will release. */
    method ReleaseSm()
      requires Valid() && !Released(history)
      modifies this
      ensures Valid() && Next(old(history), RequestRelease) == Some(history)
      ensures flagRelease && pipe != []
    {
      StepKeeps(history, RequestRelease);
      ghost var after := Next(history, RequestRelease).value;
      if !flagRelease {
        flagRelease := true;
        if nSchedules == 0 {
          nSchedules := nSchedules + 1;
          pipe := pipe + [curState];
        }
      }
      history := after;
    }

    /** change_sms() when the loop delivers the first transition, until it calls back. The call for the release
        is made exactly when the flag is set and nothing is left. */
    method ChangeSms() returns (call: Option<Call>)
      requires Valid() && pipe != []
      modifies this
      ensures Valid() && Next(old(history), Dispatch) == Some(history)
      ensures history.trace == old(history.trace) + (if call.Some? then [call.value] else [])
      ensures call == Some(Release) <==> flagRelease && pipe == []
      ensures call == None <==> flagRelease && pipe != []
    {
      StepKeeps(history, Dispatch);
      history := Next(history, Dispatch).value;
      var sms := pipe[0];
      pipe := pipe[1..];
      nSchedules := nSchedules - 1;
      if flagRelease {
        if nSchedules == 0 { return Some(Release); }
        return None;
      }
      if sms == curState { return Some(Trigger(sms)); }
      return Some(Leave(curState, sms));
    }

    /** change_sms() from the end of the leave callback to the start of the enter callback. */
    method AfterLeave(sms: nat) returns (call: Call)
      requires Valid() && history.stack.Running? && history.stack.call.Leave? && history.stack.call.told == sms
      modifies this
      ensures Valid() && Next(old(history), Return) == Some(history) && curState == sms
      ensures history.trace == old(history.trace) + [call] && history.stack.Running? && history.stack.call == call
    {
      StepKeeps(history, Return);
      history := Next(history, Return).value;
      curState := sms;
      return Enter(sms);
    }
  }
}
