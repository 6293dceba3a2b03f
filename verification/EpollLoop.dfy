/** The re-entrant event loop of src/epoll.c as a state machine with an explicit call stack.

    A frame is one activation of evloop_start_intern(). While a frame dispatches a ready event or runs a
    timeout callback, user code is running and may enter the loop again, which pushes another frame. The
    clock, the handlers, epoll_wait() and other threads are the environment: their choices are the actions. */
module EpollLoop {
  import opened Wrappers
  import Runs

  /** One slot of epl->events. The id is the position of the ready event among all ready events that the
      waits of the run returned; it only serves to tell events apart. */
  datatype Ready = Ready(id: nat, flags: int)

  datatype Pc =
    | Head                                            // top of while (loop)
    | Drain                                           // while (cur_event_idx < n_rdy_events)
    | Dispatch(slot: nat, own: Ready, epoch: nat)     // a handler of the event claimed from slot runs
    | Timers                                          // scanning the deadlines
    | TimerCallback                                   // a timeout callback runs
    | Wait                                            // about to call epoll_wait()

  /** waits counts the waits of the frame, work the events and timeouts that it processed since it was at the
      top of its loop; both only record what happened. */
  datatype Frame = Frame(oneshot: bool, loop: int, processed: bool, waits: nat, work: nat, pc: Pc)

  /** The activations of the loop, innermost first. */
  datatype Stack = Empty | Call(top: Frame, below: Stack)

  /** claimed, delivered, batches and issued record what happened so far. */
  datatype State = State(
    cur: int, n: int, events: seq<Ready>,
    stop: bool, forked: bool, phaseOut: bool,
    stack: Stack,
    issued: nat,                    // number of ready events returned by all waits
    batches: seq<nat>,              // how many events each wait returned
    claimed: seq<nat>,              // ids in the order in which slots were taken for dispatch
    delivered: seq<(Ready, Ready)>  // per callback: the event it was called for, the slot content it was shown
  )

  datatype Action =
    | Enter(oneshot: bool)
    | Iterate
    | Claim
    | Deliver
    | HandlersDone
    | FireTimer
    | TimerDone
    | LeaveTimers
    | EpollWait(ready: seq<int>)
    | EpollFails
    | SetStop
    | SetForked
    | SetPhaseOut

  /** A loop that was set up but never run; the content of the slots is what malloc() left there. */
  function Init(slots: seq<Ready>): State {
    State(0, 0, slots, false, false, false, Empty, 0, [], [], [])
  }

  predicate Idle(s: State) { s.stack.Empty? }

  function Top(s: State): Frame
    requires !Idle(s)
  {
    s.stack.top
  }

  function Pop(s: State): State
    requires !Idle(s)
  {
    s.(stack := s.stack.below)
  }

  function SetTop(s: State, f: Frame): State
    requires !Idle(s)
  {
    s.(stack := Call(f, s.stack.below))
  }

  function Goto(s: State, pc: Pc): State
    requires !Idle(s)
  {
    SetTop(s, Top(s).(pc := pc))
  }

  /** User code runs: outside of the loop, in an event handler or in a timeout callback. */
  predicate UserCodeRuns(s: State) {
    Idle(s) || Top(s).pc.Dispatch? || Top(s).pc.TimerCallback?
  }

  /** Undispatched events of the last wait remain. */
  predicate Outstanding(s: State) { s.cur < s.n }

  /** epoll_wait() overwrites the first slots with the new events and leaves the others as they were. */
  function Overwrite(events: seq<Ready>, ready: seq<int>, firstId: nat): seq<Ready>
    requires |ready| <= |events|
  {
    seq(|ready|, k requires 0 <= k < |ready| => Ready(firstId + k, ready[k])) + events[|ready|..]
  }

  /** What evloop_start_intern() does once epoll_wait() has returned n >= 0 events. */
  function AfterWait(s: State): State
    requires !Idle(s) && Top(s).pc.Wait?
  {
    if s.n < 0 || (s.n == 0 && s.phaseOut) || s.stop then Pop(s)
    else
      var f := Top(s);
      SetTop(s, f.(loop := if f.oneshot then f.loop - 1 else f.loop, waits := f.waits + 1, pc := Head))
  }

  function Next(s: State, a: Action): Option<State> {
    match a
    case SetStop => Some(s.(stop := true))
    case SetForked => Some(s.(forked := true))
    case SetPhaseOut => Some(s.(phaseOut := true))
    case Enter(oneshot) =>
      if !UserCodeRuns(s) then None
      else if s.forked || s.phaseOut || s.stop then Some(s)
      else Some(s.(stack := Call(Frame(oneshot, if oneshot then 2 else 1, false, 0, 0, Head), s.stack)))
    case _ =>
      if Idle(s) then None else FrameStep(s, a)
  }

  function FrameStep(s: State, a: Action): Option<State>
    requires !Idle(s)
  {
    var f := Top(s);
    match (a, f.pc)
    case (Iterate, Head) =>
      Some(SetTop(s, f.(processed := Outstanding(s), work := 0, pc := Drain)))
    case (Claim, Drain) =>
      if 0 <= s.cur < s.n <= |s.events| then
        Some(SetTop(s, f.(work := f.work + 1, pc := Dispatch(s.cur, s.events[s.cur], |s.batches|)))
              .(cur := s.cur + 1, claimed := s.claimed + [s.events[s.cur].id]))
      else if s.forked then Some(Pop(s))
      else Some(Goto(s, Timers))
    case (Deliver, Dispatch(slot, own, _)) =>
      if slot < |s.events| then Some(s.(delivered := s.delivered + [(own, s.events[slot])])) else None
    case (HandlersDone, Dispatch(_, _, _)) =>
      if s.forked then Some(Pop(s)) else Some(Goto(s, Drain))
    case (FireTimer, Timers) =>
      if s.forked then None else Some(Goto(s, TimerCallback))
    case (TimerDone, TimerCallback) =>
      Some(SetTop(s, f.(processed := true, work := f.work + 1, pc := Timers)))
    case (LeaveTimers, Timers) =>
      if (f.oneshot && f.processed) || (f.oneshot && f.loop == 1) || s.forked || s.stop then Some(Pop(s))
      else Some(Goto(s, Wait))
    case (EpollWait(ready), Wait) =>
      if |ready| > |s.events| then None
      else
        Some(AfterWait(s.(cur := 0, n := |ready|, events := Overwrite(s.events, ready, s.issued),
                          issued := s.issued + |ready|, batches := s.batches + [|ready|])))
    case (EpollFails, Wait) =>
      Some(AfterWait(s.(cur := 0, n := -1, batches := s.batches + [0])))
    case _ => None
  }

  // ------------------------------------------------------------------------------------------------

  function Count(s: State): nat { if s.n < 0 then 0 else s.n }

  /** Id of the event in slot 0 of the current batch. */
  function Base(s: State): int { s.issued - Count(s) }

  /** The slots hold the current batch, and the events were claimed in the order 0, 1, 2, ... up to cur. */
  ghost predicate BatchInv(s: State) {
    && -1 <= s.n <= |s.events|
    && 0 <= s.cur <= Count(s) <= s.issued
    && (forall j :: 0 <= j < Count(s) ==> s.events[j].id == Base(s) + j)
    && |s.claimed| == Base(s) + s.cur
    && (forall k :: 0 <= k < |s.claimed| ==> s.claimed[k] == k)
  }

  predicate FrameOk(f: Frame) {
    && f.loop == (if f.oneshot then 2 - f.waits else 1)
    && 1 <= f.loop
    && (f.pc.Wait? && f.oneshot ==> f.waits == 0 && f.work == 0)
    && (f.pc.Dispatch? ==> f.work > 0)
    && (f.work > 0 && !f.pc.Head? ==> f.processed)
    && (f.pc.Timers? || f.pc.TimerCallback? || f.pc.Wait? ==> (f.processed <==> f.work > 0))
  }

  /** No wait since the claim returned enough events to reach this slot. */
  ghost predicate SlotUntouched(s: State, pc: Pc)
    requires pc.Dispatch?
  {
    forall k :: pc.epoch <= k < |s.batches| ==> s.batches[k] <= pc.slot
  }

  ghost predicate DispatchOk(s: State, pc: Pc)
    requires pc.Dispatch?
  {
    && pc.slot < |s.events| && pc.own.id < s.issued && pc.epoch <= |s.batches|
    && (s.events[pc.slot].id == pc.own.id <==> SlotUntouched(s, pc))
    && (SlotUntouched(s, pc) ==> s.events[pc.slot] == pc.own)
  }

  /** Every frame but the innermost one is inside user code. */
  ghost predicate StackOk(s: State, stack: Stack) {
    stack.Call? ==>
      && FrameOk(stack.top)
      && (stack.top.pc.Dispatch? ==> DispatchOk(s, stack.top.pc))
      && (stack.below.Call? ==> stack.below.top.pc.Dispatch? || stack.below.top.pc.TimerCallback?)
      && StackOk(s, stack.below)
  }

  /** Where a frame stands past its drain loop, nothing is outstanding, unless the loop is being stopped. */
  ghost predicate DrainInv(s: State) {
    && (!Idle(s) && Top(s).pc.Wait? ==> !Outstanding(s))
    && (!Idle(s) && Top(s).pc.Drain? && Top(s).work == 0 ==> (Top(s).processed <==> Outstanding(s)))
    && (Idle(s) || Top(s).pc.Timers? || Top(s).pc.TimerCallback? ==> !Outstanding(s) || s.stop || s.forked)
  }

  ghost predicate Inv(s: State) { BatchInv(s) && StackOk(s, s.stack) && DrainInv(s) }

  lemma WaitKeepsBatchInv(s: State, a: Action)
    requires Inv(s) && !Idle(s) && Top(s).pc.Wait? && (a.EpollWait? || a.EpollFails?)
    requires FrameStep(s, a).Some?
    ensures BatchInv(FrameStep(s, a).value)
  {
    assert !Outstanding(s);
  }

  /** t is s after one more wait that returned m events. */
  ghost predicate Waited(s: State, t: State, m: nat) {
    && m <= |s.events| == |t.events|
    && t.batches == s.batches + [m] && t.issued == s.issued + m
    && (forall j :: 0 <= j < m ==> t.events[j].id == s.issued + j)
    && (forall j :: m <= j < |s.events| ==> t.events[j] == s.events[j])
  }

  lemma WaitKeepsDispatch(s: State, t: State, m: nat, pc: Pc)
    requires pc.Dispatch? && DispatchOk(s, pc) && Waited(s, t, m)
    ensures DispatchOk(t, pc)
  {
    assert t.batches[|s.batches|] == m;
    assert forall k :: 0 <= k < |s.batches| ==> t.batches[k] == s.batches[k];
    if m <= pc.slot {
      assert SlotUntouched(t, pc) <==> SlotUntouched(s, pc);
    } else {
      assert !SlotUntouched(t, pc);
    }
  }

  lemma {:induction false} WaitKeepsStack(s: State, t: State, m: nat, stack: Stack)
    requires StackOk(s, stack) && Waited(s, t, m)
    ensures StackOk(t, stack)
  {
    if stack.Call? {
      if stack.top.pc.Dispatch? { WaitKeepsDispatch(s, t, m, stack.top.pc); }
      WaitKeepsStack(s, t, m, stack.below);
    }
  }

  /** The other steps neither issue events nor change the slots. */
  lemma {:induction false} SameSlotsKeepStack(s: State, t: State, stack: Stack)
    requires StackOk(s, stack)
    requires t.events == s.events && t.batches == s.batches && t.issued == s.issued
    ensures StackOk(t, stack)
  {
    if stack.Call? {
      if stack.top.pc.Dispatch? {
        assert SlotUntouched(s, stack.top.pc) <==> SlotUntouched(t, stack.top.pc);
      }
      SameSlotsKeepStack(s, t, stack.below);
    }
  }

  lemma OverwrittenSlots(events: seq<Ready>, ready: seq<int>, firstId: nat)
    requires |ready| <= |events|
    ensures var after := Overwrite(events, ready, firstId);
            && |after| == |events|
            && (forall j :: 0 <= j < |ready| ==> after[j].id == firstId + j)
            && (forall j :: |ready| <= j < |events| ==> after[j] == events[j])
  {
  }

  lemma AfterWaitChangesStack(s: State)
    requires !Idle(s) && Top(s).pc.Wait?
    ensures AfterWait(s) == s.(stack := AfterWait(s).stack)
  {
  }

  lemma WaitIsWaited(s: State, a: Action)
    requires !Idle(s) && Top(s).pc.Wait? && (a.EpollWait? || a.EpollFails?) && FrameStep(s, a).Some?
    ensures Waited(s, FrameStep(s, a).value, if a.EpollWait? then |a.ready| else 0)
  {
    if a.EpollWait? {
      OverwrittenSlots(s.events, a.ready, s.issued);
      AfterWaitChangesStack(s.(cur := 0, n := |a.ready|, events := Overwrite(s.events, a.ready, s.issued),
                               issued := s.issued + |a.ready|, batches := s.batches + [|a.ready|]));
    } else {
      AfterWaitChangesStack(s.(cur := 0, n := -1, batches := s.batches + [0]));
    }
  }

  lemma WaitKeepsInv(s: State, a: Action)
    requires Inv(s) && (a.EpollWait? || a.EpollFails?) && Next(s, a).Some?
    ensures Inv(Next(s, a).value)
  {
    WaitKeepsBatchInv(s, a);
    WaitIsWaited(s, a);
    var t := Next(s, a).value;
    WaitKeepsStack(s, t, if a.EpollWait? then |a.ready| else 0, s.stack);
    assert StackOk(t, s.stack.below);
  }

  lemma ClaimKeepsInv(s: State)
    requires Inv(s) && Next(s, Claim).Some?
    ensures Inv(Next(s, Claim).value)
  {
    var t := Next(s, Claim).value;
    SameSlotsKeepStack(s, t, s.stack);
    if Outstanding(s) {
      assert SlotUntouched(t, Top(t).pc);
    }
  }

  /** The steps that neither wait nor claim keep the batch, so that only the stack has to be looked at. */
  ghost predicate SameBatch(s: State, t: State) {
    && t.events == s.events && t.batches == s.batches && t.issued == s.issued
    && t.cur == s.cur && t.n == s.n && t.claimed == s.claimed
  }

  lemma FlagKeepsInv(s: State, a: Action)
    requires Inv(s) && (a.SetStop? || a.SetForked? || a.SetPhaseOut?)
    ensures Inv(Next(s, a).value)
  {
    var t := Next(s, a).value;
    assert SameBatch(s, t) && t.stack == s.stack;
    SameSlotsKeepStack(s, t, s.stack);
  }

  lemma EnterKeepsInv(s: State, oneshot: bool)
    requires Inv(s) && Next(s, Enter(oneshot)).Some?
    ensures Inv(Next(s, Enter(oneshot)).value)
  {
    var t := Next(s, Enter(oneshot)).value;
    assert SameBatch(s, t);
    SameSlotsKeepStack(s, t, s.stack);
    assert StackOk(t, t.stack);
  }

  /** The innermost frame returns. */
  lemma PopKeepsInv(s: State)
    requires Inv(s) && !Idle(s) && (!Outstanding(s) || s.stop || s.forked)
    ensures Inv(Pop(s))
  {
    SameSlotsKeepStack(s, Pop(s), s.stack.below);
  }

  /** The innermost frame goes on, as f. */
  lemma MoveKeepsInv(s: State, t: State, f: Frame)
    requires Inv(s) && !Idle(s) && SameBatch(s, t) && t.stack == Call(f, s.stack.below)
    requires FrameOk(f) && (f.pc.Dispatch? ==> f.pc == Top(s).pc) && DrainInv(t)
    ensures Inv(t)
  {
    SameSlotsKeepStack(s, t, s.stack);
    assert StackOk(t, s.stack.below);
    assert StackOk(t, t.stack);
  }

  predicate FrameAction(a: Action) {
    a.Iterate? || a.Deliver? || a.HandlersDone? || a.FireTimer? || a.TimerDone? || a.LeaveTimers?
  }

  lemma FrameMovesOrPops(s: State, a: Action)
    requires Inv(s) && !Idle(s) && FrameAction(a) && FrameStep(s, a).Some?
    ensures var t := FrameStep(s, a).value;
            || (t == Pop(s) && (!Outstanding(s) || s.stop || s.forked))
            || (t.stack.Call? && t.stack.below == s.stack.below && SameBatch(s, t) && FrameOk(Top(t))
                && (Top(t).pc.Dispatch? ==> Top(t).pc == Top(s).pc) && DrainInv(t))
  {
  }

  lemma FrameKeepsInv(s: State, a: Action)
    requires Inv(s) && !Idle(s) && FrameAction(a) && FrameStep(s, a).Some?
    ensures Inv(FrameStep(s, a).value)
  {
    var t := FrameStep(s, a).value;
    FrameMovesOrPops(s, a);
    if t == Pop(s) && (!Outstanding(s) || s.stop || s.forked) {
      PopKeepsInv(s);
    } else {
      MoveKeepsInv(s, t, Top(t));
    }
  }

  lemma StepKeepsInv(s: State, a: Action)
    requires Inv(s) && Next(s, a).Some?
    ensures Inv(Next(s, a).value)
  {
    if a.EpollWait? || a.EpollFails? {
      WaitKeepsInv(s, a);
    } else if a.Claim? {
      ClaimKeepsInv(s);
    } else if a.Enter? {
      EnterKeepsInv(s, a.oneshot);
    } else if a.SetStop? || a.SetForked? || a.SetPhaseOut? {
      FlagKeepsInv(s, a);
    } else {
      FrameKeepsInv(s, a);
    }
  }

  lemma RunKeepsInv(slots: seq<Ready>, acts: seq<Action>)
    requires Runs.Play(Next, Init(slots), acts).Some?
    ensures Inv(Runs.Play(Next, Init(slots), acts).value)
  {
    forall s, a | Inv(s) && Next(s, a).Some? ensures Inv(Next(s, a).value) {
      StepKeepsInv(s, a);
    }
    Runs.Invariant(Next, Inv, Init(slots), acts);
  }

  // ------------------------------------------------------------------------------------------------

  /** In every run, however handlers nest, ready events are taken for dispatch in the order in which the
      waits returned them and none is taken twice. Once no frame is left, every event was taken, unless the
      loop was told to stop or closed after a fork. */
  lemma EachEventIsDispatchedOnceInOrder(slots: seq<Ready>, acts: seq<Action>)
    requires Runs.Play(Next, Init(slots), acts).Some?
    ensures var s := Runs.Play(Next, Init(slots), acts).value;
            && |s.claimed| <= s.issued
            && (forall k :: 0 <= k < |s.claimed| ==> s.claimed[k] == k)
            && (Idle(s) && !s.stop && !s.forked ==> |s.claimed| == s.issued)
  {
    RunKeepsInv(slots, acts);
  }

  /** Whenever a frame may call epoll_wait(), every event returned by earlier waits has been taken, so the
      wait overwrites none that is still outstanding; and a one-shot frame that may wait has not waited. */
  lemma WaitOverwritesNothing(slots: seq<Ready>, acts: seq<Action>, wait: Action)
    requires wait.EpollWait? || wait.EpollFails?
    requires Runs.Play(Next, Init(slots), acts).Some?
    requires Next(Runs.Play(Next, Init(slots), acts).value, wait).Some?
    ensures var s := Runs.Play(Next, Init(slots), acts).value;
            !Idle(s) && |s.claimed| == s.issued && (Top(s).oneshot ==> Top(s).waits == 0)
  {
    RunKeepsInv(slots, acts);
  }

  predicate OneShotsWaitedAtMostOnce(stack: Stack) {
    stack.Call? ==> (stack.top.oneshot ==> stack.top.waits <= 1) && OneShotsWaitedAtMostOnce(stack.below)
  }

  lemma {:induction false} StackOkBoundsWaits(s: State, stack: Stack)
    requires StackOk(s, stack)
    ensures OneShotsWaitedAtMostOnce(stack)
  {
    if stack.Call? { StackOkBoundsWaits(s, stack.below); }
  }

  /** No frame on the stack that was entered with onetime set has waited more than once. */
  lemma OneShotFramesWaitAtMostOnce(slots: seq<Ready>, acts: seq<Action>)
    requires Runs.Play(Next, Init(slots), acts).Some?
    ensures OneShotsWaitedAtMostOnce(Runs.Play(Next, Init(slots), acts).value.stack)
  {
    RunKeepsInv(slots, acts);
    var s := Runs.Play(Next, Init(slots), acts).value;
    StackOkBoundsWaits(s, s.stack);
  }

  /** A callback is shown the event it is called for if and only if no wait that a handler of the same event
      entered has written the slot again: the loop reads events[i] once per callback, not once per event. */
  lemma CallbackSeesItsEventIff(slots: seq<Ready>, acts: seq<Action>)
    requires Runs.Play(Next, Init(slots), acts).Some?
    requires Next(Runs.Play(Next, Init(slots), acts).value, Deliver).Some?
    ensures var s := Runs.Play(Next, Init(slots), acts).value;
            var t := Next(s, Deliver).value;
            && !Idle(s) && Top(s).pc.Dispatch? && |t.delivered| == |s.delivered| + 1
            && t.delivered[|s.delivered|].0 == Top(s).pc.own
            && (t.delivered[|s.delivered|].0 == t.delivered[|s.delivered|].1 <==> SlotUntouched(s, Top(s).pc))
  {
    RunKeepsInv(slots, acts);
  }

  // What a frame does next, and why it returns.

  predicate IsFrameAction(a: Action) {
    FrameAction(a) || a.Claim? || a.EpollWait? || a.EpollFails?
  }

  /** The reasons for a frame to return: the loop was stopped or closed, a wait failed or came back empty while
      the loop is phased out, or a one-shot frame has processed something or has waited. */
  predicate HasReason(s: State, a: Action)
    requires !Idle(s)
  {
    match a
    case LeaveTimers => s.stop || s.forked || (Top(s).oneshot && (Top(s).work > 0 || Top(s).waits > 0))
    case Claim => s.forked && !Outstanding(s)
    case HandlersDone => s.forked
    case EpollWait(ready) => s.stop || (ready == [] && s.phaseOut)
    case EpollFails => true
    case _ => false
  }

  /** In every run a frame returns if and only if it has a reason. */
  lemma FrameReturnsIff(slots: seq<Ready>, acts: seq<Action>, a: Action)
    requires Runs.Play(Next, Init(slots), acts).Some? && IsFrameAction(a)
    requires Next(Runs.Play(Next, Init(slots), acts).value, a).Some?
    ensures var s := Runs.Play(Next, Init(slots), acts).value;
            !Idle(s) && (Next(s, a).value.stack == s.stack.below <==> HasReason(s, a))
  {
    RunKeepsInv(slots, acts);
    ReturnsIff(Runs.Play(Next, Init(slots), acts).value, a);
  }

  lemma ReturnsIff(s: State, a: Action)
    requires Inv(s) && IsFrameAction(a) && !Idle(s) && FrameStep(s, a).Some?
    ensures var t := FrameStep(s, a).value;
            if HasReason(s, a) then t.stack == s.stack.below
            else t.stack.Call? && t.stack.below == s.stack.below && t.stack.top.oneshot == s.stack.top.oneshot
  {
  }

  /** What the phases of a frame are, in their order: between any two waits it takes all ready events, and then
      looks at its deadlines. */
  predicate Follows(s: State, a: Action, pc: Pc)
    requires !Idle(s)
  {
    match a
    case Iterate => pc.Drain?
    case Claim => if Outstanding(s) then pc.Dispatch? && pc.own.id == |s.claimed| else pc.Timers?
    case Deliver => pc == Top(s).pc
    case HandlersDone => pc.Drain?
    case FireTimer => pc.TimerCallback?
    case TimerDone => pc.Timers?
    case LeaveTimers => pc.Wait?
    case _ => pc.Head?
  }

  /** The innermost frame is in the phase of the action. */
  predicate InPhase(s: State, a: Action)
    requires !Idle(s)
  {
    match Top(s).pc
    case Head => a.Iterate?
    case Drain => a.Claim?
    case Dispatch(_, _, _) => a.Deliver? || a.HandlersDone?
    case Timers => a.LeaveTimers? || (a.FireTimer? && !s.forked)
    case TimerCallback => a.TimerDone?
    case Wait => a.EpollFails? || (a.EpollWait? && |a.ready| <= |s.events|)
  }

  /** In every run the innermost frame is never held up: what it can do depends on its phase only, except that
      no deadline fires after a fork; and it goes on to the next phase unless it has a reason to return. */
  lemma FramesGoOn(slots: seq<Ready>, acts: seq<Action>, a: Action)
    requires Runs.Play(Next, Init(slots), acts).Some? && IsFrameAction(a)
    ensures var s := Runs.Play(Next, Init(slots), acts).value;
            && (Next(s, a).Some? <==> !Idle(s) && InPhase(s, a))
            && (Next(s, a).Some? && !HasReason(s, a) ==>
                  var t := Next(s, a).value; !Idle(t) && Follows(s, a, Top(t).pc))
  {
    RunKeepsInv(slots, acts);
    var s := Runs.Play(Next, Init(slots), acts).value;
    if !Idle(s) { Enabled(s, a); }
    if Next(s, a).Some? && !HasReason(s, a) { GoesOn(s, a); }
  }

  lemma Enabled(s: State, a: Action)
    requires Inv(s) && !Idle(s) && IsFrameAction(a)
    ensures FrameStep(s, a).Some? <==> InPhase(s, a)
  {
  }

  lemma GoesOn(s: State, a: Action)
    requires Inv(s) && IsFrameAction(a) && !Idle(s) && FrameStep(s, a).Some? && !HasReason(s, a)
    ensures var t := FrameStep(s, a).value; !Idle(t) && Follows(s, a, Top(t).pc)
  {
  }

  /** Where the innermost frame stands after it finished what it is at and looked for more. */
  function AfterPass(s: State): Option<State>
    requires !Idle(s)
  {
    match Top(s).pc
    case TimerCallback => Runs.Play(Next, s, [TimerDone, LeaveTimers])
    case Dispatch(_, _, _) => Runs.Play(Next, s, [HandlersDone, Claim, LeaveTimers])
    case Head => Runs.Play(Next, s, [Iterate, Claim, LeaveTimers])
    case _ => None
  }

  /** While nothing disturbs the loop and no event is outstanding, a one-shot frame returns at the end of its pass
      if it ran a timeout callback or an event handler in it, or has waited before; otherwise it waits. Other
      frames wait in any case. */
  lemma OneShotReturnsAfterWork(slots: seq<Ready>, acts: seq<Action>)
    requires Runs.Play(Next, Init(slots), acts).Some?
    requires var s := Runs.Play(Next, Init(slots), acts).value;
             && !Idle(s) && !s.stop && !s.forked && !s.phaseOut && !Outstanding(s)
             && (Top(s).pc.TimerCallback? || Top(s).pc.Dispatch? || Top(s).pc.Head?)
    ensures var s := Runs.Play(Next, Init(slots), acts).value;
            var t := AfterPass(s);
            && t.Some?
            && if Top(s).oneshot && (!Top(s).pc.Head? || Top(s).waits > 0) then t.value.stack == s.stack.below
               else !Idle(t.value) && t.value.stack.below == s.stack.below && Top(t.value).pc.Wait?
  {
    RunKeepsInv(slots, acts);
    PassEnds(Runs.Play(Next, Init(slots), acts).value);
  }

  lemma PassEnds(s: State)
    requires Inv(s) && !Idle(s) && !s.stop && !s.forked && !s.phaseOut && !Outstanding(s)
    requires Top(s).pc.TimerCallback? || Top(s).pc.Dispatch? || Top(s).pc.Head?
    ensures var t := AfterPass(s);
            && t.Some?
            && if Top(s).oneshot && (!Top(s).pc.Head? || Top(s).waits > 0) then t.value.stack == s.stack.below
               else !Idle(t.value) && t.value.stack.below == s.stack.below && Top(t.value).pc.Wait?
  {
    match Top(s).pc {
      case TimerCallback => Runs.Double(Next, s, TimerDone, LeaveTimers);
      case Dispatch(_, _, _) => Runs.Triple(Next, s, HandlersDone, Claim, LeaveTimers);
      case Head => Runs.Triple(Next, s, Iterate, Claim, LeaveTimers);
    }
  }

  /** User code can always enter the loop; a frame is pushed unless the loop is stopped, closed or phased out. */
  lemma EnteringPushesUnless(slots: seq<Ready>, acts: seq<Action>, oneshot: bool)
    requires Runs.Play(Next, Init(slots), acts).Some?
    ensures var s := Runs.Play(Next, Init(slots), acts).value;
            && (Next(s, Enter(oneshot)).Some? <==> UserCodeRuns(s))
            && (UserCodeRuns(s) ==>
                  var t := Next(s, Enter(oneshot)).value;
                  if s.stop || s.forked || s.phaseOut then t == s
                  else t.stack.Call? && t.stack.below == s.stack && Top(t).pc.Head? && Top(t).oneshot == oneshot)
  {
  }

  /** Stopping, closing and phasing out take effect at any time, once and for all, and change nothing else. */
  lemma FlagsStay(s: State, a: Action)
    ensures forall t :: Next(s, a) == Some(t) ==>
              && (t.stop <==> s.stop || a.SetStop?)
              && (t.forked <==> s.forked || a.SetForked?)
              && (t.phaseOut <==> s.phaseOut || a.SetPhaseOut?)
    ensures a.SetStop? || a.SetForked? || a.SetPhaseOut? ==>
              Next(s, a).Some? && Next(s, a).value.(stop := s.stop, forked := s.forked, phaseOut := s.phaseOut) == s
  {
  }

  predicate Disturbs(a: Action) {
    a.SetStop? || a.SetForked? || a.SetPhaseOut? || a.EpollFails?
  }

  /** The outermost frame was not entered with onetime set. */
  predicate RunsForever(stack: Stack) {
    stack.Call? && if stack.below.Empty? then !stack.top.oneshot else RunsForever(stack.below)
  }

  ghost predicate Undisturbed(s: State) {
    Inv(s) && !s.stop && !s.forked && !s.phaseOut && RunsForever(s.stack)
  }

  lemma StaysUndisturbed(s: State, a: Action)
    requires Undisturbed(s) && !Disturbs(a) && Next(s, a).Some?
    ensures Undisturbed(Next(s, a).value)
  {
    StepKeepsInv(s, a);
    if IsFrameAction(a) { ReturnsIff(s, a); }
  }

  lemma {:induction false} UndisturbedRun(s: State, acts: seq<Action>)
    requires Undisturbed(s) && Runs.Play(Next, s, acts).Some? && forall k :: 0 <= k < |acts| ==> !Disturbs(acts[k])
    ensures Undisturbed(Runs.Play(Next, s, acts).value)
    decreases |acts|
  {
    if acts != [] {
      StaysUndisturbed(s, acts[0]);
      UndisturbedRun(Next(s, acts[0]).value, acts[1..]);
    }
  }

  /** The loop ends only for a reason: once crtx_loop() was called it does not return in any run in which the
      loop is not stopped, closed after a fork or phased out and no wait fails. */
  lemma LoopEndsOnlyForAReason(slots: seq<Ready>, acts: seq<Action>)
    requires forall k :: 0 <= k < |acts| ==> !Disturbs(acts[k])
    requires Runs.Play(Next, Init(slots), [Enter(false)] + acts).Some?
    ensures !Idle(Runs.Play(Next, Init(slots), [Enter(false)] + acts).value)
  {
    assert ([Enter(false)] + acts)[1..] == acts;
    UndisturbedRun(Next(Init(slots), Enter(false)).value, acts);
  }

  // A run that makes the condition fail, in four pieces.

  const FIRST_WAIT := [Enter(false), Iterate, Claim, LeaveTimers, EpollWait([1])]
  const FIRST_CALLBACK := [Iterate, Claim, Deliver]
  const NESTED_WAIT := [Enter(true), Iterate, Claim, LeaveTimers, EpollWait([8])]
  const BACK_IN_OUTER_FRAME := [Iterate, Claim, HandlersDone, Claim, LeaveTimers, Deliver]

  const IN_HANDLER := Call(Frame(false, 1, true, 1, 1, Dispatch(0, Ready(0, 1), 1)), Empty)

  const WAITED :=
    State(0, 1, [Ready(0, 1)], false, false, false, Call(Frame(false, 1, false, 1, 0, Head), Empty),
          1, [1], [], [])
  const CALLED_BACK :=
    State(1, 1, [Ready(0, 1)], false, false, false, IN_HANDLER,
          1, [1], [0], [(Ready(0, 1), Ready(0, 1))])
  const NESTED_WAITED :=
    State(0, 1, [Ready(1, 8)], false, false, false, Call(Frame(true, 1, false, 1, 0, Head), IN_HANDLER),
          2, [1, 1], [0], [(Ready(0, 1), Ready(0, 1))])

  lemma FirstWait()
    ensures Runs.Play(Next, Init([Ready(0, 0)]), FIRST_WAIT) == Some(WAITED)
  {
    var s1 := State(0, 0, [Ready(0, 0)], false, false, false, Call(Frame(false, 1, false, 0, 0, Head), Empty),
          0, [], [], []);
    assert Next(Init([Ready(0, 0)]), FIRST_WAIT[0]) == Some(s1);
    var s2 := State(0, 0, [Ready(0, 0)], false, false, false, Call(Frame(false, 1, false, 0, 0, Drain), Empty),
          0, [], [], []);
    assert Next(s1, FIRST_WAIT[1]) == Some(s2);
    var s3 := State(0, 0, [Ready(0, 0)], false, false, false, Call(Frame(false, 1, false, 0, 0, Timers), Empty),
          0, [], [], []);
    assert Next(s2, FIRST_WAIT[2]) == Some(s3);
    var s4 := State(0, 0, [Ready(0, 0)], false, false, false, Call(Frame(false, 1, false, 0, 0, Wait), Empty),
          0, [], [], []);
    assert Next(s3, FIRST_WAIT[3]) == Some(s4);
    assert Overwrite(s4.events, [1], 0) == WAITED.events;
    assert s4.batches + [1] == WAITED.batches;
    assert Next(s4, FIRST_WAIT[4]) == Some(WAITED);
    Runs.Along(Next, [Init([Ready(0, 0)]), s1, s2, s3, s4, WAITED], FIRST_WAIT);
  }

  lemma FirstCallback()
    ensures Runs.Play(Next, WAITED, FIRST_CALLBACK) == Some(CALLED_BACK)
  {
    var s6 := State(0, 1, [Ready(0, 1)], false, false, false, Call(Frame(false, 1, true, 1, 0, Drain), Empty),
          1, [1], [], []);
    assert Next(WAITED, FIRST_CALLBACK[0]) == Some(s6);
    var s7 := State(1, 1, [Ready(0, 1)], false, false, false, IN_HANDLER,
          1, [1], [0], []);
    assert s6.claimed + [0] == s7.claimed;
    assert Next(s6, FIRST_CALLBACK[1]) == Some(s7);
    assert s7.delivered + [(Ready(0, 1), Ready(0, 1))] == CALLED_BACK.delivered;
    assert Next(s7, FIRST_CALLBACK[2]) == Some(CALLED_BACK);
    Runs.Along(Next, [WAITED, s6, s7, CALLED_BACK], FIRST_CALLBACK);
  }

  lemma NestedWait()
    ensures Runs.Play(Next, CALLED_BACK, NESTED_WAIT) == Some(NESTED_WAITED)
  {
    var s9 := State(1, 1, [Ready(0, 1)], false, false, false, Call(Frame(true, 2, false, 0, 0, Head), IN_HANDLER),
          1, [1], [0], [(Ready(0, 1), Ready(0, 1))]);
    assert Next(CALLED_BACK, NESTED_WAIT[0]) == Some(s9);
    var s10 := State(1, 1, [Ready(0, 1)], false, false, false, Call(Frame(true, 2, false, 0, 0, Drain), IN_HANDLER),
          1, [1], [0], [(Ready(0, 1), Ready(0, 1))]);
    assert Next(s9, NESTED_WAIT[1]) == Some(s10);
    var s11 := State(1, 1, [Ready(0, 1)], false, false, false, Call(Frame(true, 2, false, 0, 0, Timers), IN_HANDLER),
          1, [1], [0], [(Ready(0, 1), Ready(0, 1))]);
    assert Next(s10, NESTED_WAIT[2]) == Some(s11);
    var s12 := State(1, 1, [Ready(0, 1)], false, false, false, Call(Frame(true, 2, false, 0, 0, Wait), IN_HANDLER),
          1, [1], [0], [(Ready(0, 1), Ready(0, 1))]);
    assert Next(s11, NESTED_WAIT[3]) == Some(s12);
    assert Overwrite(s12.events, [8], 1) == NESTED_WAITED.events;
    assert s12.batches + [1] == NESTED_WAITED.batches;
    assert Next(s12, NESTED_WAIT[4]) == Some(NESTED_WAITED);
    Runs.Along(Next, [CALLED_BACK, s9, s10, s11, s12, NESTED_WAITED], NESTED_WAIT);
  }

  lemma BackInOuterFrame()
    ensures Runs.Play(Next, NESTED_WAITED, BACK_IN_OUTER_FRAME) == Some(
              State(1, 1, [Ready(1, 8)], false, false, false, IN_HANDLER,
                    2, [1, 1], [0, 1], [(Ready(0, 1), Ready(0, 1)), (Ready(0, 1), Ready(1, 8))]))
  {
    var s14 := State(0, 1, [Ready(1, 8)], false, false, false, Call(Frame(true, 1, true, 1, 0, Drain), IN_HANDLER),
          2, [1, 1], [0], [(Ready(0, 1), Ready(0, 1))]);
    assert Next(NESTED_WAITED, BACK_IN_OUTER_FRAME[0]) == Some(s14);
    var s15 := State(1, 1, [Ready(1, 8)], false, false, false,
          Call(Frame(true, 1, true, 1, 1, Dispatch(0, Ready(1, 8), 2)), IN_HANDLER),
          2, [1, 1], [0, 1], [(Ready(0, 1), Ready(0, 1))]);
    assert s14.claimed + [1] == s15.claimed;
    assert Next(s14, BACK_IN_OUTER_FRAME[1]) == Some(s15);
    var s16 := State(1, 1, [Ready(1, 8)], false, false, false, Call(Frame(true, 1, true, 1, 1, Drain), IN_HANDLER),
          2, [1, 1], [0, 1], [(Ready(0, 1), Ready(0, 1))]);
    assert Next(s15, BACK_IN_OUTER_FRAME[2]) == Some(s16);
    var s17 := State(1, 1, [Ready(1, 8)], false, false, false, Call(Frame(true, 1, true, 1, 1, Timers), IN_HANDLER),
          2, [1, 1], [0, 1], [(Ready(0, 1), Ready(0, 1))]);
    assert Next(s16, BACK_IN_OUTER_FRAME[3]) == Some(s17);
    var s18 := State(1, 1, [Ready(1, 8)], false, false, false, IN_HANDLER,
          2, [1, 1], [0, 1], [(Ready(0, 1), Ready(0, 1))]);
    assert Next(s17, BACK_IN_OUTER_FRAME[4]) == Some(s18);
    var s19 := State(1, 1, [Ready(1, 8)], false, false, false, IN_HANDLER,
          2, [1, 1], [0, 1], [(Ready(0, 1), Ready(0, 1)), (Ready(0, 1), Ready(1, 8))]);
    assert s18.delivered + [(Ready(0, 1), Ready(1, 8))] == s19.delivered;
    assert Next(s18, BACK_IN_OUTER_FRAME[5]) == Some(s19);
    Runs.Along(Next, [NESTED_WAITED, s14, s15, s16, s17, s18, s19], BACK_IN_OUTER_FRAME);
  }

  /** Two callbacks on one descriptor, the first of which runs the loop once: the second callback is shown
      the event of the nested wait in place of its own. */
  lemma SecondCallbackSeesForeignEvent()
    ensures var run := Runs.Play(Next, Init([Ready(0, 0)]),
                                 FIRST_WAIT + (FIRST_CALLBACK + (NESTED_WAIT + BACK_IN_OUTER_FRAME)));
            run.Some? && run.value.delivered == [(Ready(0, 1), Ready(0, 1)), (Ready(0, 1), Ready(1, 8))]
  {
    FirstWait();
    FirstCallback();
    NestedWait();
    BackInOuterFrame();
    Runs.Cut(Next, Init([Ready(0, 0)]), FIRST_WAIT, FIRST_CALLBACK + (NESTED_WAIT + BACK_IN_OUTER_FRAME));
    Runs.Cut(Next, WAITED, FIRST_CALLBACK, NESTED_WAIT + BACK_IN_OUTER_FRAME);
    Runs.Cut(Next, CALLED_BACK, NESTED_WAIT, BACK_IN_OUTER_FRAME);
  }
}
