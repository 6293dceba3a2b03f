/** Delayed destruction of a listener (src/core.c) that owns its graph and is used on the loop thread only.

    User code may run inside crtx_process_one_event() (a task of the graph) and inside
    crtx_shutdown_listener() (the shutdown callback, between its first and its last part); from there it may
    process further events of the graph or ask for a shutdown again. An explicit stack records this. */
module ListenerShutdown {
  import opened Wrappers
  import opened Sequences
  import Runs
  import Q = GraphQueue

  type Entry = Q.Entry
  type Lists = Q.Lists
  type Event = Q.Event

  datatype ListenerState = Unknown | Starting | Started | Paused | Stopping | Stopped | ShuttingDown | Shutdown

  /** Activations that are not finished: an event being processed, or a shutdown in its callbacks. */
  datatype Stack = Idle | Processing(entry: Entry, below: Stack) | Destroying(below: Stack)

  datatype State = State(
    lstnr: ListenerState,
    graph: bool,              // listener->graph is set and not freed
    lists: Lists,
    stack: Stack,
    accepted: nat,
    destroyed: nat,           // how often shutdown_listener_intern() ran
    destroyedEmpty: bool      // each time, both lists were empty
  )

  datatype Action =
    | Start
    | AddEvent(event: Event)
    | Invalidate(event: Event)
    | Process                 // crtx_process_one_event() up to the first task
    | Finish                  // the tasks are done: the event is retired
    | RequestShutdown(stops: bool)  // stops: crtx_stop_listener() is not refused by a dependent listener
    | FinishShutdown          // the shutdown callback is done

  const NEW_LISTENER := State(Stopped, true, Q.Lists([], [], {}), Idle, 0, 0, true)

  /** shutdown_listener_intern(). */
  function Destroy(s: State): State {
    s.(graph := false, destroyed := s.destroyed + 1, destroyedEmpty := s.destroyedEmpty && Q.Empty(s.lists))
  }

  /** crtx_stop_listener(). */
  function Stop(l: ListenerState, stops: bool): ListenerState {
    if l.Stopped? || l.ShuttingDown? || l.Shutdown? then l else if stops then Stopped else Stopping
  }

  /** crtx_shutdown_listener() up to the shutdown callback. */
  function BeginShutdown(s: State, stops: bool): State {
    var t := s.(lstnr := Stop(s.lstnr, stops));
    match t.lstnr
    case Stopped => t.(lstnr := ShuttingDown, stack := Destroying(t.stack))
    case Shutdown => if t.graph && Q.Empty(t.lists) then Destroy(t) else t
    case _ => t
  }

  /** The end of crtx_process_one_event(). */
  function Retired(s: State, entry: Entry): State {
    var k := IndexOf(s.lists.claimed, entry);
    var t := if k < |s.lists.claimed| then s.(lists := s.lists.(claimed := Removed(s.lists.claimed, k))) else s;
    if Q.Empty(t.lists) && t.lstnr.Shutdown? then Destroy(t) else t
  }

  function IndexOf(q: seq<Entry>, e: Entry): (k: nat)
    ensures k <= |q|
    ensures k < |q| ==> q[k] == e
    ensures k == |q| ==> e !in q
  {
    if q == [] || q[0] == e then 0 else 1 + IndexOf(q[1..], e)
  }

  function Next(s: State, a: Action): Option<State> {
    match a
    case Start =>
      if s.lstnr.ShuttingDown? || s.lstnr.Shutdown? then None else Some(s.(lstnr := Started))
    case AddEvent(event) =>
      if !s.graph then None
      else
        Some(s.(lists := s.lists.(equeue := s.lists.equeue + [Q.Entry(s.accepted, event)]), accepted := s.accepted + 1))
    case Invalidate(event) => Some(s.(lists := s.lists.(errors := s.lists.errors + {event})))
    case Process =>
      if !s.graph then None
      else
        (match Q.Claim(s.lists)
         case None => None
         case Some(after) =>
           Some(s.(lists := after, stack := Processing(after.claimed[|s.lists.claimed|], s.stack))))
    case Finish =>
      if s.stack.Processing? then Some(Retired(s.(stack := s.stack.below), s.stack.entry)) else None
    case RequestShutdown(stops) => Some(BeginShutdown(s, stops))
    case FinishShutdown =>
      if !s.stack.Destroying? then None
      else
        var t := s.(stack := s.stack.below);
        if t.graph && !Q.Empty(t.lists) then Some(t.(lstnr := Shutdown)) else Some(Destroy(t))
  }

  // ------------------------------------------------------------------------------------------------

  /** The events being processed, in the order in which they were claimed. */
  function Active(stack: Stack): seq<Entry> {
    match stack
    case Idle => []
    case Processing(e, below) => Active(below) + [e]
    case Destroying(below) => Active(below)
  }

  function Shutdowns(stack: Stack): nat {
    match stack
    case Idle => 0
    case Processing(_, below) => Shutdowns(below)
    case Destroying(below) => 1 + Shutdowns(below)
  }

  ghost predicate Fresh(s: State) {
    && (forall e :: e in s.lists.equeue ==> e.id < s.accepted)
    && (forall e :: e in s.lists.claimed ==> e.id < s.accepted)
    && (forall i, j :: 0 <= i < j < |s.lists.equeue| ==> s.lists.equeue[i].id < s.lists.equeue[j].id)
    && (forall i, j :: 0 <= i < j < |s.lists.claimed| ==> s.lists.claimed[i] != s.lists.claimed[j])
    && (forall e :: e in s.lists.equeue ==> e !in s.lists.claimed)
  }

  ghost predicate Inv(s: State) {
    && Fresh(s)
    && s.lists.claimed == Active(s.stack)
    && s.destroyed == (if s.graph then 0 else 1)
    && s.destroyedEmpty
    && (!s.graph ==> Q.Empty(s.lists) && (s.lstnr.ShuttingDown? || s.lstnr.Shutdown?))
    && (s.graph && s.lstnr.Shutdown? ==> !Q.Empty(s.lists))
    && Shutdowns(s.stack) == (if s.graph && s.lstnr.ShuttingDown? then 1 else 0)
  }

  lemma ClaimKeepsFresh(s: State, k: nat)
    requires Fresh(s) && k < |s.lists.equeue|
    ensures var q, c := s.lists.equeue, s.lists.claimed;
            Fresh(s.(lists := s.lists.(equeue := Removed(q, k), claimed := c + [q[k]])))
  {
    var q, c := s.lists.equeue, s.lists.claimed;
    RemovedMembers(q, k);
    assert q[k] in q;
    forall i, j | 0 <= i < j < |c + [q[k]]| ensures (c + [q[k]])[i] != (c + [q[k]])[j] {
      assert c[i] in c && c[i] != q[k];
    }
  }

  lemma RemovedMembers(q: seq<Entry>, k: nat)
    requires k < |q| && forall i, j :: 0 <= i < j < |q| ==> q[i].id < q[j].id
    ensures forall i :: 0 <= i < |q| - 1 ==> Removed(q, k)[i] == q[if i < k then i else i + 1]
    ensures forall e :: e in Removed(q, k) ==> e in q && e != q[k]
  {
    var r := Removed(q, k);
    forall e | e in r ensures e in q && e != q[k] {
      var i :| 0 <= i < |r| && r[i] == e;
      assert r[i] == q[if i < k then i else i + 1];
    }
  }

  lemma ProcessKeepsInv(s: State)
    requires Inv(s) && Next(s, Process).Some?
    ensures Inv(Next(s, Process).value)
  {
    ClaimKeepsFresh(s, Q.FirstValid(s.lists.equeue, s.lists.errors));
  }

  lemma LastOneIsRetired(s: State, below: seq<Entry>, e: Entry)
    requires Fresh(s) && s.lists.claimed == below + [e]
    ensures IndexOf(s.lists.claimed, e) == |below| < |s.lists.claimed| && Removed(s.lists.claimed, |below|) == below
  {
    assert s.lists.claimed[|below|] == e;
  }

  lemma RetiredKeepsFresh(s: State, below: seq<Entry>, e: Entry)
    requires Fresh(s) && s.lists.claimed == below + [e]
    ensures Fresh(s.(lists := s.lists.(claimed := below)))
  {
    assert forall i :: 0 <= i < |below| ==> below[i] == s.lists.claimed[i];
  }

  function DestroyIfDrained(t: State): State {
    if Q.Empty(t.lists) && t.lstnr.Shutdown? then Destroy(t) else t
  }

  lemma RetiredIs(s: State, e: Entry, below: seq<Entry>)
    requires IndexOf(s.lists.claimed, e) == |below| < |s.lists.claimed|
    requires Removed(s.lists.claimed, |below|) == below
    ensures Retired(s, e) == DestroyIfDrained(s.(lists := s.lists.(claimed := below)))
  {
  }

  lemma DestroyKeepsInv(t: State)
    requires Fresh(t) && t.lists.claimed == Active(t.stack) && t.graph && t.destroyed == 0 && t.destroyedEmpty
    requires Shutdowns(t.stack) == if t.lstnr.ShuttingDown? then 1 else 0
    ensures Inv(DestroyIfDrained(t))
  {
  }

  lemma FinishKeepsInv(s: State)
    requires Inv(s) && Next(s, Finish).Some?
    ensures Inv(Next(s, Finish).value)
  {
    var below, t := Active(s.stack.below), s.(stack := s.stack.below);
    LastOneIsRetired(s, below, s.stack.entry);
    RetiredKeepsFresh(s, below, s.stack.entry);
    RetiredIs(t, s.stack.entry, below);
    assert s.lists.claimed != [];
    DestroyKeepsInv(t.(lists := t.lists.(claimed := below)));
  }

  lemma AddKeepsInv(s: State, event: Event)
    requires Inv(s) && s.graph
    ensures Inv(Next(s, AddEvent(event)).value)
  {
    assert forall e :: e in s.lists.equeue + [Q.Entry(s.accepted, event)] ==>
        e in s.lists.equeue || e == Q.Entry(s.accepted, event);
  }

  lemma RequestKeepsInv(s: State, stops: bool)
    requires Inv(s)
    ensures Inv(BeginShutdown(s, stops))
  {
  }

  lemma StepKeepsInv(s: State, a: Action)
    requires Inv(s) && Next(s, a).Some?
    ensures Inv(Next(s, a).value)
  {
    match a {
      case Process => ProcessKeepsInv(s);
      case Finish => FinishKeepsInv(s);
      case AddEvent(event) => AddKeepsInv(s, event);
      case RequestShutdown(stops) => RequestKeepsInv(s, stops);
      case _ =>
    }
  }

  lemma RunKeepsInv(acts: seq<Action>)
    requires Runs.Play(Next, NEW_LISTENER, acts).Some?
    ensures Inv(Runs.Play(Next, NEW_LISTENER, acts).value)
  {
    forall s, a | Inv(s) && Next(s, a).Some? ensures Inv(Next(s, a).value) {
      StepKeepsInv(s, a);
    }
    Runs.Invariant(Next, Inv, NEW_LISTENER, acts);
  }

  // ------------------------------------------------------------------------------------------------

  /** In every run the listener is destroyed at most once, and only while both lists are empty. */
  lemma DestroyedAtMostOnceAndEmpty(acts: seq<Action>)
    requires Runs.Play(Next, NEW_LISTENER, acts).Some?
    ensures var s := Runs.Play(Next, NEW_LISTENER, acts).value;
            s.destroyed <= 1 && s.destroyedEmpty
  {
    RunKeepsInv(acts);
  }

  /** Once a shutdown was delayed, the listener is destroyed exactly when no event is pending any more: the
      step that retires the last event destroys it, and no other step leaves it waiting. A shutdown that was
      not delayed is either still in its callbacks or has destroyed it. */
  lemma DelayedShutdownCompletes(acts: seq<Action>)
    requires Runs.Play(Next, NEW_LISTENER, acts).Some?
    ensures var s := Runs.Play(Next, NEW_LISTENER, acts).value;
            && (s.lstnr.Shutdown? ==> (s.destroyed == 1 <==> Q.Empty(s.lists)))
            && (s.lstnr.ShuttingDown? ==> (s.destroyed == 1 <==> Shutdowns(s.stack) == 0))
            && (!s.lstnr.Shutdown? && !s.lstnr.ShuttingDown? ==> s.destroyed == 0)
  {
    RunKeepsInv(acts);
  }

  /** The branch of crtx_shutdown_listener() that destroys an already shut down listener with empty lists is
      never taken: a repeated request changes nothing. */
  lemma RepeatedRequestIsIgnored(acts: seq<Action>, stops: bool)
    requires Runs.Play(Next, NEW_LISTENER, acts).Some?
    requires var l := Runs.Play(Next, NEW_LISTENER, acts).value.lstnr; l.Shutdown? || l.ShuttingDown?
    ensures var s := Runs.Play(Next, NEW_LISTENER, acts).value;
            Next(s, RequestShutdown(stops)) == Some(s)
  {
    RunKeepsInv(acts);
  }

  ghost predicate Stuck(s: State, e: Entry) {
    e in s.lists.equeue && e.event in s.lists.errors && s.graph && s.destroyed == 0
  }

  lemma StepKeepsStuck(s: State, a: Action, e: Entry)
    requires Stuck(s, e) && Next(s, a).Some?
    ensures Stuck(Next(s, a).value, e)
  {
    var t := Next(s, a).value;
    if a.Process? {
      var q, k := s.lists.equeue, Q.FirstValid(s.lists.equeue, s.lists.errors);
      var i :| 0 <= i < |q| && q[i] == e;
      assert t.lists.equeue[if i < k then i else i - 1] == e;
    } else if a.AddEvent? {
      assert e in t.lists.equeue;
    }
  }

  lemma StuckForEver(s: State, e: Entry, after: seq<Action>)
    requires Inv(s) && e in s.lists.equeue && e.event in s.lists.errors
    requires Runs.Play(Next, s, after).Some?
    ensures Runs.Play(Next, s, after).value.destroyed == 0
  {
    assert !Q.Empty(s.lists);
    var stuck := (t: State) => Stuck(t, e);
    forall t, a | stuck(t) && Next(t, a).Some? ensures stuck(Next(t, a).value) {
      StepKeepsStuck(t, a, e);
    }
    Runs.Invariant(Next, stuck, s, after);
  }

  /** An invalidated event that is still queued is never claimed, so that a listener whose queue holds one is
      never destroyed, whatever follows. */
  lemma InvalidatedEventBlocksDestruction(before: seq<Action>, after: seq<Action>, e: Entry)
    requires Runs.Play(Next, NEW_LISTENER, before + after).Some?
    requires Runs.Play(Next, NEW_LISTENER, before).Some?
    requires var s := Runs.Play(Next, NEW_LISTENER, before).value; e in s.lists.equeue && e.event in s.lists.errors
    ensures Runs.Play(Next, NEW_LISTENER, before + after).value.destroyed == 0
  {
    RunKeepsInv(before);
    Runs.Cut(Next, NEW_LISTENER, before, after);
    StuckForEver(Runs.Play(Next, NEW_LISTENER, before).value, e, after);
  }

  ghost predicate AllValid(s: State) {
    forall e :: e in s.lists.equeue ==> e.event !in s.lists.errors
  }

  /** What finishing the innermost event does while a shutdown is delayed. */
  lemma FinishWhileDelayed(s: State)
    requires Inv(s) && s.lstnr.Shutdown? && s.stack.Processing? && AllValid(s)
    ensures Next(s, Finish).Some?
    ensures var t := Next(s, Finish).value;
            && Inv(t) && t.lstnr.Shutdown? && AllValid(t)
            && t.lists.equeue == s.lists.equeue && |t.lists.claimed| < |s.lists.claimed|
  {
    var e, below := s.stack.entry, Active(s.stack.below);
    FinishKeepsInv(s);
    LastOneIsRetired(s, below, e);
    RetiredIs(s.(stack := s.stack.below), e, below);
  }

  /** What claiming the next event does then. */
  lemma ProcessWhileDelayed(s: State)
    requires Inv(s) && s.lstnr.Shutdown? && s.graph && s.lists.equeue != [] && AllValid(s)
    ensures Next(s, Process).Some?
    ensures var t := Next(s, Process).value;
            Inv(t) && t.lstnr.Shutdown? && AllValid(t) && |t.lists.equeue| < |s.lists.equeue|
  {
    var q := s.lists.equeue;
    assert q[0] in q;
    assert Q.FirstValid(q, s.lists.errors) == 0;
    ProcessKeepsInv(s);
    RemovedMembers(q, 0);
  }

  /** The run that retires what is pending. */
  lemma {:induction false} DrainingRun(s: State) returns (acts: seq<Action>)
    requires Inv(s) && s.lstnr.Shutdown? && AllValid(s)
    ensures Runs.Play(Next, s, acts).Some? && Runs.Play(Next, s, acts).value.destroyed == 1
    decreases |s.lists.equeue|, |s.lists.claimed|
  {
    if !s.graph {
      acts := [];
    } else {
      var first := if s.stack.Processing? then Finish else Process;
      if s.stack.Processing? {
        FinishWhileDelayed(s);
      } else {
        assert s.stack == Idle && s.lists.claimed == [];
        ProcessWhileDelayed(s);
      }
      var rest := DrainingRun(Next(s, first).value);
      acts := [first] + rest;
      assert acts[1..] == rest;
    }
  }

  /** The exact condition: a delayed shutdown can still be completed if and only if no queued event was
      invalidated. */
  lemma DelayedShutdownCanCompleteIff(acts: seq<Action>)
    requires Runs.Play(Next, NEW_LISTENER, acts).Some?
    requires Runs.Play(Next, NEW_LISTENER, acts).value.lstnr.Shutdown?
    ensures var s := Runs.Play(Next, NEW_LISTENER, acts).value;
            (exists more :: Destroys(s, more)) <==> AllValid(s)
  {
    RunKeepsInv(acts);
    var s := Runs.Play(Next, NEW_LISTENER, acts).value;
    if AllValid(s) {
      var more := DrainingRun(s);
      assert Destroys(s, more);
    } else {
      var e :| e in s.lists.equeue && e.event in s.lists.errors;
      forall more ensures !Destroys(s, more) {
        if Runs.Play(Next, s, more).Some? { StuckForEver(s, e, more); }
      }
    }
  }

  /** The run destroys the listener. */
  ghost predicate Destroys(s: State, more: seq<Action>) {
    Runs.Play(Next, s, more).Some? && Runs.Play(Next, s, more).value.destroyed == 1
  }

  // ------------------------------------------------------------------------------------------ progress

  /** A request for a shutdown of a listener that may stop, in whatever state of activity, is carried out: once the
      shutdown callback is done the listener is destroyed if nothing is pending, and waits otherwise. */
  lemma RequestIsCarriedOut(acts: seq<Action>)
    requires Runs.Play(Next, NEW_LISTENER, acts).Some?
    requires var l := Runs.Play(Next, NEW_LISTENER, acts).value.lstnr; !l.ShuttingDown? && !l.Shutdown?
    ensures var s := Runs.Play(Next, NEW_LISTENER, acts).value;
            var t := Runs.Play(Next, s, [RequestShutdown(true), FinishShutdown]);
            && t.Some?
            && (t.value.destroyed == 1 <==> s.lists.equeue == [] && s.lists.claimed == [])
            && (t.value.destroyed != 1 ==> t.value.lstnr.Shutdown?)
  {
    RunKeepsInv(acts);
    var s := Runs.Play(Next, NEW_LISTENER, acts).value;
    Runs.Double(Next, s, RequestShutdown(true), FinishShutdown);
  }

  /** A request that the dependent listeners refuse leaves the listener stopping and everything else as it was;
      a stopped listener is not asked. */
  lemma RefusedRequestOnlyStops(acts: seq<Action>)
    requires Runs.Play(Next, NEW_LISTENER, acts).Some?
    requires var l := Runs.Play(Next, NEW_LISTENER, acts).value.lstnr;
             l in {Unknown, Starting, Started, Paused, Stopping}
    ensures var s := Runs.Play(Next, NEW_LISTENER, acts).value;
            Next(s, RequestShutdown(false)) == Some(s.(lstnr := Stopping))
  {
  }

  /** Until it is destroyed a listener takes events, and its next valid event can be processed at any time and
      retired when its tasks are done; it can be started unless a shutdown was requested. */
  lemma EventsAreProcessed(acts: seq<Action>, event: Event)
    requires Runs.Play(Next, NEW_LISTENER, acts).Some?
    ensures var s := Runs.Play(Next, NEW_LISTENER, acts).value;
            && (Next(s, AddEvent(event)).Some? <==> s.destroyed == 0)
            && (Next(s, Process).Some? <==> exists e :: e in s.lists.equeue && e.event !in s.lists.errors)
            && (Next(s, Finish).Some? <==> s.stack.Processing?)
            && (Next(s, FinishShutdown).Some? <==> s.stack.Destroying?)
            && (Next(s, Start).Some? <==> !s.lstnr.ShuttingDown? && !s.lstnr.Shutdown?)
  {
    RunKeepsInv(acts);
    var s := Runs.Play(Next, NEW_LISTENER, acts).value;
    var k := Q.FirstValid(s.lists.equeue, s.lists.errors);
    if k < |s.lists.equeue| {
      assert s.lists.equeue[k] in s.lists.equeue;
    }
    assert !s.graph ==> s.lists.equeue == [];
  }

  /** What the steps do to the events: an added one is pending, the oldest valid one is claimed, and the one
      whose tasks are done leaves the lists. A start makes the listener started and leaves the events alone. */
  lemma EventsPassThrough(acts: seq<Action>, event: Event)
    requires Runs.Play(Next, NEW_LISTENER, acts).Some?
    ensures var s := Runs.Play(Next, NEW_LISTENER, acts).value;
            var t := Next(s, Start);
            t.Some? ==> t.value.lstnr.Started? && t.value.lists == s.lists && t.value.stack == s.stack
    ensures var s := Runs.Play(Next, NEW_LISTENER, acts).value;
            var t := Next(s, AddEvent(event));
            t.Some? ==> |t.value.lists.equeue| == |s.lists.equeue| + 1
                        && t.value.lists.equeue[|s.lists.equeue|].event == event
                        && s.lists.equeue <= t.value.lists.equeue
    ensures var s := Runs.Play(Next, NEW_LISTENER, acts).value;
            var t := Next(s, Process);
            t.Some? ==> t.value.stack.Processing? && t.value.stack.below == s.stack
                        && t.value.stack.entry in s.lists.equeue && t.value.stack.entry.event !in s.lists.errors
                        && t.value.stack.entry !in t.value.lists.equeue
    ensures var s := Runs.Play(Next, NEW_LISTENER, acts).value;
            var t := Next(s, Finish);
            t.Some? ==> s.stack.entry in s.lists.claimed && s.stack.entry !in t.value.lists.claimed
                        && t.value.stack == s.stack.below && t.value.lists.equeue == s.lists.equeue
  {
    RunKeepsInv(acts);
    var s := Runs.Play(Next, NEW_LISTENER, acts).value;
    if Next(s, Process).Some? {
      var k := Q.FirstValid(s.lists.equeue, s.lists.errors);
      RemovedMembers(s.lists.equeue, k);
      assert s.lists.equeue[k] in s.lists.equeue;
    }
    if s.stack.Processing? {
      var below := Active(s.stack.below);
      LastOneIsRetired(s, below, s.stack.entry);
      RetiredIs(s.(stack := s.stack.below), s.stack.entry, below);
      assert s.lists.claimed[|below|] == s.stack.entry;
    }
  }

  /** An event that was invalidated at some point of a run is claimed by no later step. */
  lemma InvalidatedEventIsNotClaimed(before: seq<Action>, event: Event, after: seq<Action>, e: Entry)
    requires Runs.Play(Next, NEW_LISTENER, before + ([Invalidate(event)] + after)).Some?
    requires Runs.Play(Next, NEW_LISTENER, before).Some?
    requires e.event == event && e in Runs.Play(Next, NEW_LISTENER, before).value.lists.equeue
    ensures var t := Runs.Play(Next, NEW_LISTENER, before + ([Invalidate(event)] + after)).value;
            e in t.lists.equeue && t.destroyed == 0
  {
    var s := Runs.Play(Next, NEW_LISTENER, before).value;
    Runs.Cut(Next, NEW_LISTENER, before, [Invalidate(event)] + after);
    RunKeepsInv(before);
    assert ([Invalidate(event)] + after)[1..] == after;
    var t := Next(s, Invalidate(event)).value;
    assert !Q.Empty(s.lists);
    var stuck := (x: State) => Stuck(x, e);
    forall x, a | stuck(x) && Next(x, a).Some? ensures stuck(Next(x, a).value) {
      StepKeepsStuck(x, a, e);
    }
    Runs.Invariant(Next, stuck, t, after);
  }
}
