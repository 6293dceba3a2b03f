/** The event queue of a graph (src/core.c): events are accepted, claimed and retired by any number of
    threads, each in a critical section under graph->queue_mutex. */
module GraphQueue {
  import opened Wrappers
  import opened Sequences
  import Runs

  type Event = int

  /** A list element of the queue: its number, counting all accepted elements, and its event. */
  datatype Entry = Entry(id: nat, event: Event)

  /** The two lists of a graph, and the events whose error flag is set. */
  datatype Lists = Lists(equeue: seq<Entry>, claimed: seq<Entry>, errors: set<Event>)

  /** Index of the first element whose event was not invalidated, the length if there is none. */
  function FirstValid(q: seq<Entry>, errors: set<Event>): (k: nat)
    ensures k <= |q|
    ensures forall i :: 0 <= i < k ==> q[i].event in errors
    ensures k < |q| ==> q[k].event !in errors
  {
    if q == [] || q[0].event !in errors then 0 else 1 + FirstValid(q[1..], errors)
  }

  function Claim(g: Lists): Option<Lists> {
    var k := FirstValid(g.equeue, g.errors);
    if k == |g.equeue| then None
    else Some(g.(equeue := Removed(g.equeue, k), claimed := g.claimed + [g.equeue[k]]))
  }

  predicate Empty(g: Lists) { g.equeue == [] && g.claimed == [] }

  // ------------------------------------------------------------------------------ the state machine

  /** accepted counts the elements queued so far, claims is the log of claims, retired that of retirements. */
  datatype State = State(lists: Lists, accepted: nat, claims: seq<nat>, retired: seq<nat>)

  datatype Action =
    | AddEvent(event: Event)
    | DropEvent                  // the graph has no task
    | Invalidate(event: Event)
    | ClaimNext
    | Retire(k: nat)
    | WaitReturns                // crtx_wait_on_graph_empty() leaves its loop

  const NEW_GRAPH := State(Lists([], [], {}), 0, [], [])

  function Next(s: State, a: Action): Option<State> {
    var g := s.lists;
    match a
    case AddEvent(event) =>
      Some(s.(lists := g.(equeue := g.equeue + [Entry(s.accepted, event)]), accepted := s.accepted + 1))
    case DropEvent => Some(s)
    case Invalidate(event) => Some(s.(lists := g.(errors := g.errors + {event})))
    case ClaimNext =>
      (match Claim(g)
       case None => Some(s)
       case Some(after) => Some(s.(lists := after, claims := s.claims + [after.claimed[|g.claimed|].id])))
    case Retire(k) =>
      if k < |g.claimed| then
        Some(s.(lists := g.(claimed := Removed(g.claimed, k)), retired := s.retired + [g.claimed[k].id]))
      else None
    case WaitReturns => if Empty(g) then Some(s) else None
  }

  function Ids(q: seq<Entry>): seq<nat> { seq(|q|, i requires 0 <= i < |q| => q[i].id) }

  predicate Increasing(s: seq<nat>) { forall i, j :: 0 <= i < j < |s| ==> s[i] < s[j] }

  /** Every accepted element is in exactly one place, once. */
  ghost predicate Conserved(s: State) {
    forall id: nat :: Places(s)[id] == if id < s.accepted then 1 else 0
  }

  ghost function Places(s: State): multiset<nat> {
    multiset(Ids(s.lists.equeue)) + multiset(Ids(s.lists.claimed)) + multiset(s.retired)
  }

  /** The queue and the claims are in the order of acceptance, and what a claim has overtaken is invalid. */
  ghost predicate Ordered(s: State) {
    && Increasing(Ids(s.lists.equeue))
    && (forall i :: 0 <= i < |s.lists.equeue| ==> s.lists.equeue[i].id < s.accepted)
    && Increasing(s.claims)
    && (forall i :: 0 <= i < |s.claims| ==> s.claims[i] < s.accepted)
    && (forall i, j :: 0 <= i < |s.lists.equeue| && 0 <= j < |s.claims| && s.lists.equeue[i].id < s.claims[j] ==>
          s.lists.equeue[i].event in s.lists.errors)
    && (forall i, j :: 0 <= i < |s.lists.equeue| && 0 <= j < |s.claims| ==> s.lists.equeue[i].id != s.claims[j])
    && multiset(s.claims) == multiset(Ids(s.lists.claimed)) + multiset(s.retired)
  }

  ghost predicate Inv(s: State) { Conserved(s) && Ordered(s) }

  lemma IdsOfWithout(q: seq<Entry>, k: nat)
    requires k < |q|
    ensures Ids(Removed(q, k)) == Removed(Ids(q), k)
    ensures multiset(Ids(q)) == multiset(Removed(Ids(q), k)) + multiset{q[k].id}
  {
    var ids := Ids(q);
    assert ids == ids[..k] + [ids[k]] + ids[k + 1..];
  }

  lemma IdsOfAppend(q: seq<Entry>, e: Entry)
    ensures Ids(q + [e]) == Ids(q) + [e.id]
  {
  }

  lemma AddKeepsConserved(s: State, event: Event)
    requires Inv(s)
    ensures var t := Next(s, AddEvent(event)).value; Conserved(t) && Increasing(Ids(t.lists.equeue))
  {
    IdsOfAppend(s.lists.equeue, Entry(s.accepted, event));
    assert Places(Next(s, AddEvent(event)).value) == Places(s) + multiset{s.accepted};
  }

  lemma AddKeepsInv(s: State, event: Event)
    requires Inv(s)
    ensures Inv(Next(s, AddEvent(event)).value)
  {
    AddKeepsConserved(s, event);
    var q, e := s.lists.equeue, Entry(s.accepted, event);
    forall i | 0 <= i < |q + [e]|
      ensures (q + [e])[i].id < s.accepted + 1
      ensures forall j :: 0 <= j < |s.claims| ==> (q + [e])[i].id != s.claims[j]
      ensures forall j :: 0 <= j < |s.claims| && (q + [e])[i].id < s.claims[j] ==> (q + [e])[i].event in s.lists.errors
    {
      assert (q + [e])[i] == if i < |q| then q[i] else e;
    }
  }

  lemma RetireKeepsInv(s: State, k: nat)
    requires Inv(s) && k < |s.lists.claimed|
    ensures Inv(Next(s, Retire(k)).value)
  {
    IdsOfWithout(s.lists.claimed, k);
    var t := Next(s, Retire(k)).value;
    assert Places(t) == Places(s);
  }

  /** What is left of the queue is what was there, in the same order, without the claimed element. */
  lemma WithoutElements(q: seq<Entry>, k: nat)
    requires k < |q|
    ensures forall i :: 0 <= i < |Removed(q, k)| ==> Removed(q, k)[i] == q[if i < k then i else i + 1]
    ensures Increasing(Ids(q)) ==> Increasing(Ids(Removed(q, k)))
  {
    var r := Removed(q, k);
    assert forall i :: 0 <= i < |r| ==> Ids(r)[i] == Ids(q)[if i < k then i else i + 1];
  }

  lemma ClaimKeepsOrder(s: State)
    requires Ordered(s) && Claim(s.lists).Some?
    ensures Increasing(Next(s, ClaimNext).value.claims)
  {
    var q, k := s.lists.equeue, FirstValid(s.lists.equeue, s.lists.errors);
    forall j | 0 <= j < |s.claims| ensures s.claims[j] < q[k].id {
      assert q[k].event !in s.lists.errors;
    }
  }

  lemma ClaimKeepsConserved(s: State)
    requires Inv(s) && Claim(s.lists).Some?
    ensures Conserved(Next(s, ClaimNext).value)
    ensures var t := Next(s, ClaimNext).value;
            multiset(t.claims) == multiset(Ids(t.lists.claimed)) + multiset(t.retired)
  {
    var q, k := s.lists.equeue, FirstValid(s.lists.equeue, s.lists.errors);
    var t := Next(s, ClaimNext).value;
    IdsOfWithout(q, k);
    IdsOfAppend(s.lists.claimed, q[k]);
    assert Places(t) == Places(s);
  }

  lemma ClaimKeepsInv(s: State)
    requires Inv(s) && Claim(s.lists).Some?
    ensures Inv(Next(s, ClaimNext).value)
  {
    var q, k := s.lists.equeue, FirstValid(s.lists.equeue, s.lists.errors);
    var t := Next(s, ClaimNext).value;
    ClaimKeepsConserved(s);
    ClaimKeepsOrder(s);
    WithoutElements(q, k);
    forall i | 0 <= i < |t.lists.equeue|
      ensures t.lists.equeue[i].id != q[k].id
      ensures t.lists.equeue[i].id < q[k].id ==> t.lists.equeue[i].event in s.lists.errors
    {
      assert Ids(q)[k] == q[k].id && Ids(q)[if i < k then i else i + 1] == t.lists.equeue[i].id;
    }
  }

  lemma StepKeepsInv(s: State, a: Action)
    requires Inv(s) && Next(s, a).Some?
    ensures Inv(Next(s, a).value)
  {
    match a {
      case AddEvent(event) => AddKeepsInv(s, event);
      case Retire(k) => RetireKeepsInv(s, k);
      case ClaimNext => if Claim(s.lists).Some? { ClaimKeepsInv(s); }
      case _ => assert Places(Next(s, a).value) == Places(s);
    }
  }

  lemma RunKeepsInv(acts: seq<Action>)
    requires Runs.Play(Next, NEW_GRAPH, acts).Some?
    ensures Inv(Runs.Play(Next, NEW_GRAPH, acts).value)
  {
    forall s, a | Inv(s) && Next(s, a).Some? ensures Inv(Next(s, a).value) {
      StepKeepsInv(s, a);
    }
    Runs.Invariant(Next, Inv, NEW_GRAPH, acts);
  }

  // ------------------------------------------------------------------------------------------------

  /** In every reachable state each accepted element is in exactly one of equeue, claimed and retired. */
  lemma EventsAreConserved(acts: seq<Action>, id: nat)
    requires Runs.Play(Next, NEW_GRAPH, acts).Some?
    ensures var s := Runs.Play(Next, NEW_GRAPH, acts).value;
            multiset(Ids(s.lists.equeue))[id] + multiset(Ids(s.lists.claimed))[id] + multiset(s.retired)[id]
            == if id < s.accepted then 1 else 0
  {
    RunKeepsInv(acts);
    var s := Runs.Play(Next, NEW_GRAPH, acts).value;
    assert Places(s)[id] == if id < s.accepted then 1 else 0;
  }

  /** Elements are claimed in the order in which they were accepted. One that was overtaken was invalidated;
      the queue keeps the order of acceptance, skipped elements included. */
  lemma ClaimsAreFifo(acts: seq<Action>)
    requires Runs.Play(Next, NEW_GRAPH, acts).Some?
    ensures var s := Runs.Play(Next, NEW_GRAPH, acts).value;
            && Increasing(s.claims)
            && Increasing(Ids(s.lists.equeue))
            && (forall e, c :: e in s.lists.equeue && c in s.claims && e.id < c ==> e.event in s.lists.errors)
  {
    RunKeepsInv(acts);
  }

  /** crtx_wait_on_graph_empty() returns only when every accepted element was retired. */
  lemma WaitReturnsWhenAllRetired(acts: seq<Action>)
    requires Runs.Play(Next, NEW_GRAPH, acts).Some?
    requires Next(Runs.Play(Next, NEW_GRAPH, acts).value, WaitReturns).Some?
    ensures var s := Runs.Play(Next, NEW_GRAPH, acts).value;
            && s.lists.equeue == [] && s.lists.claimed == []
            && forall id: nat :: id < s.accepted <==> id in s.retired
  {
    RunKeepsInv(acts);
    var s := Runs.Play(Next, NEW_GRAPH, acts).value;
    forall id: nat ensures id < s.accepted <==> id in s.retired {
      assert Places(s)[id] == multiset(s.retired)[id];
      assert id in s.retired <==> id in multiset(s.retired);
    }
  }

  /** The other direction: the wait returns if and only if every accepted event was retired. */
  lemma WaitReturnsIffAllRetired(acts: seq<Action>)
    requires Runs.Play(Next, NEW_GRAPH, acts).Some?
    ensures var s := Runs.Play(Next, NEW_GRAPH, acts).value;
            Next(s, WaitReturns).Some? <==> forall id: nat :: id < s.accepted ==> id in s.retired
  {
    RunKeepsInv(acts);
    EmptyIffAllRetired(Runs.Play(Next, NEW_GRAPH, acts).value);
  }

  /** The element is queued and its event invalid. */
  ghost predicate Ignored(s: State, e: Entry) {
    e in s.lists.equeue && e.event in s.lists.errors
  }

  lemma StepKeepsIgnored(s: State, a: Action, e: Entry)
    requires Ignored(s, e) && Next(s, a).Some?
    ensures Ignored(Next(s, a).value, e)
  {
    var q, t := s.lists.equeue, Next(s, a).value;
    var i :| 0 <= i < |q| && q[i] == e;
    if a.ClaimNext? && Claim(s.lists).Some? {
      var k := FirstValid(q, s.lists.errors);
      assert t.lists.equeue[if i < k then i else i - 1] == e;
    } else if a.AddEvent? {
      assert t.lists.equeue[i] == e;
    }
  }

  /** A queued event that is invalidated in a run is claimed by no later step of it. */
  lemma InvalidatedEventIsNotClaimed(before: seq<Action>, after: seq<Action>, e: Entry)
    requires Runs.Play(Next, NEW_GRAPH, before).Some?
    requires e in Runs.Play(Next, NEW_GRAPH, before).value.lists.equeue
    requires Runs.Play(Next, NEW_GRAPH, before + ([Invalidate(e.event)] + after)).Some?
    ensures var t := Runs.Play(Next, NEW_GRAPH, before + ([Invalidate(e.event)] + after)).value;
            e in t.lists.equeue && e.id !in t.claims
  {
    var run := before + ([Invalidate(e.event)] + after);
    Runs.Cut(Next, NEW_GRAPH, before, [Invalidate(e.event)] + after);
    assert ([Invalidate(e.event)] + after)[1..] == after;
    var s := Next(Runs.Play(Next, NEW_GRAPH, before).value, Invalidate(e.event)).value;
    forall x, a | Ignored(x, e) && Next(x, a).Some? ensures Ignored(Next(x, a).value, e) {
      StepKeepsIgnored(x, a, e);
    }
    Runs.Invariant(Next, x => Ignored(x, e), s, after);
    RunKeepsInv(run);
  }

  // ------------------------------------------------------------------------- the critical sections

  /** The fields of a graph that the queue uses. Every method is one step of the state machine; history is the
      run so far, so that what holds in every run holds between any calls. */
  class Graph {
    var hasTasks: bool
    var equeue: seq<Entry>
    var claimed: seq<Entry>
    var accepted: nat               // numbers the elements
    var errors: set<Event>          // the events whose error flag is set
    ghost var history: State

    ghost predicate Valid()
      reads this
    {
      Inv(history) && history.lists == Lists(equeue, claimed, errors) && history.accepted == accepted
    }

    constructor ()
      ensures Valid() && history == NEW_GRAPH && !hasTasks
    {
      hasTasks, equeue, claimed, accepted, errors, history := false, [], [], 0, {}, NEW_GRAPH;
      new;
      NewGraphOk();
    }

    /** The part of crtx_add_event() that queues the event, or drops it if the graph has no task. */
    method AddEvent(event: Event) returns (queued: bool)
      requires Valid()
      modifies this`equeue, this`accepted, this`history
      ensures Valid() && queued == hasTasks
      ensures Next(old(history), if queued then Action.AddEvent(event) else DropEvent) == Some(history)
      ensures queued ==> Entry(old(accepted), event) in equeue
      ensures queued ==> forall e :: e in old(equeue) ==> e in equeue && e.id < old(accepted)
    {
      if !hasTasks { return false; }
      AddKeepsInv(history, event);
      history := Next(history, Action.AddEvent(event)).value;
      equeue := equeue + [Entry(accepted, event)];
      accepted := accepted + 1;
      return true;
    }

    /** crtx_invalidate_event(), as far as queues see it. */
    method InvalidateEvent(event: Event)
      requires Valid()
      modifies this`errors, this`history
      ensures Valid() && Next(old(history), Invalidate(event)) == Some(history)
    {
      StepKeepsInv(history, Invalidate(event));
      errors := errors + {event};
      history := Next(history, Invalidate(event)).value;
    }

    /** crtx_claim_next_event_of_graph(): the search loop, then the move between the lists. Nothing is claimed
        if and only if every queued event was invalidated, and a claim only overtakes such events. */
    method ClaimNext() returns (entry: Option<Entry>)
      requires Valid()
      modifies this`equeue, this`claimed, this`history
      ensures Valid() && Next(old(history), Action.ClaimNext) == Some(history)
      ensures entry == None <==> forall e :: e in old(equeue) ==> e.event in errors
      ensures entry.Some? ==> entry.value in old(equeue) && entry.value in claimed && entry.value.event !in errors
      ensures entry.Some? ==> forall e :: e in old(equeue) && e.id < entry.value.id ==> e.event in errors
    {
      var k := 0;
      while k < |equeue| && equeue[k].event in errors
        invariant 0 <= k <= |equeue|
        invariant forall i :: 0 <= i < k ==> equeue[i].event in errors
      {
        k := k + 1;
      }
      assert k == FirstValid(equeue, errors);
      if k == |equeue| { return None; }
      ClaimKeepsInv(history);
      OvertakenAreInvalid(history, k);
      history := Next(history, Action.ClaimNext).value;
      var e := equeue[k];
      equeue := Removed(equeue, k);
      claimed := claimed + [e];
      assert claimed[|claimed| - 1] == e;
      return Some(e);
    }

    /** The end of crtx_process_one_event(): the element leaves the claimed list. The graph is drained exactly
        when every event that was ever accepted has been retired. */
    method Retire(k: nat) returns (drained: bool)
      requires Valid() && k < |claimed|
      modifies this`claimed, this`history
      ensures Valid() && Next(old(history), Action.Retire(k)) == Some(history)
      ensures drained <==> forall id: nat :: id < accepted ==> id in history.retired
    {
      RetireKeepsInv(history, k);
      history := Next(history, Action.Retire(k)).value;
      claimed := Removed(claimed, k);
      drained := |equeue| == 0 && |claimed| == 0;
      EmptyIffAllRetired(history);
    }
  }

  lemma NewGraphOk()
    ensures Inv(NEW_GRAPH)
  {
    assert Places(NEW_GRAPH) == multiset{};
  }

  lemma OvertakenAreInvalid(s: State, k: nat)
    requires Inv(s) && k < |s.lists.equeue| && forall i :: 0 <= i < k ==> s.lists.equeue[i].event in s.lists.errors
    ensures forall e :: e in s.lists.equeue && e.id < s.lists.equeue[k].id ==> e.event in s.lists.errors
  {
    var q := s.lists.equeue;
    forall e | e in q && e.id < q[k].id ensures e.event in s.lists.errors {
      var i :| 0 <= i < |q| && q[i] == e;
      assert Ids(q)[i] == e.id && Ids(q)[k] == q[k].id;
    }
  }

  lemma EmptyIffAllRetired(s: State)
    requires Inv(s)
    ensures Empty(s.lists) <==> forall id: nat :: id < s.accepted ==> id in s.retired
  {
    var q, c := Ids(s.lists.equeue), Ids(s.lists.claimed);
    forall id: nat ensures id in s.retired <==> multiset(s.retired)[id] > 0 {
      assert id in s.retired <==> id in multiset(s.retired);
    }
    if Empty(s.lists) {
      forall id: nat | id < s.accepted ensures id in s.retired {
        assert Places(s)[id] == multiset(s.retired)[id];
      }
    } else {
      var id := if q != [] then q[0] else c[0];
      assert id in multiset(q) || id in multiset(c);
      assert Places(s)[id] >= 1 && id < s.accepted;
      assert Places(s)[id] == multiset(q)[id] + multiset(c)[id] + multiset(s.retired)[id];
    }
  }
}
