/** The tasks of a graph (src/core.c): adding a task to the linked list and walking the list with an event. */
module TaskGraph {
  import opened Wrappers
  import opened Sequences

  /** What a task does to the world W that an event and all handlers share. A handler leaves session data S
      for the cleanup of the same visit and says whether to keep going. A task may be restricted to the
      events with a given description. */
  datatype Behaviour<!W, !S> =
    Behaviour(match_: Option<string>, handle: Option<W -> (W, S, bool)>, cleanup: Option<(W, S) -> W>)

  /** One walk over the tasks: the description of the event, how to see in the world that the event has a
      response, the flag of the graph, and what the session data of each visit holds before it is set. */
  datatype Trip<!W, !S> = Trip(description: string, responded: W -> bool, keepGoing: bool, junk: nat -> S)

  // ---------------------------------------------------------------------------------- walking the list

  /** The index of the task that is called. */
  datatype Call = Handle(task: nat) | Cleanup(task: nat)

  predicate Handles<W, S>(b: Behaviour<W, S>, trip: Trip<W, S>) {
    b.handle.Some? && (b.match_.None? || b.match_.value == trip.description)
  }

  function AfterHandle<W, S>(b: Behaviour<W, S>, i: nat, trip: Trip<W, S>, w: W): (W, S, bool) {
    if Handles(b, trip) then b.handle.value(w) else (w, trip.junk(i), true)
  }

  function AfterCleanup<W, S>(b: Behaviour<W, S>, w: W, session: S): W {
    if b.cleanup.Some? then b.cleanup.value(w, session) else w
  }

  function HandleCall<W, S>(b: Behaviour<W, S>, i: nat, trip: Trip<W, S>): seq<Call> {
    if Handles(b, trip) then [Handle(i)] else []
  }

  function CleanupCall<W, S>(b: Behaviour<W, S>, i: nat): seq<Call> {
    if b.cleanup.Some? then [Cleanup(i)] else []
  }

  /** traverse_graph_r() from task i on: the world after it and the calls it made. The walk goes on to the
      next task unless a response is there, the handler said to stop and the graph does not keep going. */
  function Walk<W, S>(tasks: seq<Behaviour<W, S>>, i: nat, trip: Trip<W, S>, w: W): (W, seq<Call>)
    requires i < |tasks|
    decreases |tasks| - i
  {
    var b := tasks[i];
    var (w1, session, keep) := AfterHandle(b, i, trip, w);
    var (w2, inner) :=
      if i + 1 < |tasks| && (!trip.responded(w1) || keep ||
          trip.keepGoing) then Walk(tasks, i + 1, trip, w1) else (w1, []);
    (AfterCleanup(b, w2, session), HandleCall(b, i, trip) + inner + CleanupCall(b, i))
  }

  /** The world after the n tasks from i on handled the event, without any cleanup. */
  function Handled<W, S>(tasks: seq<Behaviour<W, S>>, i: nat, n: nat, trip: Trip<W, S>, w: W): W
    requires i + n <= |tasks|
    decreases n
  {
    if n == 0 then w else Handled(tasks, i + 1, n - 1, trip, AfterHandle(tasks[i], i, trip, w).0)
  }

  /** Of the n tasks from i on, all handling the event, the last one stops with a response. */
  predicate StopsAt<W, S>(tasks: seq<Behaviour<W, S>>, i: nat, n: nat, trip: Trip<W, S>, w: W)
    requires 0 < n && i + n <= |tasks|
  {
    var (after, _, keep) := AfterHandle(tasks[i + n - 1], i + n - 1, trip, Handled(tasks, i, n - 1, trip, w));
    trip.responded(after) && !keep && !trip.keepGoing
  }

  function HandleCalls<W, S>(tasks: seq<Behaviour<W, S>>, i: nat, n: nat, trip: Trip<W, S>): seq<Call>
    requires i + n <= |tasks|
    decreases n
  {
    if n == 0 then [] else HandleCall(tasks[i], i, trip) + HandleCalls(tasks, i + 1, n - 1, trip)
  }

  /** The cleanups of the n tasks from i on, last task first. */
  function CleanupCalls<W, S>(tasks: seq<Behaviour<W, S>>, i: nat, n: nat): seq<Call>
    requires i + n <= |tasks|
    decreases n
  {
    if n == 0 then [] else CleanupCalls(tasks, i + 1, n - 1) + CleanupCall(tasks[i], i)
  }

  /** How many tasks the walk visits from task i on. */
  function Visited<W, S>(tasks: seq<Behaviour<W, S>>, i: nat, trip: Trip<W, S>, w: W): (n: nat)
    requires i < |tasks|
    ensures 0 < n && i + n <= |tasks|
    decreases |tasks| - i
  {
    var (w1, _, keep) := AfterHandle(tasks[i], i, trip, w);
    if i + 1 < |tasks| && (!trip.responded(w1) || keep ||
        trip.keepGoing) then 1 + Visited(tasks, i + 1, trip, w1) else 1
  }

  /** The walk handles the event in list order, then cleans up exactly the visited tasks in reverse order.
      Tasks that were skipped because they do not match the event are cleaned up all the same. */
  lemma {:induction false} WalkVisitsPrefix<W, S>(tasks: seq<Behaviour<W, S>>, i: nat, trip: Trip<W, S>, w: W)
    requires i < |tasks|
    ensures var n := Visited(tasks, i, trip, w);
            Walk(tasks, i, trip, w).1 == HandleCalls(tasks, i, n, trip) + CleanupCalls(tasks, i, n)
    decreases |tasks| - i
  {
    var h, c := HandleCall(tasks[i], i, trip), CleanupCall(tasks[i], i);
    var n := Visited(tasks, i, trip, w);
    if n > 1 {
      var w1 := AfterHandle(tasks[i], i, trip, w).0;
      WalkVisitsPrefix(tasks, i + 1, trip, w1);
      Nested(h, HandleCalls(tasks, i + 1, n - 1, trip), CleanupCalls(tasks, i + 1, n - 1), c);
    } else {
      Nested(h, [], [], c);
    }
  }

  lemma Nested(h: seq<Call>, hs: seq<Call>, cs: seq<Call>, c: seq<Call>)
    ensures h + (hs + cs) + c == (h + hs) + (cs + c)
    ensures h + [] + c == (h + []) + ([] + c)
  {
  }

  /** The visited tasks end at the first task that stops with a response, or with the list. */
  lemma {:induction false} VisitedEndsAtFirstStop<W, S>(tasks: seq<Behaviour<W, S>>, i: nat, trip: Trip<W, S>, w: W)
    requires i < |tasks|
    ensures forall m :: 0 < m < Visited(tasks, i, trip, w) ==> !StopsAt(tasks, i, m, trip, w)
    ensures i + Visited(tasks, i, trip, w) < |tasks| ==> StopsAt(tasks, i, Visited(tasks, i, trip, w), trip, w)
    decreases |tasks| - i
  {
    var n := Visited(tasks, i, trip, w);
    if n > 1 {
      VisitedEndsAtFirstStop(tasks, i + 1, trip, AfterHandle(tasks[i], i, trip, w).0);
      forall m | 0 < m < n ensures !StopsAt(tasks, i, m, trip, w) {
        if m > 1 { ShiftStop(tasks, i, m - 1, trip, w); }
      }
      if i + n < |tasks| { ShiftStop(tasks, i, n - 1, trip, w); }
    }
  }

  /** A task is handled if and only if it is visited and matches, cleaned up if and only if it is visited and
      has a cleanup. */
  lemma {:induction false} CallsOfTask<W, S>(tasks: seq<Behaviour<W, S>>, i: nat, trip: Trip<W, S>, w: W, k: nat)
    requires i < |tasks|
    ensures var calls, visited := Walk(tasks, i, trip, w).1, i <= k < i + Visited(tasks, i, trip, w);
            && (Handle(k) in calls <==> visited && Handles(tasks[k], trip))
            && (Cleanup(k) in calls <==> visited && tasks[k].cleanup.Some?)
    decreases |tasks| - i
  {
    if Visited(tasks, i, trip, w) > 1 {
      CallsOfTask(tasks, i + 1, trip, AfterHandle(tasks[i], i, trip, w).0, k);
    }
  }

  /** A task with a handler is handled if and only if it is visited and not restricted to other events. */
  lemma {:induction false} HandledIffMatches<W, S>(tasks: seq<Behaviour<W, S>>, trip: Trip<W, S>, w: W, k: nat)
    requires tasks != [] && k < |tasks| && tasks[k].handle.Some?
    ensures Handle(k) in Walk(tasks, 0, trip, w).1 <==>
            k < Visited(tasks, 0, trip, w)
            && (tasks[k].match_ == None || tasks[k].match_ == Some(trip.description))
  {
    CallsOfTask(tasks, 0, trip, w, k);
  }

  /** A task that is skipped never ends the walk. */
  lemma SkippedTaskDoesNotStop<W, S>(tasks: seq<Behaviour<W, S>>, i: nat, n: nat, trip: Trip<W, S>, w: W)
    requires 0 < n && i + n <= |tasks|
    requires tasks[i + n - 1].handle == None ||
             (tasks[i + n - 1].match_.Some? && tasks[i + n - 1].match_.value != trip.description)
    ensures !StopsAt(tasks, i, n, trip, w)
  {
  }

  /** The calls of a walk carried out one after the other: sessions holds what the handlers have left. */
  ghost function Replay<W, S>(tasks: seq<Behaviour<W, S>>, calls: seq<Call>, sessions: nat -> S, w: W): (W, nat -> S)
    decreases |calls|
  {
    if calls == [] then (w, sessions)
    else
      match calls[0]
      case Handle(k) =>
        if k < |tasks| && tasks[k].handle.Some? then
          var (w1, s, _) := tasks[k].handle.value(w);
          Replay(tasks, calls[1..], (x: nat) => if x == k then s else sessions(x), w1)
        else Replay(tasks, calls[1..], sessions, w)
      case Cleanup(k) =>
        if k < |tasks| && tasks[k].cleanup.Some? then
          Replay(tasks, calls[1..], sessions, tasks[k].cleanup.value(w, sessions(k)))
        else Replay(tasks, calls[1..], sessions, w)
  }

  lemma {:induction false} ReplayInParts<W, S>(tasks: seq<Behaviour<W, S>>, a: seq<Call>, b: seq<Call>,
                                              sessions: nat -> S, w: W)
    ensures var (w1, s1) := Replay(tasks, a, sessions, w);
            Replay(tasks, a + b, sessions, w) == Replay(tasks, b, s1, w1)
    decreases |a|
  {
    if a == [] {
      assert a + b == b;
    } else {
      assert (a + b)[1..] == a[1..] + b;
      match a[0] {
        case Handle(k) =>
          if k < |tasks| && tasks[k].handle.Some? {
            var (w1, s, _) := tasks[k].handle.value(w);
            ReplayInParts(tasks, a[1..], b, (x: nat) => if x == k then s else sessions(x), w1);
          } else {
            ReplayInParts(tasks, a[1..], b, sessions, w);
          }
        case Cleanup(k) =>
          if k < |tasks| && tasks[k].cleanup.Some? {
            ReplayInParts(tasks, a[1..], b, sessions, tasks[k].cleanup.value(w, sessions(k)));
          } else {
            ReplayInParts(tasks, a[1..], b, sessions, w);
          }
      }
    }
  }

  /** The world after a walk is what carrying out its calls makes of it. */
  lemma {:induction false} WalkCarriesOutItsCalls<W, S>(tasks: seq<Behaviour<W, S>>, i: nat, trip: Trip<W, S>, w: W,
                                                       sessions: nat -> S)
    requires i < |tasks| && forall k: nat :: i <= k ==> sessions(k) == trip.junk(k)
    ensures var (after, left) := Replay(tasks, Walk(tasks, i, trip, w).1, sessions, w);
            after == Walk(tasks, i, trip, w).0 && forall k :: 0 <= k < i ==> left(k) == sessions(k)
    decreases |tasks| - i
  {
    var b := tasks[i];
    var (w1, session, keep) := AfterHandle(b, i, trip, w);
    var h, c := HandleCall(b, i, trip), CleanupCall(b, i);
    var (r1, s1) := Replay(tasks, h, sessions, w);
    HandleReplayed(tasks, i, trip, sessions, w);
    if i + 1 < |tasks| && (!trip.responded(w1) || keep || trip.keepGoing) {
      var inner := Walk(tasks, i + 1, trip, w1).1;
      WalkCarriesOutItsCalls(tasks, i + 1, trip, w1, s1);
      var (r2, s2) := Replay(tasks, inner, s1, w1);
      CleanupReplayed(tasks, i, session, s2, r2);
      ReplayThree(tasks, h, inner, c, sessions, w);
    } else {
      CleanupReplayed(tasks, i, session, s1, w1);
      ReplayThree(tasks, h, [], c, sessions, w);
    }
  }

  lemma ReplayThree<W, S>(tasks: seq<Behaviour<W, S>>, a: seq<Call>, b: seq<Call>, c: seq<Call>,
                            sessions: nat -> S, w: W)
    ensures var (w1, s1) := Replay(tasks, a, sessions, w);
            var (w2, s2) := Replay(tasks, b, s1, w1);
            Replay(tasks, a + b + c, sessions, w) == Replay(tasks, c, s2, w2)
  {
    ReplayInParts(tasks, a, b, sessions, w);
    ReplayInParts(tasks, a + b, c, sessions, w);
  }

  lemma HandleReplayed<W, S>(tasks: seq<Behaviour<W, S>>, i: nat, trip: Trip<W, S>, sessions: nat -> S, w: W)
    requires i < |tasks| && sessions(i) == trip.junk(i)
    ensures var (w1, session, _) := AfterHandle(tasks[i], i, trip, w);
            var (r, left) := Replay(tasks, HandleCall(tasks[i], i, trip), sessions, w);
            r == w1 && left(i) == session && forall k: nat :: k != i ==> left(k) == sessions(k)
  {
    var calls := HandleCall(tasks[i], i, trip);
    if calls != [] {
      assert calls[1..] == [];
    }
  }

  lemma CleanupReplayed<W, S>(tasks: seq<Behaviour<W, S>>, i: nat, session: S, sessions: nat -> S, w: W)
    requires i < |tasks| && sessions(i) == session
    ensures Replay(tasks, CleanupCall(tasks[i], i), sessions, w) == (AfterCleanup(tasks[i], w, session), sessions)
  {
    var calls := CleanupCall(tasks[i], i);
    if calls != [] {
      assert calls[1..] == [];
    }
  }

  /** A task is cleaned up without having been handled if and only if it is visited, has a cleanup and does not
      match the event (or has no handler). */
  lemma {:induction false} CleanedUpUnhandledIff<W, S>(tasks: seq<Behaviour<W, S>>, trip: Trip<W, S>, w: W, k: nat)
    requires tasks != []
    ensures var calls := Walk(tasks, 0, trip, w).1;
            Cleanup(k) in calls && Handle(k) !in calls <==>
            k < Visited(tasks, 0, trip, w) && tasks[k].cleanup.Some? && !Handles(tasks[k], trip)
  {
    CallsOfTask(tasks, 0, trip, w, k);
  }

  /** What the session data hold before they are set does not matter if every visited task with a cleanup was
      handled. */
  lemma {:induction false} UnsetSessionDoesNotMatter<W, S>(tasks: seq<Behaviour<W, S>>, i: nat, trip: Trip<W, S>,
                                                          junk: nat -> S, w: W)
    requires i < |tasks|
    requires AllHandled(tasks, i, trip, w)
    ensures Walk(tasks, i, trip.(junk := junk), w) == Walk(tasks, i, trip, w)
    decreases |tasks| - i
  {
    var w1 := AfterHandle(tasks[i], i, trip, w).0;
    if Visited(tasks, i, trip, w) > 1 {
      UnsetSessionDoesNotMatter(tasks, i + 1, trip, junk, w1);
    }
  }

  /** The session data that the cleanups of a walk are given. */
  ghost function Given<W, S>(tasks: seq<Behaviour<W, S>>, i: nat, trip: Trip<W, S>, w: W): seq<(nat, S)>
    requires i < |tasks|
    decreases |tasks| - i
  {
    var (w1, session, _) := AfterHandle(tasks[i], i, trip, w);
    (if Visited(tasks, i, trip, w) > 1 then Given(tasks, i + 1, trip, w1) else [])
    + if tasks[i].cleanup.Some? then [(i, session)] else []
  }

  ghost predicate AllHandled<W, S>(tasks: seq<Behaviour<W, S>>, i: nat, trip: Trip<W, S>, w: W)
    requires i < |tasks|
  {
    forall k :: i <= k < i + Visited(tasks, i, trip, w) && tasks[k].cleanup.Some? ==> Handles(tasks[k], trip)
  }

  lemma {:induction false} VisitedWithoutSession<W, S>(tasks: seq<Behaviour<W, S>>, i: nat, trip: Trip<W, S>,
                                                      junk: nat -> S, w: W)
    requires i < |tasks|
    ensures Visited(tasks, i, trip.(junk := junk), w) == Visited(tasks, i, trip, w)
    ensures AllHandled(tasks, i, trip, w) ==> Given(tasks, i, trip.(junk := junk), w) == Given(tasks, i, trip, w)
    decreases |tasks| - i
  {
    var w1 := AfterHandle(tasks[i], i, trip, w).0;
    if Visited(tasks, i, trip, w) > 1 || Visited(tasks, i, trip.(junk := junk), w) > 1 {
      VisitedWithoutSession(tasks, i + 1, trip, junk, w1);
    }
  }

  /** The cleanup of a skipped task is given what nobody set. */
  lemma {:induction false} SkippedTaskIsGivenJunk<W, S>(tasks: seq<Behaviour<W, S>>, i: nat, trip: Trip<W, S>, w: W,
                                                       k: nat, session: S)
    requires i < |tasks| && i <= k < i + Visited(tasks, i, trip, w)
    requires tasks[k].cleanup.Some? && !Handles(tasks[k], trip)
    ensures (k, session) in Given(tasks, i, trip, w) <==> session == trip.junk(k)
    decreases |tasks| - i
  {
    var w1 := AfterHandle(tasks[i], i, trip, w).0;
    if k > i {
      SkippedTaskIsGivenJunk(tasks, i + 1, trip, w1, k, session);
    } else if Visited(tasks, i, trip, w) > 1 {
      GivenLater(tasks, i + 1, trip, w1, i, session);
    }
  }

  lemma {:induction false} GivenLater<W, S>(tasks: seq<Behaviour<W, S>>, i: nat, trip: Trip<W, S>, w: W, k: nat,
      session: S)
    requires k < i < |tasks|
    ensures (k, session) !in Given(tasks, i, trip, w)
    decreases |tasks| - i
  {
    if Visited(tasks, i, trip, w) > 1 {
      GivenLater(tasks, i + 1, trip, AfterHandle(tasks[i], i, trip, w).0, k, session);
    }
  }

  /** The exact condition: what the cleanups are given is the same whatever the session data held before, if
      and only if every visited task with a cleanup was handled. There are two different session data a and b. */
  lemma {:induction false} SessionsAreSetIff<W, S(!new)>(tasks: seq<Behaviour<W, S>>, trip: Trip<W, S>, w: W, a: S,
      b: S)
    requires tasks != [] && a != b
    ensures (forall junk: nat -> S :: Given(tasks, 0, trip.(junk := junk), w) == Given(tasks, 0, trip, w)) <==>
            AllHandled(tasks, 0, trip, w)
  {
    if AllHandled(tasks, 0, trip, w) {
      forall junk: nat -> S ensures Given(tasks, 0, trip.(junk := junk), w) == Given(tasks, 0, trip, w) {
        VisitedWithoutSession(tasks, 0, trip, junk, w);
      }
    } else {
      var k: nat :| k < Visited(tasks, 0, trip, w) && tasks[k].cleanup.Some? && !Handles(tasks[k], trip);
      var other := if trip.junk(k) == a then b else a;
      var junk: nat -> S := _ => other;
      VisitedWithoutSession(tasks, 0, trip, junk, w);
      SkippedTaskIsGivenJunk(tasks, 0, trip, w, k, other);
      SkippedTaskIsGivenJunk(tasks, 0, trip.(junk := junk), w, k, other);
    }
  }

  lemma ShiftStop<W, S>(tasks: seq<Behaviour<W, S>>, i: nat, m: nat, trip: Trip<W, S>, w: W)
    requires 0 < m && i + 1 + m <= |tasks|
    ensures StopsAt(tasks, i, m + 1, trip, w) <==> StopsAt(tasks, i + 1, m, trip, AfterHandle(tasks[i], i, trip, w).0)
  {
  }

  // ------------------------------------------------------------------------------------ the linked list

  class Task<W, S> {
    const position: nat
    const behaviour: Behaviour<W, S>
    var prev: Task?<W, S>
    var next: Task?<W, S>

    constructor (position: nat, behaviour: Behaviour<W, S>)
      ensures this.position == position && this.behaviour == behaviour && prev == null && next == null
    {
      this.position, this.behaviour, prev, next := position, behaviour, null, null;
    }
  }

  ghost function At<W, S>(s: seq<Task<W, S>>, i: int): Task?<W, S> {
    if 0 <= i < |s| then s[i] else null
  }

  /** The next pointers lead from first through the tasks of s. */
  ghost predicate Chain<W, S>(first: Task?<W, S>, s: seq<Task<W, S>>)
    reads s
  {
    && first == At(s, 0)
    && (forall i {:trigger s[i].next} :: 0 <= i < |s| ==> s[i].next == At(s, i + 1))
    && NoDuplicates(s)
  }

  ghost predicate Backward<W, S>(s: seq<Task<W, S>>)
    reads s
  {
    forall i {:trigger s[i].prev} :: 0 <= i < |s| ==> s[i].prev == At(s, i - 1)
  }

  ghost function Behaviours<W, S>(s: seq<Task<W, S>>): seq<Behaviour<W, S>> {
    seq(|s|, i requires 0 <= i < |s| => s[i].behaviour)
  }

  lemma InsertedNext<W, S>(first: Task?<W, S>, s: seq<Task<W, S>>, task: Task<W, S>, k: nat, r: seq<Task<W, S>>)
    requires IsWith(r, s, task, k) && NoDuplicates(r)
    requires forall i {:trigger s[i].next} :: 0 <= i < |s| && i != k - 1 ==> s[i].next == At(s, i + 1)
    requires if k == 0 then first == task else first == s[0] && s[k - 1].next == task
    requires task.next == At(s, k)
    ensures Chain(first, r)
  {
    assert r[k] == task;
    forall i | 0 <= i < |r| ensures r[i].next == At(r, i + 1) {
      if i != k { assert r[i].next == s[if i < k then i else i - 1].next; }
      if i + 1 < |r| { assert r[i + 1] == if i + 1 < k then s[i + 1] else if i + 1 == k then task else s[i]; }
    }
  }

  lemma InsertedPrev<W, S>(s: seq<Task<W, S>>, task: Task<W, S>, k: nat, r: seq<Task<W, S>>)
    requires IsWith(r, s, task, k)
    requires forall i {:trigger s[i].prev} :: 0 <= i < |s| && i != k ==> s[i].prev == At(s, i - 1)
    requires task.prev == At(s, k - 1)
    requires k < |s| ==> s[k].prev == if k == 0 then null else task
    ensures Backward(r) <==> k > 0 || s == []
  {
    assert r[k] == task;
    if k == 0 && s != [] {
      assert r[1] == s[0];
    } else {
      forall i | 0 <= i < |r| ensures r[i].prev == At(r, i - 1) {
        if i != k { assert r[i].prev == s[if i < k then i else i - 1].prev; }
        if i > 0 { assert r[i - 1] == if i - 1 < k then s[i - 1] else if i - 1 == k then task else s[i - 2]; }
      }
    }
  }

  class TaskList<W, S> {
    var tasks: Task?<W, S>

    /** crtx_add_task(): the task goes in front of the first task with a greater position, after all tasks
        with the same position. The prev pointers stay the inverse of the next pointers unless the task
        becomes the new head of a list that was not empty. */
    method AddTask(task: Task<W, S>, ghost s: seq<Task<W, S>>) returns (ghost k: nat)
      requires Chain(tasks, s) && task !in s
      modifies this, s, task`next, task`prev
      ensures k <= |s|
      ensures forall i :: 0 <= i < k ==> s[i].position <= task.position
      ensures k < |s| ==> s[k].position > task.position
      ensures Chain(tasks, Inserted(s, task, k))
      ensures old(Backward(s)) ==> (Backward(Inserted(s, task, k)) <==> k > 0 || s == [])
    {
      k := 0;
      if tasks == null {
        tasks := task;
        task.prev := null;
        task.next := null;
      } else {
        var previous: Task?<W, S> := null;
        var ti := tasks;
        while ti != null && !(task.position < ti.position)
          invariant 0 <= k <= |s| && ti == At(s, k) && previous == At(s, k - 1)
          invariant forall i :: 0 <= i < k ==> s[i].position <= task.position
          decreases |s| - k
        {
          previous := ti;
          ti := ti.next;
          k := k + 1;
        }
        if k > 0 { Distinct(s, k - 1); }
        if k < |s| { Distinct(s, k); }
        if ti != null {
          if previous != null {
            task.next := previous.next;
            previous.next := task;
            task.prev := previous;
            task.next.prev := task;
          } else {
            task.next := tasks;
            task.prev := null;
            tasks := task;
          }
        } else {
          task.next := previous.next;
          previous.next := task;
          task.prev := previous;
        }
      }
      InsertedElements(s, task, k);
      InsertedNext(tasks, s, task, k, Inserted(s, task, k));
      if old(Backward(s)) { InsertedPrev(s, task, k, Inserted(s, task, k)); }
    }
  }

  /** The order in which tasks stand that were added to an empty graph with the given positions: each task
      is named by its place in the order of the additions. */
  ghost function Order(added: seq<nat>): seq<int>
  {
    if added == [] then []
    else
      var before := Order(added[..|added| - 1]);
      Inserted(before, |added| - 1, Place(before, added[..|added| - 1], added[|added| - 1]))
  }

  /** The first task with a position above p. */
  ghost function Place(order: seq<int>, added: seq<nat>, p: nat): (k: nat)
    ensures k <= |order|
  {
    if order == [] || (0 <= order[0] < |added| && added[order[0]] > p) then 0 else 1 + Place(order[1..], added, p)
  }

  lemma {:induction false} PlaceIsFirstAbove(order: seq<int>, added: seq<nat>, p: nat)
    requires forall i :: 0 <= i < |order| ==> 0 <= order[i] < |added|
    ensures var k := Place(order, added, p);
            (forall i :: 0 <= i < k ==> added[order[i]] <= p) && (k < |order| ==> added[order[k]] > p)
  {
    if Place(order, added, p) > 0 {
      PlaceIsFirstAbove(order[1..], added, p);
      assert forall i :: 0 < i < |order| ==> order[i] == order[1..][i - 1];
    }
  }

  /** Task x belongs in front of task y. */
  ghost predicate Precedes(added: seq<nat>, x: int, y: int) {
    0 <= x < |added| && 0 <= y < |added| && (added[x] < added[y] || (added[x] == added[y] && x < y))
  }

  ghost predicate StablySorted(added: seq<nat>, order: seq<int>) {
    && (forall i :: 0 <= i < |order| ==> 0 <= order[i] < |added|)
    && (forall i, j :: 0 <= i < j < |order| ==> Precedes(added, order[i], order[j]))
  }

  lemma InsertionKeepsOrder(added: seq<nat>, before: seq<int>, p: nat, k: nat, order: seq<int>)
    requires StablySorted(added, before) && IsWith(order, before, |added|, k)
    requires forall i :: 0 <= i < k ==> added[before[i]] <= p
    requires k < |before| ==> added[before[k]] > p
    ensures StablySorted(added + [p], order)
  {
    forall i, j | 0 <= i < j < |order| ensures Precedes(added + [p], order[i], order[j]) {
      if i == k && j > k + 1 { assert Precedes(added, before[k], before[j - 1]); }
      if i != k && j != k {
        assert Precedes(added, before[if i < k then i else i - 1], before[if j < k then j else j - 1]);
      }
    }
  }

  lemma SortedHasNoDuplicates(added: seq<nat>, order: seq<int>)
    requires StablySorted(added, order)
    ensures NoDuplicates(order)
    decreases |order|
  {
    if order != [] {
      forall j | 0 < j < |order| ensures order[j] != order[0] {
        assert Precedes(added, order[0], order[j]);
      }
      SortedHasNoDuplicates(added, order[1..]);
    }
  }

  /** The list is a stable sort of the added tasks: every task is in it once, ordered by position and, for
      the same position, by the order of the additions. */
  lemma {:induction false} TasksAreSortedStably(added: seq<nat>)
    ensures |Order(added)| == |added| && StablySorted(added, Order(added))
  {
    if added != [] {
      TasksAreSortedStably(added[..|added| - 1]);
      AdditionKeepsOrder(added[..|added| - 1], Order(added[..|added| - 1]), added[|added| - 1]);
      assert added[..|added| - 1] + [added[|added| - 1]] == added;
    }
  }

  lemma AdditionKeepsOrder(added: seq<nat>, before: seq<int>, p: nat)
    requires StablySorted(added, before)
    ensures StablySorted(added + [p], Inserted(before, |added|, Place(before, added, p)))
  {
    var k := Place(before, added, p);
    SortedHasNoDuplicates(added, before);
    PlaceIsFirstAbove(before, added, p);
    InsertedElements(before, |added|, k);
    InsertionKeepsOrder(added, before, p, k, Inserted(before, |added|, k));
  }

  ghost function Positions<W, S>(added: seq<Task<W, S>>): seq<nat> {
    seq(|added|, i requires 0 <= i < |added| => added[i].position)
  }

  /** r lists the added tasks that order names. */
  ghost predicate Named<W, S>(r: seq<Task<W, S>>, added: seq<Task<W, S>>, order: seq<int>) {
    |r| == |order| && forall i {:trigger order[i]} :: 0 <= i < |r| ==>
        0 <= order[i] < |added| && r[i] == added[order[i]]
  }

  lemma PlaceIsOnlyOne(order: seq<int>, added: seq<nat>, p: nat, k: nat)
    requires k <= |order| && forall i :: 0 <= i < |order| ==> 0 <= order[i] < |added|
    requires forall i :: 0 <= i < k ==> added[order[i]] <= p
    requires k < |order| ==> added[order[k]] > p
    ensures k == Place(order, added, p)
  {
    PlaceIsFirstAbove(order, added, p);
  }

  lemma NamedAfterInsertion<W, S>(r: seq<Task<W, S>>, added: seq<Task<W, S>>, order: seq<int>, n: nat, k: nat)
    requires Named(r, added, order) && k <= |r| && n < |added| && NoDuplicates(r) && NoDuplicates(order)
    requires added[n] !in r && n !in order
    ensures Named(Inserted(r, added[n], k), added, Inserted(order, n, k))
  {
    InsertedElements(r, added[n], k);
    InsertedElements(order, n, k);
    var r', o' := Inserted(r, added[n], k), Inserted(order, n, k);
    forall i | 0 <= i < |r'| ensures 0 <= o'[i] < |added| && r'[i] == added[o'[i]] {
      if i != k { assert o'[i] == order[if i < k then i else i - 1]; }
    }
  }

  lemma BeforeAddition<W, S>(r: seq<Task<W, S>>, added: seq<Task<W, S>>, n: nat)
    requires NoDuplicates(added) && n < |added| && Named(r, added, Order(Positions(added)[..n]))
    ensures NoDuplicates(Order(Positions(added)[..n])) && n !in Order(Positions(added)[..n])
    ensures added[n] !in r && forall i :: 0 <= i < |r| ==> r[i] in added
  {
    var order := Order(Positions(added)[..n]);
    TasksAreSortedStably(Positions(added)[..n]);
    SortedHasNoDuplicates(Positions(added)[..n], order);
    Distinct(added, n);
    forall i | 0 <= i < |r| ensures r[i] != added[n] && r[i] in added {
      assert r[i] == added[order[i]] && order[i] < n;
    }
  }

  lemma AfterAddition<W, S>(r: seq<Task<W, S>>, added: seq<Task<W, S>>, n: nat, k: nat)
    requires NoDuplicates(added) && n < |added| && Named(r, added, Order(Positions(added)[..n])) && NoDuplicates(r)
    requires k <= |r| && forall i :: 0 <= i < k ==> r[i].position <= added[n].position
    requires k < |r| ==> r[k].position > added[n].position
    ensures Named(Inserted(r, added[n], k), added, Order(Positions(added)[..n + 1]))
  {
    var before, p := Positions(added)[..n], added[n].position;
    var order := Order(before);
    BeforeAddition(r, added, n);
    TasksAreSortedStably(before);
    forall i | 0 <= i < |order| ensures before[order[i]] == r[i].position {
      assert r[i] == added[order[i]];
    }
    PlaceIsOnlyOne(order, before, p, k);
    NamedAfterInsertion(r, added, order, n, k);
    OrderOfOneMore(Positions(added), n);
  }

  lemma OrderOfOneMore(ps: seq<nat>, n: nat)
    requires n < |ps|
    ensures Order(ps[..n + 1]) == Inserted(Order(ps[..n]), n, Place(Order(ps[..n]), ps[..n], ps[n]))
  {
    assert ps[..n + 1][..n] == ps[..n];
  }

  /** Adding tasks one after the other to an empty list: the list consists of the added tasks in the order that
      Order gives for their positions. */
  method AddAll<W, S>(list: TaskList<W, S>, added: seq<Task<W, S>>) returns (ghost r: seq<Task<W, S>>)
    requires list.tasks == null && NoDuplicates(added)
    modifies list, added
    ensures Chain(list.tasks, r) && Named(r, added, Order(Positions(added)))
  {
    r := [];
    for n := 0 to |added|
      invariant Chain(list.tasks, r) && Named(r, added, Order(Positions(added)[..n]))
    {
      BeforeAddition(r, added, n);
      ghost var k := list.AddTask(added[n], r);
      InsertedElements(r, added[n], k);
      AfterAddition(r, added, n, k);
      r := Inserted(r, added[n], k);
    }
    assert Positions(added)[..|added|] == Positions(added);
  }

  /** traverse_graph_r() along the pointers of the list. */
  method Traverse<W, S>(ti: Task<W, S>, trip: Trip<W, S>, w: W, ghost s: seq<Task<W, S>>, i: nat)
    returns (after: W, calls: seq<Call>)
    requires i < |s| && ti == s[i] && Chain(s[0], s)
    ensures after == Walk(Behaviours(s), i, trip, w).0 && calls == Walk(Behaviours(s), i, trip, w).1
    decreases |s| - i
  {
    ghost var b := Behaviours(s)[i];
    var session, keepGoing := trip.junk(i), true;
    var inner: seq<Call> := [];
    after, calls := w, [];
    assert ti.next == s[i].next == At(s, i + 1);
    if ti.behaviour.handle.Some? && (ti.behaviour.match_.None? || ti.behaviour.match_.value == trip.description) {
      var result := ti.behaviour.handle.value(after);
      after, session, keepGoing := result.0, result.1, result.2;
      calls := [Handle(i)];
    }
    assert (after, session, keepGoing) == AfterHandle(b, i, trip, w) && calls == HandleCall(b, i, trip);
    if ti.next != null && (!trip.responded(after) || keepGoing || trip.keepGoing) {
      after, inner := Traverse(ti.next, trip, after, s, i + 1);
    }
    calls := calls + inner;
    if ti.behaviour.cleanup.Some? {
      after := ti.behaviour.cleanup.value(after, session);
      calls := calls + [Cleanup(i)];
    }
  }
}
