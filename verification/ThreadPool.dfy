/** The hand-off of jobs to pool threads (src/threads.c) while no thread is told to stop. Each step is one
    critical section or one access to a shared field; clients and threads interleave in any order. */
module ThreadPool {
  import opened Wrappers
  import opened Runs

  /** Where a pool thread stands in crtx_thread_tmain(), named by what it does next. */
  datatype Pc = WaitForStart | InJob | SendFinished | OnFinish | CheckRefs | ClearFinished | ReturnToPool

  /** The field owner is not in the program: it names the client that took the thread. */
  datatype Thread =
    Thread(pc: Pc, inUse: bool, job: Option<nat>, start: bool, finished: bool, refs: nat, owner: Option<nat>)

  datatype Phase = Fresh | Took | Assigned | Started

  /** A client hands over one job, which has the client's number: how far it is, on which thread, whether it
      holds a reference on the finished signal, how often its job was called and returned, and whether its
      wait for the end returned. */
  datatype Client = Client(phase: Phase, thread: nat, ref: bool, called: nat, ended: nat, waited: bool)

  datatype Pool = Pool(threads: seq<Thread>, clients: seq<Client>)

  datatype Action = GetThread(c: nat) | AssignJob(c: nat) | Reference(c: nat) | StartJob(c: nat)
                  | WaitReturns(c: nat) | Dereference(c: nat) | Step(t: nat)

  function Initial(clients: nat): Pool {
    Pool([], seq(clients, _ => Client(Fresh, 0, false, 0, 0, false)))
  }

  function FirstFree(ts: seq<Thread>): (i: nat)
    ensures i <= |ts|
    ensures i < |ts| ==> !ts[i].inUse
  {
    if ts == [] || !ts[0].inUse then 0 else 1 + FirstFree(ts[1..])
  }

  const SPAWNED := Thread(WaitForStart, false, None, false, false, 0, None)

  function SetThread(p: Pool, t: nat, th: Thread): Pool
    requires t < |p.threads|
  {
    p.(threads := p.threads[t := th])
  }

  function SetClient(p: Pool, c: nat, cl: Client): Pool
    requires c < |p.clients|
  {
    p.(clients := p.clients[c := cl])
  }

  /** get_thread_intern(): under the pool lock, the first unused thread or a new one. */
  function Take(p: Pool, c: nat): Pool
    requires c < |p.clients|
  {
    var t := FirstFree(p.threads);
    var q := if t < |p.threads| then p else p.(threads := p.threads + [SPAWNED]);
    var taken := SetThread(q, t, q.threads[t].(inUse := true, owner := Some(c)));
    SetClient(taken, c, p.clients[c].(phase := Took, thread := t))
  }

  function ClientStep(p: Pool, c: nat, a: Action): Option<Pool>
    requires c < |p.clients| && p.clients[c].thread < |p.threads|
  {
    var cl := p.clients[c];
    var t := cl.thread;
    var th := p.threads[t];
    match a
    case AssignJob(_) =>
      if cl.phase != Took then None
      else Some(SetClient(SetThread(p, t, th.(job := Some(c))), c, cl.(phase := Assigned)))
    case Reference(_) =>
      if cl.phase != Assigned || cl.ref then None
      else Some(SetClient(SetThread(p, t, th.(refs := th.refs + 1)), c, cl.(ref := true)))
    case StartJob(_) =>
      if cl.phase != Assigned then None
      else Some(SetClient(SetThread(p, t, th.(start := true)), c, cl.(phase := Started)))
    case WaitReturns(_) =>
      if cl.phase != Started || !th.finished then None
      else Some(SetClient(p, c, cl.(waited := true)))
    case Dereference(_) =>
      if cl.phase != Started || !cl.ref then None
      else Some(SetClient(SetThread(p, t, th.(refs := if th.refs == 0 then 0 else th.refs - 1)), c, cl.(ref := false)))
    case _ => None
  }

  function ThreadStep(p: Pool, t: nat): Option<Pool>
    requires t < |p.threads|
  {
    var th := p.threads[t];
    match th.pc
    case WaitForStart =>
      if !th.start || th.job.None? || th.job.value >= |p.clients| then None
      else
        var j := th.job.value;
        Some(SetClient(SetThread(p, t, th.(pc := InJob)), j, p.clients[j].(called := p.clients[j].called + 1)))
    case InJob =>
      if th.job.None? || th.job.value >= |p.clients| then None
      else
        var j := th.job.value;
        Some(SetClient(SetThread(p, t, th.(pc := SendFinished)), j, p.clients[j].(ended := p.clients[j].ended + 1)))
    case SendFinished => Some(SetThread(p, t, th.(pc := OnFinish, finished := true)))
    case OnFinish => Some(SetThread(p, t, th.(pc := CheckRefs)))
    case CheckRefs => if th.refs > 0 then None else Some(SetThread(p, t, th.(pc := ClearFinished)))
    case ClearFinished => Some(SetThread(p, t, th.(pc := ReturnToPool, finished := false)))
    case ReturnToPool =>
      Some(SetThread(p, t, th.(pc := WaitForStart, start := false, inUse := false, job := None, owner := None)))
  }

  function Next(p: Pool, a: Action): Option<Pool> {
    match a
    case Step(t) => if t < |p.threads| then ThreadStep(p, t) else None
    case GetThread(c) => if c < |p.clients| && p.clients[c].phase == Fresh then Some(Take(p, c)) else None
    case _ => if a.c < |p.clients| && p.clients[a.c].thread < |p.threads| then ClientStep(p, a.c, a) else None
  }

  // ------------------------------------------------------------------------------------- the invariant

  /** A thread that nobody took is as good as new. */
  ghost predicate Idle(th: Thread) {
    th.pc == WaitForStart && th.job.None? && !th.start && !th.finished && th.refs == 0 && th.owner.None?
  }

  /** A taken thread and the client that took it. */
  ghost predicate Serves(th: Thread, cl: Client, c: nat) {
    && th.refs == (if cl.ref then 1 else 0)
    && th.job == (if cl.phase == Took then None else Some(c))
    && th.start == (cl.phase == Started)
    && th.finished == (th.pc in {OnFinish, CheckRefs, ClearFinished})
    && (th.pc in {ClearFinished, ReturnToPool} ==> !cl.ref)
    && (th.pc != WaitForStart ==> cl.phase == Started)
    && cl.called == (if th.pc == WaitForStart then 0 else 1)
    && cl.ended == (if th.pc in {WaitForStart, InJob} then 0 else 1)
    && (cl.waited ==> cl.ended == 1)
  }

  ghost predicate ThreadOk(p: Pool, t: nat)
    requires t < |p.threads|
  {
    var th := p.threads[t];
    if !th.inUse then Idle(th)
    else
      && th.owner.Some? && th.owner.value < |p.clients|
      && p.clients[th.owner.value].phase != Fresh && p.clients[th.owner.value].thread == t
      && Serves(th, p.clients[th.owner.value], th.owner.value)
  }

  /** The client's thread still works for it. */
  ghost predicate Owns(p: Pool, c: nat)
    requires c < |p.clients|
  {
    p.clients[c].thread < |p.threads| && p.threads[p.clients[c].thread].owner == Some(c)
  }

  ghost predicate ClientOk(p: Pool, c: nat)
    requires c < |p.clients|
  {
    var cl := p.clients[c];
    match cl.phase
    case Fresh => cl.called == cl.ended == 0 && !cl.ref && !cl.waited
    case Took => Owns(p, c) && !cl.ref
    case Assigned => Owns(p, c)
    case Started => cl.thread < |p.threads| && (Owns(p, c) || (cl.called == cl.ended == 1 && !cl.ref))
  }

  ghost predicate Inv(p: Pool) {
    && (forall t {:trigger p.threads[t]} :: 0 <= t < |p.threads| ==> ThreadOk(p, t))
    && (forall c {:trigger p.clients[c]} :: 0 <= c < |p.clients| ==> ClientOk(p, c))
  }

  /** A step that touches only thread t and its client c has to be checked only there. */
  lemma LocalStep(p: Pool, q: Pool, t: nat, c: nat)
    requires Inv(p) && t < |p.threads| == |q.threads| && c < |p.clients| == |q.clients|
    requires q == Pool(p.threads[t := q.threads[t]], p.clients[c := q.clients[c]])
    requires p.threads[t].owner == Some(c) && q.threads[t].owner in {Some(c), None}
    requires ThreadOk(q, t) && ClientOk(q, c)
    ensures Inv(q)
  {
    forall x | 0 <= x < |q.threads| ensures ThreadOk(q, x) {
      if x != t { assert q.threads[x] == p.threads[x] && ThreadOk(p, x) && ThreadOk(p, t); }
    }
    forall d | 0 <= d < |q.clients| ensures ClientOk(q, d) {
      if d != c { assert q.clients[d] == p.clients[d] && ClientOk(p, d) && ThreadOk(p, t); }
    }
  }

  lemma InitialOk(clients: nat)
    ensures Inv(Initial(clients))
  {
    var p := Initial(clients);
    forall c | 0 <= c < |p.clients| ensures ClientOk(p, c) {
      assert p.clients[c] == Client(Fresh, 0, false, 0, 0, false);
    }
  }

  lemma TakeKeeps(p: Pool, c: nat)
    requires Inv(p) && c < |p.clients| && p.clients[c].phase == Fresh
    ensures Inv(Take(p, c))
  {
    var t := FirstFree(p.threads);
    var q := Take(p, c);
    assert ClientOk(p, c);
    if t < |p.threads| { assert ThreadOk(p, t); }
    forall x | 0 <= x < |q.threads| ensures ThreadOk(q, x) {
      if x != t { assert q.threads[x] == p.threads[x] && ThreadOk(p, x); }
    }
    forall d | 0 <= d < |q.clients| ensures ClientOk(q, d) {
      if d != c { assert q.clients[d] == p.clients[d] && ClientOk(p, d); }
    }
  }

  lemma ClientStepKeeps(p: Pool, c: nat, a: Action)
    requires Inv(p) && c < |p.clients| && p.clients[c].thread < |p.threads| && ClientStep(p, c, a).Some?
    ensures Inv(ClientStep(p, c, a).value)
  {
    var t, q := p.clients[c].thread, ClientStep(p, c, a).value;
    assert ClientOk(p, c) && ThreadOk(p, t);
    if p.threads[t].owner == Some(c) {
      LocalStep(p, q, t, c);
    } else {
      assert a.WaitReturns? && q.threads == p.threads;
      forall x | 0 <= x < |q.threads| ensures ThreadOk(q, x) { assert ThreadOk(p, x); }
      forall d | 0 <= d < |q.clients| ensures ClientOk(q, d) { assert ClientOk(p, d); }
    }
  }

  lemma ThreadStepKeeps(p: Pool, t: nat)
    requires Inv(p) && t < |p.threads| && ThreadStep(p, t).Some?
    ensures Inv(ThreadStep(p, t).value)
  {
    var th, q := p.threads[t], ThreadStep(p, t).value;
    assert ThreadOk(p, t) && th.owner.Some?;
    var c := th.owner.value;
    assert ClientOk(p, c);
    LocalStep(p, q, t, c);
  }

  lemma Reachable(n: nat, acts: seq<Action>, p: Pool)
    requires Play(Next, Initial(n), acts) == Some(p)
    ensures Inv(p)
  {
    forall x, a | Inv(x) && Next(x, a).Some? ensures Inv(Next(x, a).value) {
      StepKeeps(x, a);
    }
    InitialOk(n);
    Invariant(Next, x => Inv(x), Initial(n), acts);
  }

  // ------------------------------------------------------------------------------------- what follows

  /** The client holds a thread whose work for it is not over. */
  ghost predicate Busy(p: Pool, c: nat)
    requires c < |p.clients|
  {
    p.clients[c].phase != Fresh && p.clients[c].ended == 0
  }

  ghost predicate Untouched(th: Thread) {
    th.pc == WaitForStart && th.job.None? && !th.start && !th.finished && th.refs == 0
  }

  /** No thread holds two jobs: clients with unfinished jobs have different threads, and a client finds the
      thread that it took without a job, a pending start or end signal, or a reference of someone else. */
  lemma NoThreadHoldsTwoJobs(n: nat, acts: seq<Action>, p: Pool, c: nat, d: nat)
    requires Play(Next, Initial(n), acts) == Some(p) && c < |p.clients| && d < |p.clients| && c != d
    ensures Busy(p, c) && Busy(p, d) ==> p.clients[c].thread != p.clients[d].thread
    ensures p.clients[c].phase == Took ==>
        p.clients[c].thread < |p.threads| && Untouched(p.threads[p.clients[c].thread])
  {
    Reachable(n, acts, p);
    assert ClientOk(p, c) && ClientOk(p, d);
    if p.clients[c].phase == Took { assert ThreadOk(p, p.clients[c].thread); }
  }

  /** A job is called at most once, only after its client started it, and returns at most once. */
  lemma JobsRunAtMostOnce(n: nat, acts: seq<Action>, p: Pool, c: nat)
    requires Play(Next, Initial(n), acts) == Some(p) && c < |p.clients|
    ensures p.clients[c].ended <= p.clients[c].called <= if p.clients[c].phase == Started then 1 else 0
  {
    Reachable(n, acts, p);
    assert ClientOk(p, c);
    if Owns(p, c) { assert ThreadOk(p, p.clients[c].thread); }
  }

  /** A thread that sees the start signal while it waits has a job, which was started and not called yet. */
  lemma NoStaleStart(n: nat, acts: seq<Action>, p: Pool, t: nat)
    requires Play(Next, Initial(n), acts) == Some(p) && t < |p.threads|
    requires p.threads[t].pc == WaitForStart && p.threads[t].start
    ensures p.threads[t].job.Some? && p.threads[t].job.value < |p.clients|
    ensures var cl := p.clients[p.threads[t].job.value]; cl.phase == Started && cl.thread == t && cl.called == 0
  {
    Reachable(n, acts, p);
    assert ThreadOk(p, t);
  }

  /** A client with a reference cannot miss the end of its job: while it holds the reference, its thread stays
      with it, and the end signal is set as soon as the thread has sent it and stays set. */
  lemma ReferencedClientCannotMiss(n: nat, acts: seq<Action>, p: Pool, c: nat)
    requires Play(Next, Initial(n), acts) == Some(p) && c < |p.clients|
    requires p.clients[c].ref && p.clients[c].ended > 0
    ensures p.clients[c].thread < |p.threads|
    ensures var th := p.threads[p.clients[c].thread];
            th.job == Some(c) && th.inUse && (th.finished || th.pc == SendFinished)
  {
    Reachable(n, acts, p);
    assert ClientOk(p, c);
    assert ThreadOk(p, p.clients[c].thread);
  }

  /** A started client, with or without a reference, whose wait returns has had its own job completed. */
  lemma WaitReturnsAfterOwnJob(n: nat, acts: seq<Action>, p: Pool, c: nat)
    requires Play(Next, Initial(n), acts) == Some(p) && c < |p.clients|
    ensures p.clients[c].waited ==> p.clients[c].ended == 1
  {
    Reachable(n, acts, p);
    assert ClientOk(p, c);
    if Owns(p, c) { assert ThreadOk(p, p.clients[c].thread); }
  }

  /** The client took the thread and has not started its job yet. */
  ghost predicate Prepares(p: Pool, c: nat, t: nat)
    requires c < |p.clients|
  {
    p.clients[c].thread == t && p.clients[c].phase in {Took, Assigned}
  }

  /** A thread is held up only by a missing start signal, which only an idle thread or one whose client is
      still preparing lacks, or by the reference of the client it works for. */
  lemma ThreadIsHeldUpOnlyByItsClient(n: nat, acts: seq<Action>, p: Pool, t: nat)
    requires Play(Next, Initial(n), acts) == Some(p) && t < |p.threads|
    ensures ThreadStep(p, t).None? <==>
            var th := p.threads[t];
            || (th.pc == WaitForStart && !th.start)
            || (th.pc == CheckRefs && th.job.Some? && th.job.value < |p.clients| && p.clients[th.job.value].ref)
    ensures p.threads[t].pc == WaitForStart && !p.threads[t].start ==>
              !p.threads[t].inUse || exists c {:trigger p.clients[c]} :: 0 <= c < |p.clients| && Prepares(p, c, t)
  {
    Reachable(n, acts, p);
    assert ThreadOk(p, t);
  }

  // --------------------------------------------------------------------- nothing holds a client up

  /** What a client can do depends only on how far it is, except that its wait needs the end signal. */
  lemma ClientsAreNotHeldUp(n: nat, acts: seq<Action>, p: Pool, c: nat)
    requires Play(Next, Initial(n), acts) == Some(p) && c < |p.clients|
    ensures var cl := p.clients[c];
            && (Next(p, GetThread(c)).Some? <==> cl.phase == Fresh)
            && (Next(p, AssignJob(c)).Some? <==> cl.phase == Took)
            && (Next(p, Reference(c)).Some? <==> cl.phase == Assigned && !cl.ref)
            && (Next(p, StartJob(c)).Some? <==> cl.phase == Assigned)
            && (Next(p, Dereference(c)).Some? <==> cl.phase == Started && cl.ref)
            && (Next(p, WaitReturns(c)).Some? <==>
                  cl.phase == Started && cl.thread < |p.threads| && p.threads[cl.thread].finished)
  {
    Reachable(n, acts, p);
    assert ClientOk(p, c);
  }

  /** A client takes the first thread that is not in use; a new one is spawned if and only if all are in use. */
  lemma SpawnsIffAllInUse(p: Pool, c: nat)
    requires c < |p.clients| && p.clients[c].phase == Fresh
    ensures var q := Next(p, GetThread(c)).value;
            var t := q.clients[c].thread;
            && q.clients[c].phase == Took && t < |q.threads| && q.threads[t].inUse
            && (forall x :: 0 <= x < t ==> p.threads[x].inUse)
            && (if forall x :: 0 <= x < |p.threads| ==> p.threads[x].inUse
                then |q.threads| == |p.threads| + 1 && t == |p.threads|
                else |q.threads| == |p.threads| && !p.threads[t].inUse)
  {
    FirstFreeIsFirst(p.threads);
  }

  lemma {:induction false} FirstFreeIsFirst(ts: seq<Thread>)
    ensures forall x :: 0 <= x < FirstFree(ts) ==> ts[x].inUse
  {
    if ts != [] && ts[0].inUse { FirstFreeIsFirst(ts[1..]); }
  }

  /** The wait of a client with a reference returns: once its job has returned, either at once or after the next
      step of its thread, which nothing holds up. */
  lemma ReferencedClientsWaitReturns(n: nat, acts: seq<Action>, p: Pool, c: nat)
    requires Play(Next, Initial(n), acts) == Some(p) && c < |p.clients|
    requires p.clients[c].ref && p.clients[c].ended > 0 && p.clients[c].phase == Started
    ensures || Next(p, WaitReturns(c)).Some?
            || var q := Next(p, Step(p.clients[c].thread)); q.Some? && Next(q.value, WaitReturns(c)).Some?
  {
    Reachable(n, acts, p);
    assert ClientOk(p, c);
    assert ThreadOk(p, p.clients[c].thread);
  }

  /** The thread of the client goes on without anybody else, until the job has run and the wait returns. */
  ghost predicate Completes(p: Pool, c: nat, more: seq<Action>) {
    && c < |p.clients| && (forall k :: 0 <= k < |more| ==> more[k] == Step(p.clients[c].thread))
    && Play(Next, p, more).Some?
    && var q := Play(Next, p, more).value;
       c < |q.clients| && q.clients[c].called == q.clients[c].ended == 1 && Next(q, WaitReturns(c)).Some?
  }

  /** Steps until the end signal is sent. */
  function StepsToSignal(pc: Pc): nat {
    match pc case WaitForStart => 3 case InJob => 2 case SendFinished => 1 case _ => 0
  }

  lemma {:induction false} ThreadRunsToSignal(p: Pool, c: nat) returns (more: seq<Action>)
    requires Inv(p) && c < |p.clients| && p.clients[c].phase == Started && p.clients[c].ref
    ensures Completes(p, c, more)
    decreases StepsToSignal(if p.clients[c].thread < |p.threads| then p.threads[p.clients[c].thread].pc else OnFinish)
  {
    var t := p.clients[c].thread;
    assert ClientOk(p, c) && ThreadOk(p, t);
    more := [];
    if p.threads[t].pc in {WaitForStart, InJob, SendFinished} {
      ThreadStepKeeps(p, t);
      var q := Next(p, Step(t)).value;
      more := ThreadRunsToSignal(q, c);
      assert ([Step(t)] + more)[1..] == more;
      more := [Step(t)] + more;
    } else {
      assert Play(Next, p, []) == Some(p);
    }
  }

  /** Every job that a client with a reference started runs to its end, and its wait returns. */
  lemma StartedJobCompletes(n: nat, acts: seq<Action>, p: Pool, c: nat)
    requires Play(Next, Initial(n), acts) == Some(p) && c < |p.clients|
    requires p.clients[c].phase == Started && p.clients[c].ref
    ensures exists more :: Completes(p, c, more)
  {
    Reachable(n, acts, p);
    var more := ThreadRunsToSignal(p, c);
  }

  // --------------------------------------------------------------------- with and without a reference

  /** The client does something itself. */
  predicate ActsFor(a: Action, c: nat) {
    !a.Step? && a.c == c
  }

  /** A run in which the client itself does nothing leads to a state in which its job has returned, the end
      signal for it is gone and a wait for it blocks. */
  ghost predicate MissesEnd(p: Pool, c: nat, more: seq<Action>) {
    && (forall k :: 0 <= k < |more| ==> !ActsFor(more[k], c))
    && Play(Next, p, more).Some?
    && var q := Play(Next, p, more).value;
       c < |q.clients| && q.clients[c].ended == 1 && !Owns(q, c) && Next(q, WaitReturns(c)).None?
  }

  lemma OthersKeepReference(p: Pool, c: nat, a: Action)
    requires c < |p.clients| && !ActsFor(a, c) && Next(p, a).Some?
    ensures var q := Next(p, a).value;
            && |q.clients| == |p.clients| && q.clients[c].ref == p.clients[c].ref
            && q.clients[c].phase == p.clients[c].phase && q.clients[c].thread == p.clients[c].thread
  {
  }

  lemma StepKeeps(p: Pool, a: Action)
    requires Inv(p) && Next(p, a).Some?
    ensures Inv(Next(p, a).value)
  {
    match a
    case Step(t) => ThreadStepKeeps(p, t);
    case GetThread(c) => TakeKeeps(p, c);
    case _ => ClientStepKeeps(p, a.c, a);
  }

  lemma {:induction false} OthersLeaveReferencedClientItsThread(p: Pool, c: nat, more: seq<Action>)
    requires Inv(p) && c < |p.clients| && p.clients[c].phase == Started && p.clients[c].ref
    requires (forall k :: 0 <= k < |more| ==> !ActsFor(more[k], c)) && Play(Next, p, more).Some?
    ensures var q := Play(Next, p, more).value; c < |q.clients| && Owns(q, c)
    decreases |more|
  {
    assert ClientOk(p, c);
    if more != [] {
      OthersKeepReference(p, c, more[0]);
      StepKeeps(p, more[0]);
      OthersLeaveReferencedClientItsThread(Next(p, more[0]).value, c, more[1..]);
    }
  }

  function StepsLeft(pc: Pc): nat {
    match pc
    case WaitForStart => 7
    case InJob => 6
    case SendFinished => 5
    case OnFinish => 4
    case CheckRefs => 3
    case ClearFinished => 2
    case ReturnToPool => 1
  }

  lemma Prefixed(p: Pool, c: nat, a: Action, rest: seq<Action>)
    requires !ActsFor(a, c) && Next(p, a).Some? && MissesEnd(Next(p, a).value, c, rest)
    ensures MissesEnd(p, c, [a] + rest)
  {
    assert ([a] + rest)[1..] == rest;
  }

  /** One step of the thread that works for a client without a reference. */
  lemma OwnThreadGoesOn(p: Pool, c: nat)
    requires Inv(p) && c < |p.clients| && p.clients[c].phase == Started && !p.clients[c].ref && Owns(p, c)
    ensures var t := p.clients[c].thread; Next(p, Step(t)).Some?
    ensures var t := p.clients[c].thread;
            var q := Next(p, Step(t)).value;
            && Inv(q) && c < |q.clients| && |q.threads| == |p.threads|
            && q.clients[c].phase == Started && !q.clients[c].ref && q.clients[c].thread == t
            && if p.threads[t].pc == ReturnToPool
               then !Owns(q, c) && !q.threads[t].finished && q.clients[c].ended == 1
               else Owns(q, c) && StepsLeft(q.threads[t].pc) < StepsLeft(p.threads[t].pc)
  {
    assert ClientOk(p, c) && ThreadOk(p, p.clients[c].thread);
    ThreadStepKeeps(p, p.clients[c].thread);
  }

  lemma {:induction false} OwnThreadReturns(p: Pool, c: nat) returns (more: seq<Action>)
    requires Inv(p) && c < |p.clients| && p.clients[c].phase == Started && !p.clients[c].ref && Owns(p, c)
    ensures MissesEnd(p, c, more)
    decreases StepsLeft(p.threads[p.clients[c].thread].pc)
  {
    var t := p.clients[c].thread;
    var q := Next(p, Step(t)).value;
    OwnThreadGoesOn(p, c);
    more := [];
    if p.threads[t].pc == ReturnToPool {
      assert Play(Next, q, []) == Some(q);
    } else {
      more := OwnThreadReturns(q, c);
    }
    Prefixed(p, c, Step(t), more);
    more := [Step(t)] + more;
  }

  /** What remains until a thread has cleared its end signal, its client's reference included. */
  function ClearingLeft(th: Thread): nat { 2 * StepsLeft(th.pc) + if th.refs > 0 then 1 else 0 }

  /** A thread that came back and works for another client has its end signal set: one step towards clearing. */
  lemma OtherClientGoesOn(p: Pool, c: nat) returns (a: Action)
    requires Inv(p) && c < |p.clients| && p.clients[c].phase == Started && !Owns(p, c)
    requires p.clients[c].thread < |p.threads| && p.threads[p.clients[c].thread].finished
    ensures !ActsFor(a, c) && Next(p, a).Some?
    ensures var t, q := p.clients[c].thread, Next(p, a).value;
            && Inv(q) && c < |q.clients| && t < |q.threads|
            && q.clients[c] == p.clients[c] && !Owns(q, c) && ClearingLeft(q.threads[t]) < ClearingLeft(p.threads[t])
  {
    var t := p.clients[c].thread;
    assert ThreadOk(p, t);
    var d := p.threads[t].owner.value;
    assert ClientOk(p, d) && d != c;
    a := if p.threads[t].pc == CheckRefs && p.threads[t].refs > 0 then Dereference(d) else Step(t);
    StepKeeps(p, a);
  }

  lemma {:induction false} OthersClearTheSignal(p: Pool, c: nat) returns (more: seq<Action>)
    requires Inv(p) && c < |p.clients| && p.clients[c].phase == Started && !Owns(p, c)
    ensures MissesEnd(p, c, more)
    decreases if p.clients[c].thread < |p.threads| then ClearingLeft(p.threads[p.clients[c].thread]) else 0
  {
    assert ClientOk(p, c);
    more := [];
    if p.threads[p.clients[c].thread].finished {
      var a := OtherClientGoesOn(p, c);
      more := OthersClearTheSignal(Next(p, a).value, c);
      Prefixed(p, c, a, more);
      more := [a] + more;
    } else {
      assert Play(Next, p, []) == Some(p);
    }
  }

  /** The exact condition, which a client decides before it starts its job: in any reachable pool, the end of a
      started job can be missed if and only if its client holds no reference on the end signal. */
  lemma EndCanBeMissedIffUnreferenced(n: nat, acts: seq<Action>, p: Pool, c: nat)
    requires Play(Next, Initial(n), acts) == Some(p) && c < |p.clients| && p.clients[c].phase == Started
    ensures (exists more :: MissesEnd(p, c, more)) <==> !p.clients[c].ref
  {
    Reachable(n, acts, p);
    if p.clients[c].ref {
      forall more ensures !MissesEnd(p, c, more) {
        if (forall k :: 0 <= k < |more| ==> !ActsFor(more[k], c)) && Play(Next, p, more).Some? {
          OthersLeaveReferencedClientItsThread(p, c, more);
        }
      }
    } else if Owns(p, c) {
      var more := OwnThreadReturns(p, c);
    } else {
      var more := OthersClearTheSignal(p, c);
    }
  }

  // --------------------------------------------------------------------- a client that waits for ever

  const HAND_OFF := [GetThread(0), AssignJob(0), StartJob(0)]
  const WORK := [Step(0), Step(0), Step(0), Step(0), Step(0), Step(0), Step(0)]

  function Missed(): Pool {
    Pool([SPAWNED], [Client(Started, 0, false, 1, 1, false)])
  }

  function Solo(pc: Pc, start: bool, finished: bool, phase: Phase, called: nat, ended: nat): Pool {
    Pool([Thread(pc, true, if phase == Took then None else Some(0), start, finished, 0, Some(0))],
         [Client(phase, 0, false, called, ended, false)])
  }

  lemma SoloUpdate(p: Pool, th: Thread, cl: Client)
    requires |p.threads| == |p.clients| == 1
    ensures SetThread(p, 0, th) == Pool([th], p.clients)
    ensures SetClient(SetThread(p, 0, th), 0, cl) == Pool([th], [cl])
  {
  }

  lemma SoloHandOff()
    ensures Play(Next, Initial(1), HAND_OFF) == Some(Solo(WaitForStart, true, false, Started, 0, 0))
  {
    var s0 := Initial(1);
    var s1 := Solo(WaitForStart, false, false, Took, 0, 0);
    var s2 := Solo(WaitForStart, false, false, Assigned, 0, 0);
    var s3 := Solo(WaitForStart, true, false, Started, 0, 0);
    assert s0 == Pool([], [Client(Fresh, 0, false, 0, 0, false)]);
    assert s0.threads + [SPAWNED] == [SPAWNED];
    SoloUpdate(Pool([SPAWNED], s0.clients), s1.threads[0], s1.clients[0]);
    SoloUpdate(s1, s2.threads[0], s2.clients[0]);
    SoloUpdate(s2, s3.threads[0], s3.clients[0]);
    assert Next(s0, HAND_OFF[0]) == Some(s1);
    assert Next(s1, HAND_OFF[1]) == Some(s2);
    assert Next(s2, HAND_OFF[2]) == Some(s3);
    Along(Next, [s0, s1, s2, s3], HAND_OFF);
  }

  lemma SoloStep(pc: Pc, finished: bool, called: nat, ended: nat)
    ensures var q := Next(Solo(pc, true, finished, Started, called, ended), Step(0));
            match pc
            case WaitForStart => q == Some(Solo(InJob, true, finished, Started, called + 1, ended))
            case InJob => q == Some(Solo(SendFinished, true, finished, Started, called, ended + 1))
            case SendFinished => q == Some(Solo(OnFinish, true, true, Started, called, ended))
            case OnFinish => q == Some(Solo(CheckRefs, true, finished, Started, called, ended))
            case CheckRefs => q == Some(Solo(ClearFinished, true, finished, Started, called, ended))
            case ClearFinished => q == Some(Solo(ReturnToPool, true, false, Started, called, ended))
            case ReturnToPool => q == Some(Pool([Thread(WaitForStart, false, None, false, finished, 0, None)],
                                                [Client(Started, 0, false, called, ended, false)]))
  {
    var p := Solo(pc, true, finished, Started, called, ended);
    forall th, cl ensures SetThread(p, 0, th) == Pool([th], p.clients)
                  ensures SetClient(SetThread(p, 0, th), 0, cl) == Pool([th], [cl])
    {
      SoloUpdate(p, th, cl);
    }
  }

  lemma SoloWork()
    ensures Play(Next, Solo(WaitForStart, true, false, Started, 0, 0), WORK) == Some(Missed())
  {
    SoloStep(WaitForStart, false, 0, 0);
    SoloStep(InJob, false, 1, 0);
    SoloStep(SendFinished, false, 1, 1);
    SoloStep(OnFinish, true, 1, 1);
    SoloStep(CheckRefs, true, 1, 1);
    SoloStep(ClearFinished, true, 1, 1);
    SoloStep(ReturnToPool, false, 1, 1);
    Along(Next, [
      Solo(WaitForStart, true, false, Started, 0, 0),
      Solo(InJob, true, false, Started, 1, 0),
      Solo(SendFinished, true, false, Started, 1, 1),
      Solo(OnFinish, true, true, Started, 1, 1),
      Solo(CheckRefs, true, true, Started, 1, 1),
      Solo(ClearFinished, true, true, Started, 1, 1),
      Solo(ReturnToPool, true, false, Started, 1, 1),
      Missed()], WORK);
  }

  /** A client that takes no reference can start to wait after its thread went back to the pool: its job has
      returned, no thread will ever signal that again and the wait does not return. */
  lemma UnreferencedClientCanMiss()
    ensures Play(Next, Initial(1), HAND_OFF + WORK) == Some(Missed())
    ensures Missed().clients[0].ended == 1 && forall a :: Next(Missed(), a).None?
  {
    MissedIsStuck();
    SoloRun(HAND_OFF, WORK);
  }

  lemma SoloRun(handOff: seq<Action>, work: seq<Action>)
    requires handOff == HAND_OFF && work == WORK
    ensures Play(Next, Initial(1), handOff + work) == Some(Missed())
  {
    SoloHandOff();
    SoloWork();
    Cut(Next, Initial(1), handOff, work);
  }

  lemma MissedIsStuck()
    ensures forall a :: Next(Missed(), a).None?
  {
  }
}
