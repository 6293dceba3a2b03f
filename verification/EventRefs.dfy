/** The two reference counts of an event (src/core.c), for any number of concurrent threads.

    A step is one critical section under event->mutex, one compare-and-swap, or the final release. Every
    agent (a poster, the processing of one queue entry, a waiter) holds at most one reference of each kind
    and gives up what it holds; a new reference is taken only while somebody holds one, or as the first. */
module EventRefs {
  import opened Wrappers
  import Runs

  type Agent = nat

  /** Where an agent is in crtx_free_event(). */
  datatype Freeing = Swap | Invalidate | AwaitZero | Free

  datatype Event = Event(
    rel: nat, resp: nat,            // refs_before_release, refs_before_response: unsigned char
    error: bool, inProgress: bool,
    freed: nat,                     // how often the memory was given to free()
    // who holds what, and what happened so far
    holders: set<Agent>,
    responders: set<Agent>,
    freeing: map<Agent, Freeing>,
    referenced: bool,
    peak: nat                       // the largest number of simultaneous holders
  )

  const CREATED := Event(0, 0, false, false, 0, {}, {}, map[], false, 0)

  datatype Action =
    | RefRelease(a: Agent)
    | DerefRelease(a: Agent)
    | RefResponse(a: Agent)
    | DerefResponse(a: Agent)
    | InvalidateEvent(a: Agent)
    | WaitReturns(a: Agent)
    | FreeStep(a: Agent)

  function Max(a: nat, b: nat): nat { if a < b then b else a }

  function Next(e: Event, act: Action): Option<Event> {
    var a := act.a;
    match act
    case RefRelease(_) =>
      if a in e.holders || a in e.freeing || (e.holders == {} && e.referenced) then None
      else
        Some(e.(rel := (e.rel + 1) % 256, holders := e.holders + {a}, referenced := true,
                peak := Max(e.peak, |e.holders| + 1)))
    case DerefRelease(_) =>
      if a !in e.holders || a in e.responders then None
      else
        var left := if e.rel > 0 then e.rel - 1 else 0;
        Some(e.(rel := left, holders := e.holders - {a},
                freeing := if left == 0 then e.freeing[a := Swap] else e.freeing))
    case RefResponse(_) =>
      if a !in e.holders || a in e.responders then None
      else
        Some(e.(resp := if e.error then e.resp else (e.resp + 1) % 256, responders := e.responders + {a}))
    case DerefResponse(_) =>
      if a !in e.responders then None
      else Some(e.(resp := if e.resp > 0 then e.resp - 1 else 0, responders := e.responders - {a}))
    case InvalidateEvent(_) =>
      if a !in e.holders then None else Some(e.(error := true, resp := 0))
    case WaitReturns(_) =>
      if a !in e.holders || e.resp > 0 then None else Some(e)
    case FreeStep(_) =>
      if a !in e.freeing then None
      else
        match e.freeing[a]
        case Swap =>
          if e.inProgress then Some(e.(freeing := e.freeing - {a}))
          else Some(e.(inProgress := true, freeing := e.freeing[a := Invalidate]))
        case Invalidate => Some(e.(error := true, resp := 0, freeing := e.freeing[a := AwaitZero]))
        case AwaitZero => if e.rel > 0 then None else Some(e.(freeing := e.freeing[a := Free]))
        case Free => Some(e.(freed := e.freed + 1, freeing := e.freeing - {a}))
  }

  /** Counts are exact; the event is being freed by one agent, or was freed once, exactly when the last
      reference is gone. */
  ghost predicate Exact(e: Event) {
    && e.rel == |e.holders|
    && e.responders <= e.holders
    && e.resp == (if e.error then 0 else |e.responders|)
    && (e.holders != {} || !e.referenced ==> e.freeing == map[] && e.freed == 0 && !e.inProgress)
    && (!e.referenced ==> e.holders == {})
    && (e.holders == {} && e.referenced ==>
          || (e.freed == 1 && e.freeing == map[])
          || (e.freed == 0 && exists a :: e.freeing.Keys == {a} && (e.freeing[a].Swap? <==> !e.inProgress)))
  }

  /** As long as there were never more than 255 holders, and |holders| is part of the peak. */
  ghost predicate Inv(e: Event) {
    |e.holders| <= e.peak && (e.peak <= 255 ==> Exact(e))
  }

  lemma SubsetSize<T>(a: set<T>, b: set<T>)
    requires a <= b
    ensures |a| <= |b|
  {
    assert b == a + (b - a);
  }

  lemma FreeStepKeepsExact(e: Event, a: Agent)
    requires Exact(e) && Next(e, FreeStep(a)).Some?
    ensures Exact(Next(e, FreeStep(a)).value)
  {
    var t := Next(e, FreeStep(a)).value;
    assert a in e.freeing.Keys;
    var b :| e.freeing.Keys == {b} && (e.freeing[b].Swap? <==> !e.inProgress);
    assert a == b;
    if e.freeing[a].Free? || (e.freeing[a].Swap? && e.inProgress) {
      assert t.freeing == map[];
    } else {
      assert t.freeing.Keys == {a};
    }
  }

  lemma OneLess<T>(s: set<T>, x: T)
    requires x in s
    ensures |s - {x}| == |s| - 1
    ensures |s| == 1 ==> s - {x} == {}
  {
    if |s| == 1 {
      forall y | y in s ensures y == x {
        SubsetSize({x, y}, s);
      }
    }
  }

  lemma ReferencesKeepExact(e: Event, act: Action)
    requires Exact(e) && |e.holders| <= e.peak && Next(e, act).Some? && Next(e, act).value.peak <= 255
    requires act.RefRelease? || act.DerefRelease?
    ensures Exact(Next(e, act).value)
  {
    var t := Next(e, act).value;
    if act.DerefRelease? {
      OneLess(e.holders, act.a);
      if t.rel == 0 {
        assert e.freeing == map[] && t.freeing == map[act.a := Swap];
        assert t.freeing.Keys == {act.a} && t.freeing[act.a].Swap?;
      }
    }
  }

  lemma ResponsesKeepExact(e: Event, act: Action)
    requires Exact(e) && |e.holders| <= e.peak && Next(e, act).Some? && Next(e, act).value.peak <= 255
    requires act.RefResponse? || act.DerefResponse?
    ensures Exact(Next(e, act).value)
  {
    var t := Next(e, act).value;
    SubsetSize(e.responders, e.holders);
    SubsetSize(t.responders, e.holders);
    if act.DerefResponse? { OneLess(e.responders, act.a); }
  }

  lemma StepKeepsExact(e: Event, act: Action)
    requires Exact(e) && |e.holders| <= e.peak && Next(e, act).Some? && Next(e, act).value.peak <= 255
    ensures Exact(Next(e, act).value)
  {
    match act
    case RefRelease(_) => ReferencesKeepExact(e, act);
    case DerefRelease(_) => ReferencesKeepExact(e, act);
    case RefResponse(_) => ResponsesKeepExact(e, act);
    case DerefResponse(_) => ResponsesKeepExact(e, act);
    case FreeStep(a) => FreeStepKeepsExact(e, a);
    case _ =>
  }

  lemma PeakGrows(e: Event, act: Action)
    requires |e.holders| <= e.peak && Next(e, act).Some?
    ensures var t := Next(e, act).value; e.peak <= t.peak && |t.holders| <= t.peak
  {
    match act
    case RefRelease(a) => OneMore(e.holders, a);
    case DerefRelease(a) => OneLess(e.holders, a);
    case FreeStep(a) => assert Next(e, act).value.holders == e.holders && Next(e, act).value.peak == e.peak;
    case _ => assert Next(e, act).value.holders == e.holders && Next(e, act).value.peak == e.peak;
  }

  lemma OneMore<T>(s: set<T>, x: T)
    ensures |s + {x}| <= |s| + 1
  {
  }

  lemma StepKeepsInv(e: Event, act: Action)
    requires Inv(e) && Next(e, act).Some?
    ensures Inv(Next(e, act).value)
  {
    PeakGrows(e, act);
    if Next(e, act).value.peak <= 255 {
      StepKeepsExact(e, act);
    }
  }

  lemma RunKeepsInv(acts: seq<Action>)
    requires Runs.Play(Next, CREATED, acts).Some?
    ensures Inv(Runs.Play(Next, CREATED, acts).value)
  {
    forall e, act | Inv(e) && Next(e, act).Some? ensures Inv(Next(e, act).value) {
      StepKeepsInv(e, act);
    }
    Runs.Invariant(Next, Inv, CREATED, acts);
  }

  // ------------------------------------------------------------------------------------------------

  /** In every run with at most 255 simultaneous holders, the count is the number of holders, the event is
      freed at most once, never while somebody holds it, and nobody takes a reference to freed memory. */
  lemma CountIsNumberOfHolders(acts: seq<Action>)
    requires Runs.Play(Next, CREATED, acts).Some?
    requires Runs.Play(Next, CREATED, acts).value.peak <= 255
    ensures var e := Runs.Play(Next, CREATED, acts).value;
            && e.rel == |e.holders|
            && e.freed <= 1
            && (e.freed == 1 ==> e.holders == {} && e.responders == {}
                                 && forall act: Action :: Next(e, act) == None)
  {
    RunKeepsInv(acts);
    var e := Runs.Play(Next, CREATED, acts).value;
    if e.freed == 1 {
      forall act: Action ensures Next(e, act) == None {
        assert act.a !in e.freeing;
      }
    }
  }

  /** Once the last reference is gone, the event is freed exactly once: either it was, or exactly one agent is
      on its way to do it and none of its remaining steps can be refused. */
  lemma LastReferenceFrees(acts: seq<Action>)
    requires Runs.Play(Next, CREATED, acts).Some?
    requires Runs.Play(Next, CREATED, acts).value.peak <= 255
    requires Runs.Play(Next, CREATED, acts).value.holders == {}
    requires Runs.Play(Next, CREATED, acts).value.referenced
    ensures var e := Runs.Play(Next, CREATED, acts).value;
            e.freed == 1 || exists a :: e.freeing.Keys == {a} && FreesInSteps(e, a, 4)
  {
    RunKeepsInv(acts);
    var e := Runs.Play(Next, CREATED, acts).value;
    if e.freed != 1 {
      var a :| e.freeing.Keys == {a} && (e.freeing[a].Swap? <==> !e.inProgress);
      FreeingEnds(e, a, 4);
    }
  }

  /** Within n further steps of agent a, none of which can be refused, the event has been freed once. */
  ghost predicate FreesInSteps(e: Event, a: Agent, n: nat)
    decreases n
  {
    || e.freed == 1
    || (n > 0 && Next(e, FreeStep(a)).Some? && FreesInSteps(Next(e, FreeStep(a)).value, a, n - 1))
  }

  function StepsLeft(f: Freeing): nat {
    match f case Swap => 4 case Invalidate => 3 case AwaitZero => 2 case Free => 1
  }

  lemma {:induction false} FreeingEnds(e: Event, a: Agent, n: nat)
    requires e.rel == 0 && e.freed == 0 && a in e.freeing && (e.freeing[a].Swap? <==> !e.inProgress)
    requires StepsLeft(e.freeing[a]) <= n
    ensures FreesInSteps(e, a, n)
    decreases n
  {
    if !e.freeing[a].Free? {
      FreeingEnds(Next(e, FreeStep(a)).value, a, n - 1);
    } else {
      assert FreesInSteps(Next(e, FreeStep(a)).value, a, n - 1);
    }
  }

  /** At most one agent is past the compare-and-swap, and none is once the event was freed. */
  ghost predicate OneFrees(e: Event) {
    && (forall a, b :: PastSwap(e, a) && PastSwap(e, b) ==> a == b)
    && (forall a :: PastSwap(e, a) ==> e.inProgress && e.freed == 0)
    && e.freed <= 1 && (e.freed == 1 ==> e.inProgress)
  }

  predicate PastSwap(e: Event, a: Agent) { a in e.freeing && !e.freeing[a].Swap? }

  lemma StepKeepsOneFrees(e: Event, act: Action)
    requires OneFrees(e) && Next(e, act).Some?
    ensures OneFrees(Next(e, act).value)
  {
    var t := Next(e, act).value;
    forall a | a != act.a ensures PastSwap(t, a) <==> PastSwap(e, a) {
    }
    if act.FreeStep? && !e.freeing[act.a].Swap? { assert PastSwap(e, act.a); }
    assert !act.FreeStep? && PastSwap(t, act.a) ==> PastSwap(e, act.a);
  }

  /** The compare-and-swap alone guarantees, for any number of holders and even where the counts have wrapped,
      that nobody frees the event a second time. */
  lemma FreedAtMostOnce(acts: seq<Action>)
    requires Runs.Play(Next, CREATED, acts).Some?
    ensures OneFrees(Runs.Play(Next, CREATED, acts).value)
  {
    forall e, act | OneFrees(e) && Next(e, act).Some? ensures OneFrees(Next(e, act).value) {
      StepKeepsOneFrees(e, act);
    }
    Runs.Invariant(Next, OneFrees, CREATED, acts);
  }

  /** crtx_wait_on_event() returns only after every traversal has dropped its reference to the response, or
      the event was invalidated. */
  lemma WaitReturnsWhenTraversed(acts: seq<Action>, a: Agent)
    requires Runs.Play(Next, CREATED, acts + [WaitReturns(a)]).Some?
    requires Runs.Play(Next, CREATED, acts + [WaitReturns(a)]).value.peak <= 255
    ensures var e := Runs.Play(Next, CREATED, acts + [WaitReturns(a)]).value;
            e.responders == {} || e.error
  {
    Runs.Cut(Next, CREATED, acts, [WaitReturns(a)]);
    RunKeepsInv(acts);
    var e := Runs.Play(Next, CREATED, acts).value;
    Runs.Single(Next, e, WaitReturns(a));
  }

  // --------------------------------------------------------------------- the bound of 255 is needed

  function Posters(n: nat): seq<Action>
  {
    if n == 0 then [] else Posters(n - 1) + [RefRelease(n - 1)]
  }

  /** The agents 0 to n - 1. */
  function First(n: nat): (agents: set<Agent>)
    ensures |agents| == n
    ensures forall a :: a in agents ==> a < n
    ensures n > 0 ==> 0 in agents
  {
    if n == 0 then {} else First(n - 1) + {n - 1}
  }

  function Posted(n: nat): Event {
    Event(n % 256, 0, false, false, 0, First(n), {}, map[], n > 0, n)
  }

  /** After n references by as many agents, the count is n modulo 256. */
  lemma {:induction false} ManyPosters(n: nat)
    ensures Runs.Play(Next, CREATED, Posters(n)) == Some(Posted(n))
  {
    if n == 0 {
      assert Posted(0) == CREATED;
    } else {
      ManyPosters(n - 1);
      OneMorePoster(n - 1);
      Runs.Cut(Next, CREATED, Posters(n - 1), [RefRelease(n - 1)]);
    }
  }

  lemma WrappedSum(n: nat)
    ensures (n % 256 + 1) % 256 == (n + 1) % 256
  {
  }

  lemma NewHolder(e: Event, a: Agent)
    requires a !in e.holders && e.freeing == map[] && (e.holders == {} ==> !e.referenced) && |e.holders| == e.peak
    ensures Next(e, RefRelease(a)) ==
            Some(e.(rel := (e.rel + 1) % 256, holders := e.holders + {a}, referenced := true, peak := e.peak + 1))
  {
  }

  lemma OneMorePoster(n: nat)
    ensures Runs.Play(Next, Posted(n), [RefRelease(n)]) == Some(Posted(n + 1))
  {
    NewHolder(Posted(n), n);
    Runs.Single(Next, Posted(n), RefRelease(n));
    WrappedSum(n);
    assert First(n + 1) == First(n) + {n};
  }

  /** With 256 holders the unsigned char wraps: the first of them to let go frees the event while the others
      hold it. */
  lemma FreedWhileHeldWith256()
    ensures var lastSteps := [DerefRelease(0), FreeStep(0), FreeStep(0), FreeStep(0), FreeStep(0)];
            var run := Runs.Play(Next, CREATED, Posters(256) + lastSteps);
            run.Some? && run.value.peak == 256 && run.value.freed == 1 && |run.value.holders| == 255
  {
    ManyPosters(256);
    var e := Posted(256);
    var acts := [DerefRelease(0), FreeStep(0), FreeStep(0), FreeStep(0), FreeStep(0)];
    Runs.Cut(Next, CREATED, Posters(256), acts);
    FirstLetsGo(e);
  }

  lemma FirstLetsGo(e: Event)
    requires e.rel == 0 && e.responders == {} && e.freeing == map[] && 0 in e.holders && !e.inProgress && e.freed == 0
    ensures Runs.Play(Next, e, [DerefRelease(0), FreeStep(0), FreeStep(0), FreeStep(0), FreeStep(0)]) ==
            Some(e.(resp := 0, error := true, inProgress := true, freed := 1, holders := e.holders - {0}))
  {
    var e1 := e.(holders := e.holders - {0}, freeing := map[0 := Swap]);
    var e2 := e1.(inProgress := true, freeing := e1.freeing[0 := Invalidate]);
    var e3 := e2.(error := true, resp := 0, freeing := e2.freeing[0 := AwaitZero]);
    var e4 := e3.(freeing := e3.freeing[0 := Free]);
    var e5 := e4.(freed := 1, freeing := e4.freeing - {0});
    assert e5.freeing == map[];
    assert Next(e, DerefRelease(0)) == Some(e1);
    assert Next(e1, FreeStep(0)) == Some(e2);
    assert Next(e2, FreeStep(0)) == Some(e3);
    assert Next(e3, FreeStep(0)) == Some(e4);
    assert Next(e4, FreeStep(0)) == Some(e5);
    Runs.Along(Next, [e, e1, e2, e3, e4, e5], [DerefRelease(0), FreeStep(0), FreeStep(0), FreeStep(0), FreeStep(0)]);
  }

  // ------------------------------------------------------------------------------ the exact condition

  /** After the first k actions the count is the number of holders. */
  ghost predicate CountIsExactAfter(acts: seq<Action>, k: nat)
    requires k <= |acts|
  {
    var e := Runs.Play(Next, CREATED, acts[..k]); e.Some? && e.value.rel == |e.value.holders|
  }

  lemma {:induction false} PeakGrowsAlong(e: Event, acts: seq<Action>)
    requires |e.holders| <= e.peak && Runs.Play(Next, e, acts).Some?
    ensures e.peak <= Runs.Play(Next, e, acts).value.peak
    decreases |acts|
  {
    if acts != [] {
      PeakGrows(e, acts[0]);
      PeakGrowsAlong(Next(e, acts[0]).value, acts[1..]);
    }
  }

  lemma PrefixOfRun(acts: seq<Action>, k: nat)
    requires k <= |acts| && Runs.Play(Next, CREATED, acts).Some?
    ensures Runs.Play(Next, CREATED, acts[..k]).Some?
    ensures Runs.Play(Next, CREATED, acts[..k]).value.peak <= Runs.Play(Next, CREATED, acts).value.peak
  {
    assert acts == acts[..k] + acts[k..];
    Runs.Cut(Next, CREATED, acts[..k], acts[k..]);
    RunKeepsInv(acts[..k]);
    PeakGrowsAlong(Runs.Play(Next, CREATED, acts[..k]).value, acts[k..]);
  }

  /** The step that raises the peak above 255 turns an exact count of 255 into 0. */
  lemma CountWrapsAt256(e: Event, act: Action)
    requires Inv(e) && Next(e, act).Some? && e.peak <= 255 < Next(e, act).value.peak
    ensures var t := Next(e, act).value; t.rel == 0 && |t.holders| == 256
  {
    assert act.RefRelease?;
    NewHolderCounts(e.holders, act.a);
  }

  lemma NewHolderCounts(s: set<Agent>, a: Agent)
    requires a !in s
    ensures |s + {a}| == |s| + 1
  {
  }

  lemma {:induction false} FirstWrap(acts: seq<Action>) returns (k: nat)
    requires Runs.Play(Next, CREATED, acts).Some? && Runs.Play(Next, CREATED, acts).value.peak > 255
    ensures k <= |acts| && !CountIsExactAfter(acts, k)
    decreases |acts|
  {
    assert acts != [];
    var n: nat := |acts| - 1;
    PrefixOfRun(acts, n);
    var e := Runs.Play(Next, CREATED, acts[..n]).value;
    RunKeepsInv(acts[..n]);
    if e.peak > 255 {
      k := FirstWrap(acts[..n]);
      assert acts[..n][..k] == acts[..k];
    } else {
      assert acts == acts[..n] + [acts[n]];
      Runs.Cut(Next, CREATED, acts[..n], [acts[n]]);
      Runs.Single(Next, e, acts[n]);
      CountWrapsAt256(e, acts[n]);
      k := |acts|;
      assert acts[..k] == acts;
    }
  }

  /** In every run the count is the number of holders all the time if and only if there were never more than
      255 holders at once. */
  lemma CountIsExactIffAtMost255(acts: seq<Action>)
    requires Runs.Play(Next, CREATED, acts).Some?
    ensures (forall k :: 0 <= k <= |acts| ==> CountIsExactAfter(acts, k)) <==>
            Runs.Play(Next, CREATED, acts).value.peak <= 255
  {
    if Runs.Play(Next, CREATED, acts).value.peak <= 255 {
      forall k | 0 <= k <= |acts| ensures CountIsExactAfter(acts, k) {
        PrefixOfRun(acts, k);
        CountIsNumberOfHolders(acts[..k]);
      }
    } else {
      var k := FirstWrap(acts);
    }
  }

  // ------------------------------------------------------------------------------------------ progress

  /** The wait of a holder returns if and only if no traversal holds a response reference any more, or the event
      was invalidated. */
  lemma WaitReturnsIff(acts: seq<Action>, a: Agent)
    requires Runs.Play(Next, CREATED, acts).Some? && Runs.Play(Next, CREATED, acts).value.peak <= 255
    ensures var e := Runs.Play(Next, CREATED, acts).value;
            Next(e, WaitReturns(a)).Some? <==> a in e.holders && (e.responders == {} || e.error)
  {
    RunKeepsInv(acts);
    var e := Runs.Play(Next, CREATED, acts).value;
    if e.responders != {} {
      var r :| r in e.responders;
      OneLess(e.responders, r);
    }
  }

  /** What an agent can do depends only on what it holds; to become a holder it needs another one, or to be
      the first. */
  lemma AgentsAreNotHeldUp(acts: seq<Action>, a: Agent)
    requires Runs.Play(Next, CREATED, acts).Some? && Runs.Play(Next, CREATED, acts).value.peak <= 255
    ensures var e := Runs.Play(Next, CREATED, acts).value;
            && (Next(e, RefRelease(a)).Some? <==> a !in e.holders && (e.holders != {} || !e.referenced))
            && (Next(e, DerefRelease(a)).Some? <==> a in e.holders && a !in e.responders)
            && (Next(e, RefResponse(a)).Some? <==> a in e.holders && a !in e.responders)
            && (Next(e, DerefResponse(a)).Some? <==> a in e.responders)
            && (Next(e, InvalidateEvent(a)).Some? <==> a in e.holders)
  {
    RunKeepsInv(acts);
    var e := Runs.Play(Next, CREATED, acts).value;
    assert e.holders != {} ==> e.freeing == map[];
  }

  /** What the steps do: references are taken and given back one by one, a waiter is released by the last
      response reference or by an invalidation, and nothing else changes. */
  lemma StepsChangeOnlyOneReference(acts: seq<Action>, a: Agent)
    requires Runs.Play(Next, CREATED, acts).Some? && Runs.Play(Next, CREATED, acts).value.peak <= 255
    ensures var e := Runs.Play(Next, CREATED, acts).value;
            && (forall t :: Next(e, RefRelease(a)) == Some(t) ==>
                  t.holders == e.holders + {a} && t.responders == e.responders && t.error == e.error)
            && (forall t :: Next(e, DerefRelease(a)) == Some(t) ==>
                  t.holders == e.holders - {a} && t.responders == e.responders && t.error == e.error)
            && (forall t :: Next(e, RefResponse(a)) == Some(t) ==>
                  t.responders == e.responders + {a} && t.holders == e.holders && t.error == e.error)
            && (forall t :: Next(e, DerefResponse(a)) == Some(t) ==>
                  t.responders == e.responders - {a} && t.holders == e.holders && t.error == e.error)
            && (forall t :: Next(e, InvalidateEvent(a)) == Some(t) ==>
                  t.error && t.holders == e.holders && t.responders == e.responders
                  && Next(t, WaitReturns(a)).Some?)
  {
  }
}
