/** The table of signal subscriptions (src/signals.c): listeners start and stop, and the handlers that are
    installed for the process have to follow. */
module Signals {
  import opened Wrappers
  import opened Sequences

  type Listener = nat

  /** The disposition of a signal; Library stands for the handler of the main listener. */
  datatype Handler = Default | Ignore | Library | Foreign(id: int)

  datatype Entry = Entry(signum: int, lstnrs: seq<Listener>, handler: Handler)

  // ------------------------------------------------------------------------------------ the specification

  /** The listeners of a signal. */
  function ListOf(signals: seq<Entry>, s: int): seq<Listener> {
    if signals == [] then []
    else if signals[0].signum == s then signals[0].lstnrs
    else ListOf(signals[1..], s)
  }

  /** The handler that the table wants for a signal. */
  function Wanted(signals: seq<Entry>, s: int): Option<Handler> {
    if signals == [] then None
    else if signals[0].signum == s then Some(signals[0].handler)
    else Wanted(signals[1..], s)
  }

  function Updated(current: Handler, wanted: Option<Handler>): Handler {
    if current == Ignore || wanted.None? then current else wanted.value
  }

  function Disposition(installed: map<int, Handler>, s: int): Handler {
    if s in installed then installed[s] else Default
  }

  /** An entry takes effect unless the signal is ignored. */
  function Install(installed: map<int, Handler>, e: Entry): map<int, Handler> {
    var current := Disposition(installed, e.signum);
    if current != Ignore && current != e.handler then installed[e.signum := e.handler] else installed
  }

  function InstallAll(installed: map<int, Handler>, entries: seq<Entry>): map<int, Handler>
    decreases |entries|
  {
    if entries == [] then installed else InstallAll(Install(installed, entries[0]), entries[1..])
  }

  ghost predicate OneEach(entries: seq<Entry>) {
    forall i, j :: 0 <= i < j < |entries| ==> entries[i].signum != entries[j].signum
  }

  ghost predicate Names(signals: seq<Entry>, n: nat, s: int) {
    exists i :: 0 <= i < n && i < |signals| && signals[i].signum == s
  }

  lemma StillNamed(signals: seq<Entry>, n: nat, after: seq<Entry>, m: nat)
    requires n <= m && n <= |signals| && m <= |after|
    requires forall i :: 0 <= i < n ==> after[i].signum == signals[i].signum
    ensures forall s :: Names(signals, n, s) ==> Names(after, m, s)
  {
    forall s | Names(signals, n, s) ensures Names(after, m, s) {
      var i :| 0 <= i < n && i < |signals| && signals[i].signum == s;
      assert after[i].signum == s;
    }
  }

  /** The signal numbers in front of the terminating zero. */
  function Numbers(sigs: seq<int>): (r: seq<int>)
    requires 0 in sigs
    ensures |r| < |sigs| && r == sigs[..|r|] && sigs[|r|] == 0 && 0 !in r
  {
    if sigs[0] == 0 then [] else [sigs[0]] + Numbers(sigs[1..])
  }

  function Count(sigs: seq<int>, s: int): nat {
    if sigs == [] then 0 else (if sigs[0] == s then 1 else 0) + Count(sigs[1..], s)
  }

  function Added(list: seq<Listener>, l: Listener, k: nat): seq<Listener>
    decreases k
  {
    if k == 0 then list else Added(list + [l], l, k - 1)
  }

  function AllRemoved(list: seq<Listener>, l: Listener, k: nat): seq<Listener>
    decreases k
  {
    if k == 0 then list else AllRemoved(WithoutFirst(list, l), l, k - 1)
  }

  lemma {:induction false} ListAfterUpdate(signals: seq<Entry>, i: nat, e: Entry, s: int)
    requires i < |signals| && e.signum == signals[i].signum
    requires forall k :: 0 <= k < i ==> signals[k].signum != e.signum
    ensures ListOf(signals, e.signum) == signals[i].lstnrs
    ensures ListOf(signals[i := e], s) == if s == e.signum then e.lstnrs else ListOf(signals, s)
  {
    if i > 0 {
      assert signals[i := e][1..] == signals[1..][i - 1 := e];
      ListAfterUpdate(signals[1..], i - 1, e, s);
    }
  }

  lemma {:induction false} ListAfterAppend(signals: seq<Entry>, n: nat, e: Entry, end: Entry, s: int)
    requires (signals == [] && n == 0) || (|signals| == n + 1 && signals[n] == end)
    requires end == Entry(0, [], Default) && s != 0 && e.signum != 0
    requires forall k :: 0 <= k < n ==> signals[k].signum != e.signum
    ensures ListOf(signals, e.signum) == []
    ensures ListOf(signals[..n] + [e, end], s) == if s == e.signum then e.lstnrs else ListOf(signals, s)
    decreases n
  {
    var after := signals[..n] + [e, end];
    if n > 0 {
      assert after[1..] == signals[1..][..n - 1] + [e, end];
      ListAfterAppend(signals[1..], n - 1, e, end, s);
    } else {
      assert after == [e, end] && after[1..] == [end] && [end][1..] == [];
    }
  }

  lemma {:induction false} NotWanted(signals: seq<Entry>, s: int)
    requires forall k :: 0 <= k < |signals| ==> signals[k].signum != s
    ensures Wanted(signals, s).None?
  {
    if signals != [] { NotWanted(signals[1..], s); }
  }

  lemma {:induction false} DispositionAfter(installed: map<int, Handler>, entries: seq<Entry>, s: int)
    requires OneEach(entries)
    ensures Disposition(InstallAll(installed, entries), s) == Updated(Disposition(installed, s), Wanted(entries, s))
    decreases |entries|
  {
    if entries != [] {
      if entries[0].signum == s { NotWanted(entries[1..], s); }
      DispositionAfter(Install(installed, entries[0]), entries[1..], s);
    }
  }

  lemma {:induction false} WantedAt(entries: seq<Entry>, i: nat)
    requires OneEach(entries) && i < |entries|
    ensures Wanted(entries, entries[i].signum) == Some(entries[i].handler)
  {
    if i > 0 { WantedAt(entries[1..], i - 1); }
  }

  /** The same signals are ignored. */
  ghost predicate KeepsIgnored(before: map<int, Handler>, after: map<int, Handler>) {
    forall s :: Disposition(after, s) == Ignore <==> Disposition(before, s) == Ignore
  }

  lemma {:induction false} IgnoredStay(installed: map<int, Handler>, entries: seq<Entry>)
    requires forall i :: 0 <= i < |entries| ==> entries[i].handler != Ignore
    ensures KeepsIgnored(installed, InstallAll(installed, entries))
    decreases |entries|
  {
    if entries != [] { IgnoredStay(Install(installed, entries[0]), entries[1..]); }
  }

  lemma TableIsInstalled(installed: map<int, Handler>, entries: seq<Entry>)
    requires OneEach(entries)
    ensures var after := InstallAll(installed, entries);
            && (forall s :: Disposition(after, s) == Updated(Disposition(installed, s), Wanted(entries, s)))
            && (forall i :: 0 <= i < |entries| ==>
                Disposition(after, entries[i].signum) in {Ignore, entries[i].handler})
  {
    var after := InstallAll(installed, entries);
    forall s ensures Disposition(after, s) == Updated(Disposition(installed, s), Wanted(entries, s)) {
      DispositionAfter(installed, entries, s);
    }
    forall i | 0 <= i < |entries| ensures Disposition(after, entries[i].signum) in {Ignore, entries[i].handler} {
      WantedAt(entries, i);
      DispositionAfter(installed, entries, entries[i].signum);
    }
  }

  // -------------------------------------------------------------------------------------------- the table

  /** One entry per signal and a terminating zero; the handler is the library's while there are listeners. */
  ghost predicate Shaped(signals: seq<Entry>, n: nat) {
    && (if n == 0 then signals == [] else |signals| == n + 1 && signals[n] == Entry(0, [], Default))
    && n <= |signals| && OneEach(signals[..n])
    && forall i :: 0 <= i < n ==>
        signals[i].signum != 0 && signals[i].handler == if signals[i].lstnrs == [] then Default else Library
  }

  /** The library's handler is installed only for signals in the table. */
  ghost predicate Claimed(signals: seq<Entry>, n: nat, installed: map<int, Handler>) {
    forall s :: !Names(signals, n, s) ==> Disposition(installed, s) != Library
  }

  /** The handlers of the table are installed, except for ignored signals. */
  ghost predicate Followed(signals: seq<Entry>, n: nat, installed: map<int, Handler>)
    requires n <= |signals|
  {
    forall i :: 0 <= i < n ==> Disposition(installed, signals[i].signum) in {Ignore, signals[i].handler}
  }

  lemma ReplacedKeeps(signals: seq<Entry>, n: nat, installed: map<int, Handler>, i: nat, e: Entry)
    requires Shaped(signals, n) && Claimed(signals, n, installed) && i < n && e.signum == signals[i].signum
    requires e.handler == if e.lstnrs == [] then Default else Library
    ensures Shaped(signals[i := e], n) && Claimed(signals[i := e], n, installed)
    ensures Followed(signals, n, installed) && e.handler == signals[i].handler ==>
        Followed(signals[i := e], n, installed)
    ensures forall s :: ListOf(signals[i := e], s) == if s == e.signum then e.lstnrs else ListOf(signals, s)
    ensures ListOf(signals, e.signum) == signals[i].lstnrs
  {
    StillNamed(signals, n, signals[i := e], n);
    assert signals[i := e][..n] == signals[..n][i := e];
    forall k | 0 <= k < i ensures signals[k].signum != e.signum {
      assert signals[..n][k].signum != signals[..n][i].signum;
    }
    forall s ensures ListOf(signals[i := e], s) == if s == e.signum then e.lstnrs else ListOf(signals, s) {
      ListAfterUpdate(signals, i, e, s);
    }
    ListAfterUpdate(signals, i, e, e.signum);
  }

  lemma ExtendedKeeps(signals: seq<Entry>, n: nat, installed: map<int, Handler>, e: Entry, after: seq<Entry>)
    requires Shaped(signals, n) && Claimed(signals, n, installed) && e.signum != 0
    requires forall k :: 0 <= k < n ==> signals[k].signum != e.signum
    requires e.lstnrs != [] && e.handler == Library && after == signals[..n] + [e, Entry(0, [], Default)]
    ensures Shaped(after, n + 1) && Claimed(after, n + 1, installed)
    ensures forall s :: s != 0 ==> ListOf(after, s) == if s == e.signum then e.lstnrs else ListOf(signals, s)
    ensures ListOf(signals, e.signum) == []
  {
    StillNamed(signals, n, after, n + 1);
    assert after[..n + 1] == signals[..n] + [e];
    forall s | s != 0 ensures ListOf(after, s) == if s == e.signum then e.lstnrs else ListOf(signals, s) {
      ListAfterAppend(signals, n, e, Entry(0, [], Default), s);
    }
    ListAfterAppend(signals, n, e, Entry(0, [], Default), e.signum);
  }

  class SignalTable {
    var signals: seq<Entry>               // empty, or with a terminating entry
    var n: nat                            // the number of entries without the terminating one
    var installed: map<int, Handler>      // the dispositions that the process has, default if absent

    function Installed(s: int): Handler reads this {
      Disposition(installed, s)
    }

    ghost predicate Shape() reads this {
      Shaped(signals, n) && Claimed(signals, n, installed)
    }

    ghost predicate Valid() reads this {
      Shape() && Followed(signals, n, installed)
    }

    constructor (installed: map<int, Handler>)
      requires Library !in installed.Values
      ensures Valid() && n == 0 && this.installed == installed
    {
      signals, n, this.installed := [], 0, installed;
    }

    /** update_signals() for the listener that installs handlers. */
    method UpdateSignals()
      requires Shape()
      modifies this`installed
      ensures Valid()
      ensures forall s :: Installed(s) == Updated(old(Installed(s)), Wanted(signals[..n], s))
      ensures KeepsIgnored(old(installed), installed)
    {
      if signals == [] {
        assert signals[..n] == [];
        return;
      }
      ghost var entries := signals[..n];
      var i := 0;
      assert entries[0..] == entries;
      while signals[i].signum != 0
        invariant 0 <= i <= n
        invariant InstallAll(installed, entries[i..]) == InstallAll(old(installed), entries)
        decreases n - i
      {
        assert entries[i..][0] == signals[i] && entries[i..][1..] == entries[i + 1..];
        if Installed(signals[i].signum) != Ignore && Installed(signals[i].signum) != signals[i].handler {
          installed := installed[signals[i].signum := signals[i].handler];
        }
        i := i + 1;
      }
      TableIsInstalled(old(installed), entries);
      IgnoredStay(old(installed), entries);
      forall s | !Names(signals, n, s) ensures Disposition(installed, s) == old(Disposition(installed, s)) {
        forall k | 0 <= k < |entries| ensures entries[k].signum != s { assert signals[k].signum != s; }
        NotWanted(entries, s);
      }
      assert forall i :: 0 <= i < n ==> entries[i] == signals[i];
    }

    method Find(s: int) returns (i: nat)
      requires Shape()
      ensures i <= n
      ensures i < n ==> signals[i].signum == s
      ensures forall k :: 0 <= k < i ==> signals[k].signum != s
    {
      i := 0;
      while i < n && signals[i].signum != s
        invariant 0 <= i <= n
        invariant forall k :: 0 <= k < i ==> signals[k].signum != s
      {
        i := i + 1;
      }
    }

    /** The body of the loop of start_sub_listener() for one signal number. */
    method StartOne(l: Listener, s: int) returns (changed: bool)
      requires Shape() && s != 0
      modifies this`signals, this`n
      ensures Shape()
      ensures forall x :: x != 0 ==>
          ListOf(signals, x) == if x == s then ListOf(old(signals), x) + [l] else ListOf(old(signals), x)
      ensures old(Valid()) && !changed ==> Valid()
    {
      var i := Find(s);
      if i < n {
        changed := signals[i].lstnrs == [];
        var e := Entry(s, signals[i].lstnrs + [l], Library);
        ReplacedKeeps(signals, n, installed, i, e);
        signals := signals[i := e];
      } else {
        var e := Entry(s, [l], Library);
        ExtendedKeeps(signals, n, installed, e, signals[..n] + [e, Entry(0, [], Default)]);
        signals := signals[..n] + [e, Entry(0, [], Default)];
        n := n + 1;
        changed := true;
      }
    }

    /** The body of the loop of stop_sub_listener(). */
    method StopOne(l: Listener, s: int) returns (changed: bool)
      requires Shape() && s != 0
      modifies this`signals
      ensures Shape()
      ensures forall x :: x != 0 ==>
          ListOf(signals, x) == if x == s then WithoutFirst(ListOf(old(signals), x), l) else ListOf(old(signals), x)
      ensures old(Valid()) && !changed ==> Valid()
    {
      var i := Find(s);
      if i == n {
        changed := false;
        NotInTable(signals, s);
      } else {
        var list := WithoutFirst(signals[i].lstnrs, l);
        changed := list == [];
        var e := Entry(s, list, if list == [] then Default else signals[i].handler);
        ReplacedKeeps(signals, n, installed, i, e);
        signals := signals[i := e];
      }
    }

    /** start_sub_listener(). The list of the listener is terminated by a zero. */
    method StartSub(l: Listener, sigs: seq<int>)
      requires Valid() && 0 in sigs
      modifies this
      ensures Valid()
      ensures forall s :: s != 0 ==> ListOf(signals, s) == Added(ListOf(old(signals), s), l, Count(Numbers(sigs), s))
      ensures KeepsIgnored(old(installed), installed)
    {
      ghost var numbers := Numbers(sigs);
      var changed := false;
      var k := 0;
      assert numbers[0..] == numbers;
      while sigs[k] != 0
        invariant 0 <= k <= |numbers|
        invariant Shape() && (!changed ==> Valid()) && installed == old(installed)
        invariant AddingLeadsTo(signals, l, numbers[k..], old(signals), numbers)
        decreases |sigs| - k
      {
        ghost var before := signals;
        var c := StartOne(l, sigs[k]);
        assert numbers[k..][0] == sigs[k] && numbers[k..][1..] == numbers[k + 1..];
        AddingOne(before, signals, l, numbers[k..], old(signals), numbers);
        changed := changed || c;
        k := k + 1;
      }
      if changed { UpdateSignals(); }
    }

    /** stop_sub_listener(). */
    method StopSub(l: Listener, sigs: seq<int>)
      requires Valid() && 0 in sigs
      modifies this
      ensures Valid()
      ensures forall s :: s != 0 ==>
                ListOf(signals, s) == AllRemoved(ListOf(old(signals), s), l, Count(Numbers(sigs), s))
      ensures KeepsIgnored(old(installed), installed)
    {
      ghost var numbers := Numbers(sigs);
      var changed := false;
      var k := 0;
      assert numbers[0..] == numbers;
      while sigs[k] != 0
        invariant 0 <= k <= |numbers|
        invariant Shape() && (!changed ==> Valid()) && installed == old(installed)
        invariant RemovingLeadsTo(signals, l, numbers[k..], old(signals), numbers)
        decreases |sigs| - k
      {
        ghost var before := signals;
        var c := StopOne(l, sigs[k]);
        assert numbers[k..][0] == sigs[k] && numbers[k..][1..] == numbers[k + 1..];
        RemovingOne(before, signals, l, numbers[k..], old(signals), numbers);
        changed := changed || c;
        k := k + 1;
      }
      if changed { UpdateSignals(); }
    }
  }

  /** Adding the listener to the lists of rest leads from signals to what adding it to those of all does from was. */
  ghost predicate AddingLeadsTo(signals: seq<Entry>, l: Listener, rest: seq<int>, was: seq<Entry>, all: seq<int>) {
    forall s :: s != 0 ==> Added(ListOf(signals, s), l, Count(rest, s)) == Added(ListOf(was, s), l, Count(all, s))
  }

  lemma AddingOne(signals: seq<Entry>, after: seq<Entry>, l: Listener, rest: seq<int>, was: seq<Entry>, all: seq<int>)
    requires rest != [] && AddingLeadsTo(signals, l, rest, was, all)
    requires forall s :: s != 0 ==>
               ListOf(after, s) == if s == rest[0] then ListOf(signals, s) + [l] else ListOf(signals, s)
    ensures AddingLeadsTo(after, l, rest[1..], was, all)
  {
  }

  ghost predicate RemovingLeadsTo(signals: seq<Entry>, l: Listener, rest: seq<int>, was: seq<Entry>, all: seq<int>) {
    forall s :: s != 0 ==>
      AllRemoved(ListOf(signals, s), l, Count(rest, s)) == AllRemoved(ListOf(was, s), l, Count(all, s))
  }

  lemma RemovingOne(signals: seq<Entry>, after: seq<Entry>, l: Listener, rest: seq<int>, was: seq<Entry>, all: seq<int>)
    requires rest != [] && RemovingLeadsTo(signals, l, rest, was, all)
    requires forall s :: s != 0 ==>
               ListOf(after, s) == if s == rest[0] then WithoutFirst(ListOf(signals, s), l) else ListOf(signals, s)
    ensures RemovingLeadsTo(after, l, rest[1..], was, all)
  {
  }

  /** The handler of the library is installed if and only if the signal has listeners, unless the signal is
      ignored. A signal whose last listener stopped gets the default action, whatever it had before. */
  lemma HandlerFollowsListeners(t: SignalTable, s: int)
    requires t.Valid() && s != 0 && t.Installed(s) != Ignore
    ensures t.Installed(s) == Library <==> ListOf(t.signals, s) != []
    ensures Names(t.signals, t.n, s) && ListOf(t.signals, s) == [] ==> t.Installed(s) == Default
  {
    if Names(t.signals, t.n, s) {
      var i :| 0 <= i < t.n && i < |t.signals| && t.signals[i].signum == s;
      ReplacedKeeps(t.signals, t.n, t.installed, i, t.signals[i]);
    } else {
      forall k | 0 <= k < |t.signals| ensures t.signals[k].signum != s {
        if k < t.n { assert !(t.signals[k].signum == s); }
      }
      NotInTable(t.signals, s);
    }
  }

  // ---------------------------------------------------------------------------------- runs of operations

  datatype Op = Start(l: Listener, sigs: seq<int>) | Stop(l: Listener, sigs: seq<int>)

  /** The list of signal s after the operations, by what StartSub and StopSub promise. */
  function ListAfter(ops: seq<Op>, s: int): seq<Listener> {
    if ops == [] then []
    else
      var before, op := ListAfter(ops[..|ops| - 1], s), ops[|ops| - 1];
      match op
      case Start(l, sigs) => Added(before, l, Count(sigs, s))
      case Stop(l, sigs) => AllRemoved(before, l, Count(sigs, s))
  }

  /** The listeners that were started and not stopped, with their signals. */
  function Live(ops: seq<Op>): map<Listener, seq<int>> {
    if ops == [] then map[]
    else
      var before, op := Live(ops[..|ops| - 1]), ops[|ops| - 1];
      if op.Start? then before[op.l := op.sigs] else before - {op.l}
  }

  /** Listeners start when they are stopped and stop when they are started, with the same signals. */
  ghost predicate Alternating(ops: seq<Op>) {
    ops == [] || (
      var before, op := ops[..|ops| - 1], ops[|ops| - 1];
      && Alternating(before)
      && if op.Start? then op.l !in Live(before) else op.l in Live(before) && Live(before)[op.l] == op.sigs)
  }

  lemma {:induction false} AddedCount(list: seq<Listener>, l: Listener, k: nat)
    ensures multiset(Added(list, l, k)) == multiset(list)[l := multiset(list)[l] + k]
    decreases k
  {
    if k > 0 { AddedCount(list + [l], l, k - 1); }
  }

  lemma {:induction false} RemovedFirstCount(list: seq<Listener>, l: Listener)
    ensures multiset(WithoutFirst(list, l)) == multiset(list) - multiset{l}
  {
    if list != [] {
      assert list == [list[0]] + list[1..];
      if list[0] != l { RemovedFirstCount(list[1..], l); }
    }
  }

  lemma {:induction false} RemovedCount(list: seq<Listener>, l: Listener, k: nat)
    ensures var c := multiset(list)[l];
            multiset(AllRemoved(list, l, k)) == multiset(list)[l := if c > k then c - k else 0]
    decreases k
  {
    if k > 0 {
      RemovedFirstCount(list, l);
      RemovedCount(WithoutFirst(list, l), l, k - 1);
    }
  }

  /** After any operations the list of a signal holds every live listener as often as it asked for the signal,
      and nobody else. */
  lemma {:induction false} ListIsLiveSubscriptions(ops: seq<Op>, s: int, l: Listener)
    requires Alternating(ops)
    ensures multiset(ListAfter(ops, s))[l] == if l in Live(ops) then Count(Live(ops)[l], s) else 0
    decreases |ops|
  {
    if ops != [] {
      var before, op := ops[..|ops| - 1], ops[|ops| - 1];
      ListIsLiveSubscriptions(before, s, l);
      if op.Start? {
        AddedCount(ListAfter(before, s), op.l, Count(op.sigs, s));
      } else {
        RemovedCount(ListAfter(before, s), op.l, Count(op.sigs, s));
      }
    }
  }

  lemma {:induction false} NotInTable(signals: seq<Entry>, s: int)
    requires forall k :: 0 <= k < |signals| ==> signals[k].signum != s
    ensures ListOf(signals, s) == []
  {
    if signals != [] { NotInTable(signals[1..], s); }
  }

  lemma {:induction false} NumbersOfTerminated(sigs: seq<int>)
    requires 0 !in sigs
    ensures 0 in sigs + [0] && Numbers(sigs + [0]) == sigs
  {
    if sigs != [] {
      assert (sigs + [0])[1..] == sigs[1..] + [0];
      NumbersOfTerminated(sigs[1..]);
    }
  }

  /** The operations carried out on a table: the lists are those of ListAfter, so that each holds the live
      subscriptions, and the installed handlers follow. */
  method PlayAll(t: SignalTable, ops: seq<Op>)
    requires t.Valid() && t.signals == [] && forall k :: 0 <= k < |ops| ==> 0 !in ops[k].sigs
    modifies t
    ensures t.Valid() && KeepsIgnored(old(t.installed), t.installed)
    ensures forall s :: s != 0 ==> ListOf(t.signals, s) == ListAfter(ops, s)
    ensures Alternating(ops) ==> forall s, l :: s != 0 ==>
              multiset(ListOf(t.signals, s))[l] == if l in Live(ops) then Count(Live(ops)[l], s) else 0
    ensures forall s :: s != 0 && t.Installed(s) != Ignore ==> (t.Installed(s) == Library <==> ListAfter(ops, s) != [])
  {
    for k := 0 to |ops|
      invariant t.Valid() && KeepsIgnored(old(t.installed), t.installed)
      invariant forall s :: s != 0 ==> ListOf(t.signals, s) == ListAfter(ops[..k], s)
    {
      assert ops[..k + 1][..k] == ops[..k];
      NumbersOfTerminated(ops[k].sigs);
      match ops[k] {
        case Start(l, sigs) => t.StartSub(l, sigs + [0]);
        case Stop(l, sigs) => t.StopSub(l, sigs + [0]);
      }
    }
    assert ops[..|ops|] == ops;
    forall s, l | s != 0 && Alternating(ops)
      ensures multiset(ListOf(t.signals, s))[l] == if l in Live(ops) then Count(Live(ops)[l], s) else 0
    {
      ListIsLiveSubscriptions(ops, s, l);
    }
    forall s | s != 0 && t.Installed(s) != Ignore ensures t.Installed(s) == Library <==> ListAfter(ops, s) != [] {
      HandlerFollowsListeners(t, s);
    }
  }
}
