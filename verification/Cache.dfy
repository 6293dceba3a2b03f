/** The cache task with the simple layout (src/cache.c) in front of the other tasks of a graph. */
module Cache {
  import opened Wrappers
  import opened TaskGraph
  import Runs

  /** A response is a string or a reference to a dictionary. */
  datatype Value = Str(s: string) | DictRef(id: nat)
  datatype Item = Item(key: Option<string>, size: nat, value: Value)

  datatype Entry = Entry(key: string, size: nat, value: Value)

  datatype Event = Event(description: string, data: int, response: Option<Item>)

  /** What a traversal works on: the entries of the cache and the event. */
  datatype World = World(entries: seq<Entry>, event: Event)

  /** Session data of the cache task, or of another task. */
  datatype Session = Own(key: Option<string>, hit: bool) | Theirs(s: int)

  // ------------------------------------------------------------------------------------ the cache task

  /** The index of the first entry with the key, the number of entries if there is none. */
  function Find(entries: seq<Entry>, key: string): (i: nat)
    ensures i <= |entries|
    ensures forall k :: 0 <= k < i ==> entries[k].key != key
    ensures i < |entries| ==> entries[i].key == key
  {
    if entries == [] || entries[0].key == key then 0 else 1 + Find(entries[1..], key)
  }

  /** The response for a hit: a copy with the key of the entry. */
  function FromEntry(e: Entry): Item { Item(Some(e.key), e.size, e.value) }

  /** The size is kept for strings only. */
  function ToEntry(key: string, item: Item): Entry {
    Entry(key, if item.value.Str? then item.size else 0, item.value)
  }

  type KeyOf = (string, int) -> Option<string>

  function Handler(keyOf: KeyOf, w: World): (World, Session, bool) {
    var key := keyOf(w.event.description, w.event.data);
    if key.None? then (w, Own(None, false), true)
    else
      var i := Find(w.entries, key.value);
      if i < |w.entries| then (w.(event := w.event.(response := Some(FromEntry(w.entries[i])))), Own(key, true), false)
      else (w, Own(key, false), true)
  }

  function Cleaner(w: World, session: Session): World {
    match session
    case Own(Some(key), false) =>
      if w.event.response.Some? then w.(entries := w.entries + [ToEntry(key, w.event.response.value)]) else w
    case _ => w
  }

  class CacheTask {
    var entries: seq<Entry>

    constructor ()
      ensures entries == []
    {
      entries := [];
    }

    /** crtx_cache_match_cb_t_strcmp(). */
    method Match(key: string) returns (i: nat)
      ensures i == Find(entries, key)
    {
      i := 0;
      while i < |entries| && entries[i].key != key
        invariant 0 <= i <= |entries|
        invariant forall k :: 0 <= k < i ==> entries[k].key != key
      {
        i := i + 1;
      }
    }

    /** crtx_cache_task_handler() and crtx_cache_on_hit(). */
    method TaskHandler(keyOf: KeyOf, event: Event) returns (after: Event, session: Session, keepGoing: bool)
      ensures (World(entries, after), session, keepGoing) == Handler(keyOf, World(entries, event))
    {
      after := event;
      var key := keyOf(event.description, event.data);
      if key.None? { return after, Own(None, false), true; }
      var i := Match(key.value);
      if i == |entries| { return after, Own(key, false), true; }
      after := event.(response := Some(FromEntry(entries[i])));
      return after, Own(key, true), false;
    }

    /** crtx_cache_add_entry(). */
    method AddEntry(key: string, response: Item)
      modifies this
      ensures entries == old(entries) + [ToEntry(key, response)]
    {
      var size := match response.value case Str(_) => response.size case DictRef(_) => 0;
      entries := entries + [Entry(key, size, response.value)];
    }

    /** crtx_cache_task_cleanup(). */
    method TaskCleanup(event: Event, session: Session)
      modifies this
      ensures World(entries, event) == Cleaner(World(old(entries), event), session)
    {
      if session.Own? && session.key.Some? && !session.hit && event.response.Some? {
        AddEntry(session.key.value, event.response.value);
      }
    }
  }

  // ------------------------------------------------------------------------------------------- the graph

  function Task(keyOf: KeyOf): Behaviour<World, Session> {
    Behaviour(None, Some((w: World) => Handler(keyOf, w)), Some((w: World, s: Session) => Cleaner(w, s)))
  }

  /** A task that knows nothing of the cache. */
  type Other = Behaviour<Event, int>

  function Lifted(b: Other): Behaviour<World, Session> {
    Behaviour(b.match_,
              if b.handle.None? then None
              else Some((w: World) => var (e, s, keep) := b.handle.value(w.event); (w.(event := e), Theirs(s), keep)),
              if b.cleanup.None? then None
              else Some((w: World, s: Session) => if s.Theirs? then w.(event := b.cleanup.value(w.event, s.s)) else w))
  }

  function AllLifted(others: seq<Other>): seq<Behaviour<World, Session>> {
    seq(|others|, i requires 0 <= i < |others| => Lifted(others[i]))
  }

  /** How keys are made, the tasks behind the cache task, and what their session data hold before it is set. */
  datatype Graph = Graph(keyOf: KeyOf, others: seq<Other>, junk: nat -> int)

  function Key(g: Graph, e: Event): Option<string> { g.keyOf(e.description, e.data) }

  /** The graph with the cache in front. */
  function Tasks(g: Graph): seq<Behaviour<World, Session>> {
    [Task(g.keyOf)] + AllLifted(g.others)
  }

  function PlainTrip(g: Graph, description: string): Trip<Event, int> {
    Trip(description, (e: Event) => e.response.Some?, false, g.junk)
  }

  function CachedTrip(g: Graph, description: string): Trip<World, Session> {
    Trip(description, (w: World) => w.event.response.Some?, false,
         (i: nat) => Theirs(if i == 0 then 0 else g.junk(i - 1)))
  }

  /** The response to an event without a cache. */
  function Plain(g: Graph, e: Event): Option<Item> {
    if g.others == [] then e.response else Walk(g.others, 0, PlainTrip(g, e.description), e).0.response
  }

  /** The traversal of the graph with the cache. */
  function Cached(g: Graph, entries: seq<Entry>, e: Event): World {
    Walk(Tasks(g), 0, CachedTrip(g, e.description), World(entries, e)).0
  }

  /** The event gets past the cache task to the others. */
  predicate Reaches(g: Graph, entries: seq<Entry>, e: Event) {
    Visited(Tasks(g), 0, CachedTrip(g, e.description), World(entries, e)) > 1
  }

  lemma {:induction false} OthersLeaveCacheAlone(g: Graph, i: nat, d: string, w: World)
    requires i < |g.others|
    ensures Walk(Tasks(g), i + 1, CachedTrip(g, d), w).0 ==
            w.(event := Walk(g.others, i, PlainTrip(g, d), w.event).0)
    decreases |g.others| - i
  {
    var plain, cached := PlainTrip(g, d), CachedTrip(g, d);
    var b := g.others[i];
    assert Tasks(g)[i + 1] == Lifted(b);
    var (e1, s1, k1) := AfterHandle(b, i, plain, w.event);
    assert AfterHandle(Lifted(b), i + 1, cached, w) == (w.(event := e1), Theirs(s1), k1);
    if i + 1 < |g.others| && (!plain.responded(e1) || k1) {
      OthersLeaveCacheAlone(g, i + 1, d, w.(event := e1));
    }
  }

  /** What a traversal with the cache comes to. On a hit the others are not reached and the response is that
      of the entry, on a miss it is the response of the others and a new entry is made from it. */
  lemma {:induction false} CachedTraversal(g: Graph, entries: seq<Entry>, e: Event)
    requires g.others != [] && e.response.None?
    ensures var key, answer, after := Key(g, e), Plain(g, e), Cached(g, entries, e);
            var hit := key.Some? && Find(entries, key.value) < |entries|;
            && (Reaches(g, entries, e) <==> !hit)
            && after.event.response == (if hit then Some(FromEntry(entries[Find(entries, key.value)])) else answer)
            && after.entries == if hit || key.None? ||
                answer.None? then entries else entries + [ToEntry(key.value, answer.value)]
  {
    var w, trip := World(entries, e), CachedTrip(g, e.description);
    var (w1, s1, k1) := Handler(g.keyOf, w);
    assert Tasks(g)[0] == Task(g.keyOf);
    assert AfterHandle(Task(g.keyOf), 0, trip, w) == (w1, s1, k1);
    if k1 { OthersLeaveCacheAlone(g, 0, e.description, w1); }
  }

  // ----------------------------------------------------------------------------- one event after another

  /** Events come without a response. */
  ghost predicate Fresh(events: seq<Event>) {
    forall i :: 0 <= i < |events| ==> events[i].response.None?
  }

  function EntriesAfter(g: Graph, events: seq<Event>): seq<Entry> {
    if events == [] then [] else Cached(g, EntriesAfter(g, events[..|events| - 1]), events[|events| - 1]).entries
  }

  /** The response that event i gets when the events before it went through the cache. */
  function Answer(g: Graph, events: seq<Event>, i: nat): Option<Item>
    requires i < |events|
  {
    Cached(g, EntriesAfter(g, events[..i]), events[i]).event.response
  }

  predicate SameAnswer(a: Option<Item>, b: Option<Item>) {
    a.Some? == b.Some? && (a.Some? ==> a.value.value == b.value.value)
  }

  /** The event has the key and was answered by the others. */
  ghost predicate Answers(g: Graph, e: Event, key: string) {
    Key(g, e) == Some(key) && Plain(g, e).Some?
  }

  ghost predicate Answered(g: Graph, events: seq<Event>, key: string) {
    exists i :: 0 <= i < |events| && Answers(g, events[i], key)
  }

  ghost predicate UniqueKeys(es: seq<Entry>) {
    forall i, j :: 0 <= i < j < |es| ==> es[i].key != es[j].key
  }

  /** The entry was made from the answer to one of the events. */
  ghost predicate MadeFrom(g: Graph, events: seq<Event>, entry: Entry) {
    exists i :: 0 <= i < |events| && Answers(g, events[i], entry.key) &&
        entry == ToEntry(entry.key, Plain(g, events[i]).value)
  }

  lemma OneMoreEvent(g: Graph, events: seq<Event>)
    requires g.others != [] && Fresh(events) && events != []
    ensures var before, e := EntriesAfter(g, events[..|events| - 1]), events[|events| - 1];
            EntriesAfter(g, events) ==
            if Key(g, e).None? || Find(before, Key(g, e).value) < |before| || Plain(g, e).None? then before
            else before + [ToEntry(Key(g, e).value, Plain(g, e).value)]
  {
    CachedTraversal(g, EntriesAfter(g, events[..|events| - 1]), events[|events| - 1]);
  }

  /** Every key has at most one entry. */
  lemma {:induction false} KeysStayUnique(g: Graph, events: seq<Event>)
    requires g.others != [] && Fresh(events)
    ensures UniqueKeys(EntriesAfter(g, events))
  {
    if events != [] {
      OneMoreEvent(g, events);
      KeysStayUnique(g, events[..|events| - 1]);
    }
  }

  /** Entries hold answers that the others gave. */
  lemma {:induction false} EntriesAreAnswers(g: Graph, events: seq<Event>, entry: Entry)
    requires g.others != [] && Fresh(events) && entry in EntriesAfter(g, events)
    ensures MadeFrom(g, events, entry)
  {
    var before := events[..|events| - 1];
    OneMoreEvent(g, events);
    if entry in EntriesAfter(g, before) {
      EntriesAreAnswers(g, before, entry);
      var i :| 0 <= i < |before| && Answers(g, before[i], entry.key) &&
          entry == ToEntry(entry.key, Plain(g, before[i]).value);
      assert events[i] == before[i];
    } else {
      assert Answers(g, events[|events| - 1], entry.key);
    }
  }

  lemma {:induction false} FindAfterAppend(es: seq<Entry>, e: Entry, key: string)
    ensures Find(es + [e], key) < |es| + 1 <==> Find(es, key) < |es| || e.key == key
  {
    if Find(es, key) < |es| {
      assert (es + [e])[Find(es, key)].key == key;
    } else if e.key == key {
      assert (es + [e])[|es|].key == key;
    }
  }

  /** A key has an entry if and only if an event with it was answered. */
  lemma {:induction false} FoundIffAnswered(g: Graph, events: seq<Event>, key: string)
    requires g.others != [] && Fresh(events)
    ensures Find(EntriesAfter(g, events), key) < |EntriesAfter(g, events)| <==> Answered(g, events, key)
  {
    if events != [] {
      var before, e := events[..|events| - 1], events[|events| - 1];
      OneMoreEvent(g, events);
      FoundIffAnswered(g, before, key);
      if Key(g, e).Some? && Plain(g, e).Some? {
        FindAfterAppend(EntriesAfter(g, before), ToEntry(Key(g, e).value, Plain(g, e).value), key);
      }
      AnsweredByLast(g, events, key);
    }
  }

  lemma AnsweredByLast(g: Graph, events: seq<Event>, key: string)
    requires events != []
    ensures Answered(g, events, key) <==>
        Answered(g, events[..|events| - 1], key) || Answers(g, events[|events| - 1], key)
  {
    var before := events[..|events| - 1];
    if Answered(g, before, key) {
      var i :| 0 <= i < |before| && Answers(g, before[i], key);
      assert events[i] == before[i];
    }
    if Answered(g, events, key) {
      var i :| 0 <= i < |events| && Answers(g, events[i], key);
      if i < |before| { assert before[i] == events[i]; }
    }
  }

  // ----------------------------------------------------------------------------------------- the theorems

  /** An event reaches the other tasks if and only if it has no key or no event with its key was answered
      before it. In particular every key reaches them once at most, if it is answered then. */
  lemma {:induction false} ReachesOthersIff(g: Graph, events: seq<Event>, i: nat)
    requires g.others != [] && Fresh(events) && i < |events|
    ensures Reaches(g, EntriesAfter(g, events[..i]), events[i]) <==>
            Key(g, events[i]).None? || !Answered(g, events[..i], Key(g, events[i]).value)
  {
    CachedTraversal(g, EntriesAfter(g, events[..i]), events[i]);
    if Key(g, events[i]).Some? { FoundIffAnswered(g, events[..i], Key(g, events[i]).value); }
  }

  /** A hit gives back what was stored from an earlier answer to the key: its value, for a string its size, for a
      dictionary the size 0, and the key of the entry as key. */
  lemma {:induction false} HitGivesBackWhatWasStored(g: Graph, events: seq<Event>, i: nat)
    requires g.others != [] && Fresh(events) && i < |events|
    requires !Reaches(g, EntriesAfter(g, events[..i]), events[i])
    ensures exists j :: 0 <= j < i && Key(g, events[j]) == Key(g, events[i]) && Plain(g, events[j]).Some?
                        && Answer(g, events, i).Some?
                        && Answer(g, events, i).value.key == Key(g, events[i])
                        && Answer(g, events, i).value.value == Plain(g, events[j]).value.value
                        && Answer(g, events, i).value.size ==
                           (if Plain(g, events[j]).value.value.Str? then Plain(g, events[j]).value.size else 0)
  {
    var es, e := EntriesAfter(g, events[..i]), events[i];
    CachedTraversal(g, es, e);
    var entry := es[Find(es, Key(g, e).value)];
    EntriesAreAnswers(g, events[..i], entry);
    var j :| 0 <= j < i && Answers(g, events[..i][j], entry.key)
             && entry == ToEntry(entry.key, Plain(g, events[..i][j]).value);
    assert events[..i][j] == events[j];
  }

  /** The answer depends on the key only. */
  ghost predicate KeyDetermines(g: Graph) {
    forall a: Event, b: Event :: a.response.None? && b.response.None? && Key(g, a).Some? && Key(g, a) == Key(g, b) ==>
                                   SameAnswer(Plain(g, a), Plain(g, b))
  }

  /** No event can tell the cache from its absence by the type and value of the response. */
  ghost predicate Transparent(g: Graph) {
    forall events, i :: Fresh(events) && 0 <= i < |events| ==> SameAnswer(Answer(g, events, i), Plain(g, events[i]))
  }

  lemma {:induction false} AnswerIsPlain(g: Graph, events: seq<Event>, i: nat)
    requires g.others != [] && KeyDetermines(g) && Fresh(events) && i < |events|
    ensures SameAnswer(Answer(g, events, i), Plain(g, events[i]))
  {
    var es, e := EntriesAfter(g, events[..i]), events[i];
    CachedTraversal(g, es, e);
    if Key(g, e).Some? && Find(es, Key(g, e).value) < |es| {
      var entry := es[Find(es, Key(g, e).value)];
      EntriesAreAnswers(g, events[..i], entry);
      var j :| 0 <= j < i && Answers(g, events[..i][j], entry.key) &&
          entry == ToEntry(entry.key, Plain(g, events[..i][j]).value);
      assert events[..i][j] == events[j];
      assert SameAnswer(Plain(g, events[j]), Plain(g, e));
    }
  }

  /** With two events that have the same key but different answers, one order shows the cache. */
  lemma {:induction false} SecondEventIsAnsweredWrongly(g: Graph, a: Event, b: Event)
    requires g.others != [] && a.response.None? && b.response.None?
    requires Key(g, a).Some? && Key(g, a) == Key(g, b) && Plain(g, a).Some? && !SameAnswer(Plain(g, a), Plain(g, b))
    ensures Fresh([a, b]) && !SameAnswer(Answer(g, [a, b], 1), Plain(g, b))
  {
    assert [a, b][..1] == [a] && [a][..0] == [];
    OneMoreEvent(g, [a]);
    var es := EntriesAfter(g, [a]);
    assert es == [ToEntry(Key(g, a).value, Plain(g, a).value)];
    CachedTraversal(g, es, b);
  }

  /** The cache is transparent if and only if the answer of the tasks behind it depends on the key only. */
  lemma {:induction false} TransparentIffKeyDetermines(g: Graph)
    requires g.others != []
    ensures Transparent(g) <==> KeyDetermines(g)
  {
    if KeyDetermines(g) {
      forall events, i | Fresh(events) && 0 <= i < |events|
        ensures SameAnswer(Answer(g, events, i), Plain(g, events[i]))
      {
        AnswerIsPlain(g, events, i);
      }
    } else {
      var a: Event, b: Event :| a.response.None? && b.response.None? && Key(g, a).Some? && Key(g, a) == Key(g, b) &&
                  !SameAnswer(Plain(g, a), Plain(g, b));
      if Plain(g, a).Some? {
        SecondEventIsAnsweredWrongly(g, a, b);
      } else {
        SecondEventIsAnsweredWrongly(g, b, a);
      }
    }
  }

  // -------------------------------------------------------------------------- overlapping traversals

  /** A traversal between the handler and the cleanup of the cache task: its event and its session data. */
  datatype Open = Open(event: Event, session: Session)

  /** The entries and the traversals under way. A handler of a later task that runs the event loop nests a
      traversal in its own; other threads overlap in any way. Handler and cleanup hold cache->mutex. */
  datatype Traffic = Traffic(entries: seq<Entry>, open: map<nat, Open>)

  /** Traversal t begins with an event, or ends after the other tasks gave the answer. */
  datatype Visit = Begin(t: nat, event: Event) | End(t: nat, answer: Option<Item>)

  const QUIET := Traffic([], map[])

  /** After a hit the others are not reached, so that the response stays what the handler set. */
  function Ended(o: Open, answer: Option<Item>): Event {
    if o.session.Own? && o.session.hit then o.event else o.event.(response := answer)
  }

  function Step(keyOf: KeyOf, s: Traffic, a: Visit): Option<Traffic> {
    match a
    case Begin(t, event) =>
      if t in s.open then None
      else
        var (w, session, _) := Handler(keyOf, World(s.entries, event));
        Some(Traffic(w.entries, s.open[t := Open(w.event, session)]))
    case End(t, answer) =>
      if t !in s.open then None
      else Some(Traffic(Cleaner(World(s.entries, Ended(s.open[t], answer)), s.open[t].session).entries, s.open - {t}))
  }

  function Next(keyOf: KeyOf): (Traffic, Visit) -> Option<Traffic> {
    (s, a) => Step(keyOf, s, a)
  }

  /** A traversal that missed ends with an answer although its key has an entry by now. */
  predicate EndsLate(s: Traffic, a: Visit) {
    && a.End? && a.t in s.open && a.answer.Some?
    && s.open[a.t].session.Own? && s.open[a.t].session.key.Some? && !s.open[a.t].session.hit
    && Find(s.entries, s.open[a.t].session.key.value) < |s.entries|
  }

  lemma AppendedKey(es: seq<Entry>, e: Entry)
    ensures UniqueKeys(es + [e]) <==> UniqueKeys(es) && Find(es, e.key) == |es|
  {
    var r, k := es + [e], Find(es, e.key);
    if k < |es| { assert r[k].key == r[|es|].key; }
    if UniqueKeys(r) {
      forall i, j | 0 <= i < j < |es| ensures es[i].key != es[j].key {
        assert r[i].key != r[j].key;
      }
    }
    if UniqueKeys(es) && Find(es, e.key) == |es| {
      forall i, j | 0 <= i < j < |r| ensures r[i].key != r[j].key {
        if j < |es| { assert es[i].key != es[j].key; }
      }
    }
  }

  lemma StepKeepsKeysUniqueIff(keyOf: KeyOf, s: Traffic, a: Visit)
    requires OpenOk(s) && Step(keyOf, s, a).Some?
    ensures OpenOk(Step(keyOf, s, a).value)
    ensures UniqueKeys(Step(keyOf, s, a).value.entries) <==> UniqueKeys(s.entries) && !EndsLate(s, a)
  {
    if a.End? && s.open[a.t].session.key.Some? && !s.open[a.t].session.hit && a.answer.Some? {
      AppendedKey(s.entries, ToEntry(s.open[a.t].session.key.value, a.answer.value));
    }
  }

  /** The session data are those of the cache task. */
  ghost predicate OpenOk(s: Traffic) {
    forall t :: t in s.open ==> s.open[t].session.Own?
  }

  /** Action k of the run ends a traversal late. */
  ghost predicate LateAt(keyOf: KeyOf, acts: seq<Visit>, k: nat)
    requires k < |acts|
  {
    var s := Runs.Play(Next(keyOf), QUIET, acts[..k]); s.Some? && EndsLate(s.value, acts[k])
  }

  lemma OneMoreVisit(keyOf: KeyOf, acts: seq<Visit>)
    requires acts != []
    ensures var before := Runs.Play(Next(keyOf), QUIET, acts[..|acts| - 1]);
            Runs.Play(Next(keyOf), QUIET, acts) ==
            if before.None? then None else Step(keyOf, before.value, acts[|acts| - 1])
  {
    var last := [acts[|acts| - 1]];
    assert acts == acts[..|acts| - 1] + last;
    assert last[1..] == [];
    Runs.Cut(Next(keyOf), QUIET, acts[..|acts| - 1], last);
  }

  /** However traversals overlap, keys stay unique in a run if and only if no traversal that missed and was
      answered ends after its key was added. */
  lemma {:induction false} KeysUniqueIffNoLateEnd(keyOf: KeyOf, acts: seq<Visit>)
    requires Runs.Play(Next(keyOf), QUIET, acts).Some?
    ensures OpenOk(Runs.Play(Next(keyOf), QUIET, acts).value)
    ensures UniqueKeys(Runs.Play(Next(keyOf), QUIET, acts).value.entries) <==>
            forall k :: 0 <= k < |acts| ==> !LateAt(keyOf, acts, k)
    decreases |acts|
  {
    if acts != [] {
      var n: nat, before := |acts| - 1, acts[..|acts| - 1];
      OneMoreVisit(keyOf, acts);
      KeysUniqueIffNoLateEnd(keyOf, before);
      StepKeepsKeysUniqueIff(keyOf, Runs.Play(Next(keyOf), QUIET, before).value, acts[n]);
      forall k | 0 <= k < n ensures LateAt(keyOf, before, k) <==> LateAt(keyOf, acts, k) {
        assert before[..k] == acts[..k] && before[k] == acts[k];
      }
      assert LateAt(keyOf, acts, n) <==> EndsLate(Runs.Play(Next(keyOf), QUIET, before).value, acts[n]);
      assert (forall k :: 0 <= k < |acts| ==> !LateAt(keyOf, acts, k)) <==>
             (forall k :: 0 <= k < n ==> !LateAt(keyOf, before, k)) && !LateAt(keyOf, acts, n);
    }
  }

  /** A traversal nested in another one with the same key, as happens when a handler runs the event loop: both
      miss, both are answered, and the key has two entries. */
  lemma NestedTraversalsDuplicateKeys(keyOf: KeyOf, e: Event, key: string, answer: Item)
    requires keyOf(e.description, e.data) == Some(key)
    ensures var nested := [Begin(0, e), Begin(1, e), End(1, Some(answer)), End(0, Some(answer))];
            Runs.Play(Next(keyOf), QUIET, nested) == Some(Traffic([ToEntry(key, answer), ToEntry(key, answer)], map[]))
    ensures !UniqueKeys([ToEntry(key, answer), ToEntry(key, answer)])
  {
    var entry, missed := ToEntry(key, answer), Open(e, Own(Some(key), false));
    var s1, s2 := Traffic([], map[0 := missed]), Traffic([], map[0 := missed, 1 := missed]);
    var s3 := Traffic([entry], map[0 := missed]);
    var s4 := Traffic([entry, entry], map[]);
    NestedSteps(keyOf, e, key, answer, s1, s2, s3, s4);
    Runs.Along(Next(keyOf), [QUIET, s1, s2, s3, s4],
               [Begin(0, e), Begin(1, e), End(1, Some(answer)), End(0, Some(answer))]);
    assert [entry, entry][0].key == [entry, entry][1].key;
  }

  lemma NestedSteps(keyOf: KeyOf, e: Event, key: string, answer: Item, s1: Traffic, s2: Traffic, s3: Traffic,
      s4: Traffic)
    requires keyOf(e.description, e.data) == Some(key)
    requires var entry, missed := ToEntry(key, answer), Open(e, Own(Some(key), false));
             && s1 == Traffic([], map[0 := missed]) && s2 == Traffic([], map[0 := missed, 1 := missed])
             && s3 == Traffic([entry], map[0 := missed]) && s4 == Traffic([entry, entry], map[])
    ensures Step(keyOf, QUIET, Begin(0, e)) == Some(s1)
    ensures Step(keyOf, s1, Begin(1, e)) == Some(s2)
    ensures Step(keyOf, s2, End(1, Some(answer))) == Some(s3)
    ensures Step(keyOf, s3, End(0, Some(answer))) == Some(s4)
  {
    var entry := ToEntry(key, answer);
    assert [] + [entry] == [entry] && [entry] + [entry] == [entry, entry];
    assert s2.open - {1} == s1.open;
    assert s3.open - {0} == map[];
  }
}
