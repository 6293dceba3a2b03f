/** Reference counts of nested dictionaries (src/dict.c): releasing a dictionary releases what only it holds.

    Memory is a map from addresses to dictionaries; freeing removes an address from the map, so that proving
    each access to lie in the map proves that nothing is used after it was freed. */
module DictRefs {
  import opened Wrappers
  import opened Sequences

  type Ref = int

  /** The dictionary that an item points to, None for a null pointer and for items of other types, and
      whether the item carries the flag CRTX_DIF_LAST_ITEM. */
  datatype Item = Item(dict: Option<Ref>, last: bool)

  datatype Dict = Dict(refCount: nat, items: seq<Item>)

  type Memory = map<Ref, Dict>

  predicate PointsTo(m: Memory, c: Ref, i: int, r: Ref) {
    c in m && 0 <= i < |m[c].items| && m[c].items[i].dict == Some(r)
  }

  /** The slots that point to r, except those that are being released. */
  ghost function Slots(m: Memory, releasing: set<(Ref, int)>, r: Ref): set<(Ref, int)> {
    set c, i | c in m && 0 <= i < |m[c].items| && PointsTo(m, c, i, r) && (c, i) !in releasing :: (c, i)
  }

  /** No item behind the first one flagged as last holds a dictionary. */
  predicate NoEarlyLast(d: Dict) {
    forall i, j :: 0 <= i < j < |d.items| && d.items[i].last ==> d.items[j].dict == None
  }

  ghost predicate CountIsExact(m: Memory, ext: multiset<Ref>, releasing: set<(Ref, int)>, r: Ref) {
    r in m && m[r].refCount == |Slots(m, releasing, r)| + ext[r]
  }

  /** Pointers lead to dictionaries in memory, and counts are exact: external handles plus item slots. Slots
      are being released only in a dictionary that is being freed. */
  ghost predicate Exact(m: Memory, ext: multiset<Ref>, releasing: set<(Ref, int)>) {
    && (forall c, i {:trigger (c, i) in releasing} :: (c, i) in releasing ==> c in m && m[c].refCount == 0)
    && (forall c, i, r :: PointsTo(m, c, i, r) && (c, i) !in releasing ==> r in m)
    && (forall r {:trigger ext[r]} :: r in ext ==> r in m)
    && (forall r {:trigger CountIsExact(m, ext, releasing, r)} :: r in m ==> CountIsExact(m, ext, releasing, r))
    && (forall c {:trigger NoEarlyLast(m[c])} :: c in m ==> NoEarlyLast(m[c]))
  }

  /** A rank that decreases along every pointer exists exactly for heaps without cycles. */
  ghost predicate Ranked(m: Memory, rank: Ref -> nat) {
    forall c, i, r :: PointsTo(m, c, i, r) ==> rank(r) < rank(c)
  }

  // ---------------------------------------------------------------------------------- reachability

  ghost predicate Holds(m: Memory, c: Ref, r: Ref) {
    exists i :: PointsTo(m, c, i, r)
  }

  /** path leads from an external handle over item slots to its last element. */
  ghost predicate Path(m: Memory, ext: multiset<Ref>, path: seq<Ref>) {
    && path != [] && path[0] in ext && (forall k :: 0 <= k < |path| ==> path[k] in m)
    && (forall k :: 0 <= k < |path| - 1 ==> Holds(m, path[k], path[k + 1]))
  }

  ghost predicate Reachable(m: Memory, ext: multiset<Ref>, r: Ref) {
    exists path :: Path(m, ext, path) && path[|path| - 1] == r
  }

  // ------------------------------------------------------------------------------------ what a call does

  /** From m to n, dictionaries may have been freed; the others keep their items, a count of zero marks
      those that an enclosing call is freeing: they are not touched, and no new ones remain. */
  ghost predicate Shrunk(m: Memory, n: Memory) {
    && n.Keys <= m.Keys
    && (forall c {:trigger n[c]} :: c in n ==> n[c].items == m[c].items && n[c].refCount <= m[c].refCount)
    && (forall c {:trigger m[c]} :: c in m && m[c].refCount == 0 ==> c in n)
    && (forall c {:trigger n[c]} :: c in n && n[c].refCount == 0 ==> m[c].refCount == 0)
  }

  /** The log grew by the addresses that left the memory, each of them once. */
  ghost predicate Logged(before: seq<Ref>, after: seq<Ref>, gone: set<Ref>) {
    && |before| <= |after| && after[..|before|] == before
    && NoDuplicates(after[|before|..])
    && (forall r :: r in after[|before|..] <==> r in gone)
  }

  lemma LoggedTwice(a: seq<Ref>, b: seq<Ref>, c: seq<Ref>, gone1: set<Ref>, gone2: set<Ref>)
    requires Logged(a, b, gone1) && Logged(b, c, gone2) && gone1 !! gone2
    ensures Logged(a, c, gone1 + gone2)
  {
    var t1, t2 := b[|a|..], c[|b|..];
    assert c[|a|..] == t1 + t2 by {
      assert c == b + t2;
    }
    forall r | r in t1 ensures r !in t2 { assert r in gone1; }
    JoinedDistinct(t1, t2);
    forall r ensures r in t1 + t2 <==> r in gone1 + gone2 {
      assert r in t1 <==> r in gone1;
      assert r in t2 <==> r in gone2;
    }
  }

  lemma FreedAfterDecrement(m: Memory, m1: Memory, n: Memory, d: Ref)
    requires d in m && m[d].refCount == 1 && m1 == m[d := m[d].(refCount := 0)]
    requires Shrunk(m1 - {d}, n)
    ensures Shrunk(m, n)
  {
    forall c | c in m && m[c].refCount == 0 ensures c in n {
      assert (m1 - {d})[c] == m[c];
    }
    forall c | c in n ensures n[c].items == m[c].items && n[c].refCount <= m[c].refCount {
      assert n[c].items == (m1 - {d})[c].items;
    }
  }

  lemma ShrunkApartFrom(m: Memory, n: Memory, n1: Memory, d: Ref)
    requires Shrunk(m, n) && d in n && n1.Keys == n.Keys && forall c :: c in n && c != d ==> n1[c] == n[c]
    ensures Shrunk(m - {d}, n1 - {d})
  {
    forall c | c in m - {d} && (m - {d})[c].refCount == 0 ensures c in n1 - {d} {
      assert m[c].refCount == 0;
    }
    forall c | c in n1 - {d}
      ensures (n1 - {d})[c].items == (m - {d})[c].items && (n1 - {d})[c].refCount <= (m - {d})[c].refCount
      ensures (n1 - {d})[c].refCount == 0 ==> (m - {d})[c].refCount == 0
    {
      assert n[c].items == m[c].items;
    }
  }

  lemma ShrunkTwice(a: Memory, b: Memory, c: Memory)
    requires Shrunk(a, b) && Shrunk(b, c)
    ensures Shrunk(a, c)
  {
  }

  lemma ItemFreed(a: Memory, b: Memory, c: Memory, d: Ref, log1: seq<Ref>, log2: seq<Ref>, log3: seq<Ref>)
    requires Shrunk(a - {d}, b - {d}) && Shrunk(b - {d}, c - {d}) && c.Keys <= b.Keys <= a.Keys
    requires Logged(log1, log2, a.Keys - b.Keys) && Logged(log2, log3, b.Keys - c.Keys)
    ensures Shrunk(a - {d}, c - {d}) && Logged(log1, log3, a.Keys - c.Keys)
  {
    ShrunkTwice(a - {d}, b - {d}, c - {d});
    LoggedTwice(log1, log2, log3, a.Keys - b.Keys, b.Keys - c.Keys);
    assert a.Keys - c.Keys == (a.Keys - b.Keys) + (b.Keys - c.Keys);
  }

  lemma DictFreed(a: Memory, b: Memory, d: Ref, log1: seq<Ref>, log2: seq<Ref>)
    requires b.Keys <= a.Keys && d in b && Logged(log1, log2, a.Keys - b.Keys)
    ensures Logged(log1, log2 + [d], a.Keys - (b - {d}).Keys)
  {
    assert (log2 + [d])[|log2|..] == [d] && (log2 + [d])[..|log2|] == log2;
    LoggedTwice(log1, log2, log2 + [d], a.Keys - b.Keys, {d});
    assert a.Keys - (b - {d}).Keys == (a.Keys - b.Keys) + {d};
  }

  lemma ShrunkKeepsRank(m: Memory, n: Memory, rank: Ref -> nat)
    requires Shrunk(m, n) && Ranked(m, rank)
    ensures Ranked(n, rank)
  {
    forall c, i, r | PointsTo(n, c, i, r) ensures rank(r) < rank(c) {
      assert PointsTo(m, c, i, r);
    }
  }

  /** Taking a slot out of the count on behalf of an external handle keeps the counts exact. */
  lemma SlotBecomesHandle(m: Memory, ext: multiset<Ref>, releasing: set<(Ref, int)>, c: Ref, i: int, r: Ref)
    requires Exact(m, ext, releasing) && PointsTo(m, c, i, r) && (c, i) !in releasing && m[c].refCount == 0
    ensures Exact(m, ext + multiset{r}, releasing + {(c, i)})
  {
    assert Slots(m, releasing + {(c, i)}, r) == Slots(m, releasing, r) - {(c, i)};
    assert CountIsExact(m, ext, releasing, r);
    forall q | q in m ensures CountIsExact(m, ext + multiset{r}, releasing + {(c, i)}, q) {
      if q != r { assert Slots(m, releasing + {(c, i)}, q) == Slots(m, releasing, q); }
      assert CountIsExact(m, ext, releasing, q);
    }
  }

  function Cleared(items: seq<Item>, i: nat): seq<Item>
    requires i < |items|
  {
    items[i := items[i].(dict := None)]
  }

  /** A slot that is not counted may be cleared. */
  lemma ClearingReleasedSlot(m: Memory, n: Memory, ext: multiset<Ref>, releasing: set<(Ref, int)>, c: Ref, i: nat)
    requires Exact(m, ext, releasing) && (c, i) in releasing
    requires c in m && i < |m[c].items|
    requires n == m[c := m[c].(items := Cleared(m[c].items, i))]
    ensures Exact(n, ext, releasing - {(c, i)})
  {
    forall d, k, r ensures PointsTo(n, d, k, r) && (d, k) !in releasing - {(c, i)} <==>
                           PointsTo(m, d, k, r) && (d, k) !in releasing {
    }
    forall d | d in n ensures NoEarlyLast(n[d]) {
      assert NoEarlyLast(m[d]);
    }
    forall r | r in n ensures CountIsExact(n, ext, releasing - {(c, i)}, r) {
      assert Slots(n, releasing - {(c, i)}, r) == Slots(m, releasing, r);
      assert CountIsExact(m, ext, releasing, r);
    }
  }

  /** A dictionary that nothing counts and that points to nothing may leave the memory. */
  lemma FreeingKeepsExact(m: Memory, ext: multiset<Ref>, releasing: set<(Ref, int)>, d: Ref)
    requires Exact(m, ext, releasing) && d in m && m[d].refCount == 0
    requires forall i :: (d, i) !in releasing
    requires forall i, r :: !PointsTo(m, d, i, r)
    ensures Exact(m - {d}, ext, releasing)
  {
    var n := m - {d};
    assert CountIsExact(m, ext, releasing, d);
    assert Slots(m, releasing, d) == {} && d !in ext;
    forall c | c in n ensures NoEarlyLast(n[c]) {
      assert NoEarlyLast(m[c]);
    }
    forall c, i, r | PointsTo(n, c, i, r) && (c, i) !in releasing ensures r in n {
      assert PointsTo(m, c, i, r);
      assert r == d ==> (c, i) in Slots(m, releasing, d);
    }
    forall c, i, r ensures PointsTo(n, c, i, r) <==> PointsTo(m, c, i, r) {
    }
    forall r | r in n ensures CountIsExact(n, ext, releasing, r) {
      assert Slots(n, releasing, r) == Slots(m, releasing, r);
      assert CountIsExact(m, ext, releasing, r);
    }
  }

  lemma DecrementKeepsExact(m: Memory, n: Memory, ext: multiset<Ref>, releasing: set<(Ref, int)>, d: Ref)
    requires Exact(m, ext, releasing) && d in ext && m[d].refCount > 0
    requires n == m[d := m[d].(refCount := m[d].refCount - 1)]
    ensures Exact(n, ext - multiset{d}, releasing)
    ensures forall rank: Ref -> nat :: Ranked(m, rank) ==> Ranked(n, rank)
  {
    forall c | c in n ensures NoEarlyLast(n[c]) {
      assert NoEarlyLast(m[c]);
    }
    forall c, i, r ensures PointsTo(n, c, i, r) <==> PointsTo(m, c, i, r) {
    }
    forall r | r in n ensures CountIsExact(n, ext - multiset{d}, releasing, r) {
      assert Slots(n, releasing, r) == Slots(m, releasing, r);
      assert CountIsExact(m, ext, releasing, r);
    }
  }

  lemma ClearingKeepsRank(m: Memory, n: Memory, c: Ref, i: nat, rank: Ref -> nat)
    requires Ranked(m, rank) && c in m && i < |m[c].items|
    requires n == m[c := m[c].(items := Cleared(m[c].items, i))]
    ensures Ranked(n, rank)
  {
    forall d, k, r | PointsTo(n, d, k, r) ensures rank(r) < rank(d) {
      assert PointsTo(m, d, k, r);
    }
  }

  // --------------------------------------------------------------------- reachable is what stays in memory

  ghost predicate AllCounted(m: Memory) {
    forall c {:trigger m[c]} :: c in m ==> m[c].refCount > 0
  }

  /** What an exact heap without cycles holds at rest. */
  ghost predicate Consistent(m: Memory, ext: multiset<Ref>) {
    Exact(m, ext, {}) && AllCounted(m) && exists rank: Ref -> nat :: Ranked(m, rank)
  }

  ghost function MaxRank(refs: set<Ref>, rank: Ref -> nat): (top: nat)
    ensures forall r :: r in refs ==> rank(r) <= top
  {
    if exists r: Ref :: r in refs then
      var r :| r in refs;
      var top := MaxRank(refs - {r}, rank);
      if top < rank(r) then rank(r) else top
    else 0
  }

  /** Going up from a counted dictionary along slots ends at an external handle, since ranks are bounded. */
  lemma {:induction false} CountedIsReachable(m: Memory, ext: multiset<Ref>, rank: Ref -> nat, top: nat, r: Ref)
    requires Exact(m, ext, {}) && AllCounted(m) && Ranked(m, rank) && r in m
    requires forall c :: c in m ==> rank(c) <= top
    ensures Reachable(m, ext, r)
    decreases top - rank(r)
  {
    assert CountIsExact(m, ext, {}, r) && m[r].refCount > 0;
    if r in ext {
      assert Path(m, ext, [r]);
    } else {
      assert Slots(m, {}, r) != {};
      var slot :| slot in Slots(m, {}, r);
      assert PointsTo(m, slot.0, slot.1, r);
      CountedIsReachable(m, ext, rank, top, slot.0);
      var path :| Path(m, ext, path) && path[|path| - 1] == slot.0;
      assert Holds(m, slot.0, r);
      assert Path(m, ext, path + [r]);
    }
  }

  /** A path of the heap before the call lies in the heap after it. */
  lemma {:induction false} PathsSurvive(m: Memory, n: Memory, ext: multiset<Ref>, path: seq<Ref>)
    requires Shrunk(m, n) && Exact(n, ext, {}) && Path(m, ext, path)
    ensures Path(n, ext, path)
    decreases |path|
  {
    if |path| == 1 {
      assert ext[path[0]] > 0;
    } else {
      var front := path[..|path| - 1];
      assert forall k :: 0 <= k < |front| - 1 ==> Holds(m, path[k], path[k + 1]);
      PathsSurvive(m, n, ext, front);
      var a, b := path[|path| - 2], path[|path| - 1];
      assert Holds(m, a, b) && front[|front| - 1] == a;
      var i :| PointsTo(m, a, i, b);
      assert PointsTo(n, a, i, b);
      assert forall k :: 0 <= k < |front| - 1 ==> Holds(n, front[k], front[k + 1]);
    }
  }

  lemma PathsWereThere(m: Memory, n: Memory, ext: multiset<Ref>, path: seq<Ref>)
    requires Shrunk(m, n) && Path(n, ext, path)
    ensures Path(m, ext, path)
  {
    forall k | 0 <= k < |path| - 1 ensures Holds(m, path[k], path[k + 1]) {
      var i :| PointsTo(n, path[k], i, path[k + 1]);
      assert PointsTo(m, path[k], i, path[k + 1]);
    }
  }

  lemma SurvivorsAreTheReachable(m: Memory, n: Memory, ext: multiset<Ref>, r: Ref)
    requires Shrunk(m, n) && Consistent(n, ext) && r in m
    ensures r in n <==> Reachable(m, ext, r)
  {
    if r in n {
      var rank: Ref -> nat :| Ranked(n, rank);
      CountedIsReachable(n, ext, rank, MaxRank(n.Keys, rank), r);
      var path :| Path(n, ext, path) && path[|path| - 1] == r;
      PathsWereThere(m, n, ext, path);
    }
    if Reachable(m, ext, r) {
      var path :| Path(m, ext, path) && path[|path| - 1] == r;
      PathsSurvive(m, n, ext, path);
    }
  }

  /** Only counts, or the set of dictionaries without pointers, changed. */
  lemma SameSlots(m: Memory, n: Memory, ext: multiset<Ref>, ext': multiset<Ref>)
    requires Exact(m, ext, {}) && AllCounted(m)
    requires forall c, i, r :: PointsTo(n, c, i, r) <==> PointsTo(m, c, i, r)
    requires m.Keys <= n.Keys
    requires forall r :: r in n ==> NoEarlyLast(n[r]) && n[r].refCount > 0 && (r !in m ==> Slots(m, {}, r) == {})
    requires forall r :: r in n ==> n[r].refCount - ext'[r] == (if r in m then m[r].refCount - ext[r] else 0)
    requires forall r :: r in ext' ==> r in n
    ensures Exact(n, ext', {}) && AllCounted(n)
  {
    forall r | r in n ensures CountIsExact(n, ext', {}, r) {
      assert Slots(n, {}, r) == Slots(m, {}, r);
      if r in m { assert CountIsExact(m, ext, {}, r); }
    }
  }

  lemma HandleBecomesSlot(m: Memory, n: Memory, ext: multiset<Ref>, d: Ref, i: nat, child: Ref)
    requires Exact(m, ext, {}) && AllCounted(m) && child in ext
    requires d in m && i < |m[d].items| && m[d].items[i].dict == None
    requires n == m[d := m[d].(items := m[d].items[i := m[d].items[i].(dict := Some(child))])]
    requires NoEarlyLast(n[d])
    ensures Exact(n, ext - multiset{child}, {}) && AllCounted(n)
  {
    assert ext[child] > 0;
    forall c, k, r ensures PointsTo(n, c, k, r) <==> PointsTo(m, c, k, r) || (c, k, r) == (d, i, child) {
    }
    assert Slots(n, {}, child) == Slots(m, {}, child) + {(d, i)};
    assert (d, i) !in Slots(m, {}, child);
    forall r | r in n ensures CountIsExact(n, ext - multiset{child}, {}, r) {
      if r != child { assert Slots(n, {}, r) == Slots(m, {}, r); }
      assert CountIsExact(m, ext, {}, r);
    }
    forall c | c in n ensures NoEarlyLast(n[c]) {
      if c != d { assert NoEarlyLast(m[c]); }
    }
  }

  class Heap {
    var mem: Memory
    var freed: seq<Ref>                      // the addresses passed to free(), in order
    ghost var ext: multiset<Ref>             // the handles held outside of the heap
    ghost var releasing: set<(Ref, int)>     // slots whose reference is being given up

    ghost predicate Valid()
      reads this
    {
      Consistent(mem, ext) && releasing == {}
    }

    constructor ()
      ensures Valid() && mem == map[] && ext == multiset{} && freed == []
    {
      mem, freed, ext, releasing := map[], [], multiset{}, {};
      new;
      assert Ranked(mem, r => 0);
    }

    /** crtx_dict_ref(). */
    method AddRef(d: Ref)
      requires Valid() && d in mem
      modifies this
      ensures Valid() && ext == old(ext) + multiset{d} && freed == old(freed)
      ensures mem == old(mem)[d := old(mem)[d].(refCount := old(mem)[d].refCount + 1)]
    {
      ghost var m := mem;
      mem := mem[d := mem[d].(refCount := mem[d].refCount + 1)];
      ext := ext + multiset{d};
      ghost var rank: Ref -> nat :| Ranked(m, rank);
      assert forall c, i, r :: PointsTo(mem, c, i, r) <==> PointsTo(m, c, i, r);
      assert Ranked(mem, rank);
      forall r | r in mem ensures NoEarlyLast(mem[r]) {
        assert NoEarlyLast(m[r]);
      }
      SameSlots(m, mem, old(ext), ext);
    }

    /** crtx_init_dict(): n items without data, the last of them flagged, held by the caller. */
    method InitDict(d: Ref, n: nat)
      requires Valid() && d !in mem
      modifies this
      ensures Valid() && ext == old(ext) + multiset{d} && freed == old(freed)
      ensures mem == old(mem)[d := Dict(1, seq(n, i requires 0 <= i < n => Item(None, i == n - 1)))]
    {
      ghost var m := mem;
      mem := mem[d := Dict(1, seq(n, i requires 0 <= i < n => Item(None, i == n - 1)))];
      ext := ext + multiset{d};
      ghost var rank: Ref -> nat :| Ranked(m, rank);
      assert forall c, i, r :: PointsTo(mem, c, i, r) <==> PointsTo(m, c, i, r);
      assert Ranked(mem, rank);
      assert d !in old(ext);
      assert Slots(m, {}, d) == {} by {
        forall c, i ensures !PointsTo(m, c, i, d) {
        }
      }
      SameSlots(m, mem, old(ext), ext);
    }

    /** crtx_fill_data_item() with a dictionary: the handle of the caller moves into the item. */
    method StoreInItem(d: Ref, i: nat, child: Ref, ghost rank: Ref -> nat)
      requires Valid() && d in mem && i < |mem[d].items| && mem[d].items[i].dict == None && child in ext
      requires NoEarlyLast(mem[d].(items := mem[d].items[i := mem[d].items[i].(dict := Some(child))]))
      requires Ranked(mem[d := mem[d].(items := mem[d].items[i := mem[d].items[i].(dict := Some(child))])], rank)
      modifies this
      ensures Valid() && ext == old(ext) - multiset{child} && freed == old(freed)
      ensures var m, items := old(mem), old(mem)[d].items;
              mem == m[d := m[d].(items := items[i := items[i].(dict := Some(child))])]
    {
      ghost var m := mem;
      assert ext[child] > 0;
      mem := mem[d := mem[d].(items := mem[d].items[i := mem[d].items[i].(dict := Some(child))])];
      ext := ext - multiset{child};
      HandleBecomesSlot(m, mem, old(ext), d, i, child);
    }

    /** crtx_dict_unref() as a client calls it: the handle is given up, exactly the dictionaries that no
        remaining handle reaches are freed, each once, and the heap is consistent again. */
    method Release(d: Ref)
      requires Valid() && d in ext
      modifies this
      ensures Valid() && ext == old(ext) - multiset{d}
      ensures forall r :: r in old(mem) ==> (r in mem <==> Reachable(old(mem), ext, r))
      ensures forall r :: r in mem ==> r in old(mem) && mem[r].items == old(mem)[r].items
      ensures Logged(old(freed), freed, old(mem).Keys - mem.Keys)
    {
      ghost var rank: Ref -> nat :| Ranked(mem, rank);
      Unref(d, rank);
      ShrunkKeepsRank(old(mem), mem, rank);
      forall r | r in old(mem) ensures r in mem <==> Reachable(old(mem), ext, r) {
        SurvivorsAreTheReachable(old(mem), mem, ext, r);
      }
    }

    /** crtx_dict_unref(). A client calls it through Release. */
    method Unref(d: Ref, ghost rank: Ref -> nat)
      requires Exact(mem, ext, releasing) && Ranked(mem, rank) && d in ext
      modifies this
      ensures Exact(mem, ext, releasing) && releasing == old(releasing) && ext == old(ext) - multiset{d}
      ensures Shrunk(old(mem), mem) && Logged(old(freed), freed, old(mem).Keys - mem.Keys)
      decreases rank(d), 2
    {
      assert ext[d] > 0;
      assert CountIsExact(mem, ext, releasing, d);
      assert forall i :: (d, i) !in releasing;
      ghost var m := mem;
      if mem[d].refCount > 0 {
        mem := mem[d := mem[d].(refCount := mem[d].refCount - 1)];
      }
      DecrementKeepsExact(m, mem, ext, releasing, d);
      ext := ext - multiset{d};
      if mem[d].refCount == 0 {
        ghost var m1 := mem;
        FreeDict(d, rank);
        FreedAfterDecrement(m, m1, mem, d);
      }
    }

    /** crtx_free_dict() for a dictionary whose count dropped to zero. */
    method FreeDict(d: Ref, ghost rank: Ref -> nat)
      requires Exact(mem, ext, releasing) && Ranked(mem, rank) && d in mem && mem[d].refCount == 0
      requires forall i :: (d, i) !in releasing
      modifies this
      ensures Exact(mem, ext, releasing) && releasing == old(releasing) && ext == old(ext)
      ensures Shrunk(old(mem) - {d}, mem) && Logged(old(freed), freed, old(mem).Keys - mem.Keys)
      decreases rank(d), 1
    {
      var i := 0;
      ghost var items := mem[d].items;
      while i < |mem[d].items|
        invariant d in mem && mem[d].refCount == 0 && |mem[d].items| == |items| && 0 <= i <= |items|
        invariant forall k :: 0 <= k < |items| ==> mem[d].items[k].last == items[k].last
        invariant forall k :: 0 <= k < i ==> mem[d].items[k].dict == None
        invariant forall k :: i <= k < |items| ==> mem[d].items[k] == items[k]
        invariant forall k :: 0 <= k < i ==> !items[k].last
        invariant Exact(mem, ext, releasing) && Ranked(mem, rank)
        invariant releasing == old(releasing) && ext == old(ext)
        invariant Shrunk(old(mem) - {d}, mem - {d}) && mem.Keys <= old(mem).Keys
        invariant Logged(old(freed), freed, old(mem).Keys - mem.Keys)
        decreases |items| - i
      {
        ghost var m, log := mem, freed;
        FreeItemData(d, i, rank);
        ItemFreed(old(mem), m, mem, d, old(freed), log, freed);
        if mem[d].items[i].last { break; }
        i := i + 1;
      }
      assert NoEarlyLast(mem[d]);
      FreeingKeepsExact(mem, ext, releasing, d);
      DictFreed(old(mem), mem, d, old(freed), freed);
      mem := mem - {d};
      freed := freed + [d];
    }

    /** crtx_free_dict_item_data(). */
    method FreeItemData(d: Ref, i: nat, ghost rank: Ref -> nat)
      requires Exact(mem, ext, releasing) && Ranked(mem, rank) && d in mem && mem[d].refCount == 0
      requires i < |mem[d].items| && (d, i) !in releasing
      modifies this
      ensures Exact(mem, ext, releasing) && Ranked(mem, rank) && releasing == old(releasing) && ext == old(ext)
      ensures d in mem && mem[d] == Dict(0, Cleared(old(mem[d].items), i))
      ensures Shrunk(old(mem) - {d}, mem - {d}) && mem.Keys <= old(mem).Keys
      ensures Logged(old(freed), freed, old(mem).Keys - mem.Keys)
      decreases rank(d), 0
    {
      var item := mem[d].items[i];
      if item.dict.Some? {
        assert PointsTo(mem, d, i, item.dict.value);
        ReleaseChild(d, i, item.dict.value, rank);
        ghost var n := mem;
        mem := mem[d := mem[d].(items := Cleared(mem[d].items, i))];
        ClearingReleasedSlot(n, mem, ext, releasing, d, i);
        ClearingKeepsRank(n, mem, d, i, rank);
        ShrunkApartFrom(old(mem), n, mem, d);
        releasing := releasing - {(d, i)};
        assert releasing == old(releasing);
      } else {
        assert Cleared(mem[d].items, i) == mem[d].items;
      }
    }

    /** The call of crtx_dict_unref() for the dictionary of an item; the slot is cleared afterwards. */
    method ReleaseChild(d: Ref, i: nat, child: Ref, ghost rank: Ref -> nat)
      requires Exact(mem, ext, releasing) && Ranked(mem, rank) && d in mem && mem[d].refCount == 0
      requires PointsTo(mem, d, i, child) && (d, i) !in releasing
      modifies this
      ensures Exact(mem, ext, releasing) && Ranked(mem, rank) && ext == old(ext)
      ensures releasing == old(releasing) + {(d, i)}
      ensures d in mem && mem[d] == old(mem[d])
      ensures Shrunk(old(mem), mem) && Logged(old(freed), freed, old(mem).Keys - mem.Keys)
      decreases rank(child), 3
    {
      SlotBecomesHandle(mem, ext, releasing, d, i, child);
      releasing, ext := releasing + {(d, i)}, ext + multiset{child};
      ghost var m := mem;
      Unref(child, rank);
      ShrunkKeepsRank(m, mem, rank);
      assert ext == old(ext);
      assert m[d].refCount == 0;
      assert mem[d] == m[d];
    }
  }
}
