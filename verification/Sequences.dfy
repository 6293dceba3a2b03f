/** Sequences that describe linked lists: without duplicates, with an element removed or inserted. */
module Sequences {
  ghost predicate NoDuplicates<T>(s: seq<T>) {
    s == [] || (s[0] !in s[1..] && NoDuplicates(s[1..]))
  }

  lemma {:induction false} Distinct<T>(s: seq<T>, k: int)
    requires NoDuplicates(s) && 0 <= k < |s|
    ensures forall i :: 0 <= i < |s| && i != k ==> s[i] != s[k]
  {
    forall i | 0 <= i < |s| && i != k ensures s[i] != s[k] {
      DistinctPair(s, if i < k then i else k, if i < k then k else i);
    }
  }

  lemma {:induction false} DistinctPair<T>(s: seq<T>, i: int, j: int)
    requires NoDuplicates(s) && 0 <= i < j < |s|
    ensures s[i] != s[j]
    decreases i
  {
    assert s[j] == s[1..][j - 1];
    if i > 0 { DistinctPair(s[1..], i - 1, j - 1); }
  }

  lemma {:induction false} AppendedDistinct<T>(s: seq<T>, x: T)
    requires NoDuplicates(s) && x !in s
    ensures NoDuplicates(s + [x])
  {
    if s != [] {
      assert (s + [x])[1..] == s[1..] + [x];
      AppendedDistinct(s[1..], x);
    }
  }

  lemma {:induction false} JoinedDistinct<T>(a: seq<T>, b: seq<T>)
    requires NoDuplicates(a) && NoDuplicates(b) && forall x :: x in a ==> x !in b
    ensures NoDuplicates(a + b)
  {
    if a == [] {
      assert a + b == b;
    } else {
      assert (a + b)[1..] == a[1..] + b;
      JoinedDistinct(a[1..], b);
    }
  }

  function Removed<T>(s: seq<T>, k: int): seq<T>
    requires 0 <= k < |s|
  {
    s[..k] + s[k + 1..]
  }

  /** r is s without its element k. */
  ghost predicate IsWithout<T>(r: seq<T>, s: seq<T>, k: int) {
    0 <= k < |s| && |r| == |s| - 1 && forall i {:trigger r[i]} :: 0 <= i < |r| ==> r[i] == s[if i < k then i else i + 1]
  }

  lemma {:induction false} RemovedElements<T>(s: seq<T>, k: int)
    requires 0 <= k < |s| && NoDuplicates(s)
    ensures IsWithout(Removed(s, k), s, k) && NoDuplicates(Removed(s, k))
    decreases k
  {
    if k == 0 {
      assert Removed(s, k) == s[1..];
    } else {
      assert Removed(s, k) == [s[0]] + Removed(s[1..], k - 1);
      RemovedElements(s[1..], k - 1);
    }
  }

  ghost function Inserted<T>(s: seq<T>, item: T, k: nat): seq<T>
    requires k <= |s|
  {
    s[..k] + [item] + s[k..]
  }

  /** r is s with item inserted before element k. */
  ghost predicate IsWith<T>(r: seq<T>, s: seq<T>, item: T, k: int) {
    && 0 <= k <= |s| && |r| == |s| + 1
    && forall i {:trigger r[i]} :: 0 <= i <= |s| ==> r[i] == if i < k then s[i] else if i == k then item else s[i - 1]
  }

  lemma {:induction false} InsertedElements<T>(s: seq<T>, item: T, k: nat)
    requires k <= |s| && NoDuplicates(s) && item !in s
    ensures IsWith(Inserted(s, item, k), s, item, k) && NoDuplicates(Inserted(s, item, k))
    decreases k
  {
    if k == 0 {
      assert Inserted(s, item, k) == [item] + s;
    } else {
      var rest := Inserted(s[1..], item, k - 1);
      assert Inserted(s, item, k) == [s[0]] + rest;
      InsertedElements(s[1..], item, k - 1);
      assert forall i :: 0 <= i < |s| ==> rest[i] == if i < k - 1 then s[i + 1] else if i == k - 1 then item else s[i];
      assert s[0] !in rest;
    }
  }

  /** s without the first occurrence of x; s itself if x does not occur. */
  function WithoutFirst<T(==)>(s: seq<T>, x: T): seq<T> {
    if s == [] then [] else if s[0] == x then s[1..] else [s[0]] + WithoutFirst(s[1..], x)
  }
}
