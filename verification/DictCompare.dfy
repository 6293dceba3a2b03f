/** The comparison of dictionary items (crtx_cmp_item() in src/dict.c). */
module DictCompare {
  import opened Wrappers

  /** The bytes of a C string. */
  type Char = c: int | 0 < c < 256 witness 1

  /** Types that the comparison does not know, like 'd', 'p' and 'z'. */
  type OtherType = t: int | 0 <= t < 256 && t !in {68, 73, 85, 105, 115, 117}

  /** An item: its key, whether it carries the flag of a last item, and a value. A string may be missing. A
      nested dictionary that is null, or has no item array, has no items. */
  datatype Item = Item(key: string, last: bool, value: Value)
  datatype Value =
    | Text(s: Option<seq<Char>>)
    | UInt32(u: nat)
    | Int32(i: int)
    | UInt64(U: nat)
    | Int64(I: int)
    | Dict(items: seq<Item>)
    | Other(t: OtherType)

  function TypeByte(v: Value): int {
    match v
    case Dict(_) => 68
    case Int64(_) => 73
    case UInt64(_) => 85
    case Int32(_) => 105
    case Text(_) => 115
    case UInt32(_) => 117
    case Other(t) => t
  }

  function Sign(a: int, b: int): int {
    if a < b then -1 else if a > b then 1 else 0
  }

  function StrCmp(a: seq<Char>, b: seq<Char>): int {
    if a == [] && b == [] then 0
    else if a == [] then -1
    else if b == [] then 1
    else if a[0] != b[0] then Sign(a[0], b[0])
    else StrCmp(a[1..], b[1..])
  }

  /** How many items an iteration meets: it stops at an item with the last flag or at the end. */
  function Visible(items: seq<Item>): (n: nat)
    ensures n <= |items| && (n == 0 <==> items == [])
    ensures forall i :: 0 <= i < n - 1 ==> !items[i].last
    ensures n < |items| ==> items[n - 1].last
  {
    if items == [] then 0 else if items[0].last then 1 else 1 + Visible(items[1..])
  }

  /** crtx_get_next_item(), for items given by their index. */
  function NextItem(items: seq<Item>, i: nat): (r: Option<nat>)
    requires i < Visible(items)
    ensures r == if i + 1 < Visible(items) then Some(i + 1) else None
  {
    if !items[i].last && |items| > i + 1 then Some(i + 1) else None
  }

  // ------------------------------------------------------------------------------------ the comparison

  /** The sign of the comparison: by type, then by value, dictionaries item by item. */
  function Compare(a: Value, b: Value): int
    decreases a, 1, 0
  {
    if TypeByte(a) != TypeByte(b) then Sign(TypeByte(a), TypeByte(b))
    else
      match a
      case Text(s) => if s.None? then -1 else if b.s.None? then 1 else StrCmp(s.value, b.s.value)
      case UInt32(n) => Sign(n, b.u)
      case Int32(n) => Sign(n, b.i)
      case UInt64(n) => Sign(n, b.U)
      case Int64(n) => Sign(n, b.I)
      case Dict(_) => CompareFrom(a, b, 0)
      case Other(_) => 1
  }

  /** Lexicographic comparison of the visible items from index i on. */
  function CompareFrom(a: Value, b: Value, i: nat): int
    requires a.Dict? && b.Dict? && i <= Visible(a.items) && i <= Visible(b.items)
    decreases a, 0, |a.items| - i
  {
    if i == Visible(a.items) && i == Visible(b.items) then 0
    else if i == Visible(a.items) then -1
    else if i == Visible(b.items) then 1
    else
      var c := Compare(a.items[i].value, b.items[i].value);
      if c != 0 then c else CompareFrom(a, b, i + 1)
  }

  /** crtx_cmp_item(). */
  method CmpItem(a: Value, b: Value) returns (res: int)
    ensures res == Compare(a, b)
    decreases a
  {
    if TypeByte(a) != TypeByte(b) { return Sign(TypeByte(a), TypeByte(b)); }
    match a {
      case Text(s) =>
        if s.None? { return -1; }
        if b.s.None? { return 1; }
        return StrCmp(s.value, b.s.value);
      case UInt32(n) => return Sign(n, b.u);
      case Int32(n) => return Sign(n, b.i);
      case UInt64(n) => return Sign(n, b.U);
      case Int64(n) => return Sign(n, b.I);
      case Dict(items) =>
        var ia := if items == [] then None else Some(0);
        var ib := if b.items == [] then None else Some(0);
        ghost var k := 0;
        while ia.Some? && ib.Some?
          invariant 0 <= k <= Visible(items) && k <= Visible(b.items)
          invariant ia == (if k < Visible(items) then Some(k) else None)
          invariant ib == (if k < Visible(b.items) then Some(k) else None)
          invariant Compare(a, b) == CompareFrom(a, b, k)
          decreases |items| - k
        {
          res := CmpItem(items[ia.value].value, b.items[ib.value].value);
          if res != 0 { return; }
          ia := NextItem(items, ia.value);
          ib := NextItem(b.items, ib.value);
          k := k + 1;
        }
        if ia.None? && ib.None? { return 0; }
        if ia.None? { return -1; }
        return 1;
      case Other(_) => return 1;
    }
  }

  // ------------------------------------------------------------------------------------------ its order

  /** Values on which the comparison is meant to work, at every depth that it can see. */
  ghost predicate Comparable(v: Value) {
    match v
    case Text(s) => s.Some?
    case Dict(items) => forall i :: 0 <= i < Visible(items) ==> Comparable(items[i].value)
    case Other(_) => false
    case _ => true
  }

  /** The comparison cannot see a difference: same types, same values, recursively in the same visible
      items. Keys and items after a last one do not matter. */
  ghost predicate SameContent(a: Value, b: Value) {
    match a
    case Dict(items) =>
      && b.Dict? && Visible(items) == Visible(b.items)
      && forall i :: 0 <= i < Visible(items) ==> SameContent(items[i].value, b.items[i].value)
    case _ => a == b
  }

  lemma {:induction false} StrCmpOrder(a: seq<Char>, b: seq<Char>, c: seq<Char>)
    ensures StrCmp(a, b) == -StrCmp(b, a) && -1 <= StrCmp(a, b) <= 1
    ensures StrCmp(a, b) == 0 <==> a == b
    ensures StrCmp(a, b) <= 0 && StrCmp(b, c) <= 0 ==>
              StrCmp(a, c) <= 0 && (StrCmp(a, c) == 0 ==> StrCmp(a, b) == StrCmp(b, c) == 0)
  {
    if a != [] && b != [] {
      StrCmpOrder(a[1..], b[1..], if c == [] then [] else c[1..]);
      if a[0] == b[0] && a[1..] == b[1..] { assert a == [a[0]] + a[1..] && b == [b[0]] + b[1..]; }
    }
  }

  /** A value is equal to itself if and only if it is comparable. */
  lemma {:induction false} EqualToItselfIff(a: Value)
    ensures Compare(a, a) == 0 <==> Comparable(a)
    decreases a, 1, 0
  {
    match a {
      case Text(s) => if s.Some? { StrCmpOrder(s.value, s.value, s.value); }
      case Dict(_) => EqualToItselfFrom(a, 0);
      case _ =>
    }
  }

  lemma {:induction false} EqualToItselfFrom(a: Value, i: nat)
    requires a.Dict? && i <= Visible(a.items)
    ensures CompareFrom(a, a, i) == 0 <==> forall k :: i <= k < Visible(a.items) ==> Comparable(a.items[k].value)
    decreases a, 0, |a.items| - i
  {
    if i < Visible(a.items) {
      EqualToItselfIff(a.items[i].value);
      EqualToItselfFrom(a, i + 1);
    }
  }

  /** On comparable values the comparison is antisymmetric, and equal means same content. */
  lemma {:induction false} Antisymmetric(a: Value, b: Value)
    requires Comparable(a) && Comparable(b)
    ensures Compare(a, b) == -Compare(b, a) && -1 <= Compare(a, b) <= 1
    ensures Compare(a, b) == 0 <==> SameContent(a, b)
    decreases a, 1, 0
  {
    if TypeByte(a) == TypeByte(b) {
      match a {
        case Text(s) => StrCmpOrder(s.value, b.s.value, []);
        case Dict(_) => AntisymmetricFrom(a, b, 0);
        case _ =>
      }
    }
  }

  /** The visible items from index i on have the same content. */
  ghost predicate SameFrom(a: Value, b: Value, i: nat)
    requires a.Dict? && b.Dict?
  {
    && Visible(a.items) == Visible(b.items)
    && forall k :: i <= k < Visible(a.items) ==> SameContent(a.items[k].value, b.items[k].value)
  }

  lemma SameFromNext(a: Value, b: Value, i: nat)
    requires a.Dict? && b.Dict? && i < Visible(a.items) && i < Visible(b.items)
    ensures SameFrom(a, b, i) <==> SameContent(a.items[i].value, b.items[i].value) && SameFrom(a, b, i + 1)
  {
  }

  lemma {:induction false} AntisymmetricFrom(a: Value, b: Value, i: nat)
    requires a.Dict? && b.Dict? && i <= Visible(a.items) && i <= Visible(b.items) && Comparable(a) && Comparable(b)
    ensures CompareFrom(a, b, i) == -CompareFrom(b, a, i) && -1 <= CompareFrom(a, b, i) <= 1
    ensures CompareFrom(a, b, i) == 0 <==> SameFrom(a, b, i)
    decreases a, 0, |a.items| - i
  {
    if i < Visible(a.items) && i < Visible(b.items) {
      SameFromNext(a, b, i);
      Antisymmetric(a.items[i].value, b.items[i].value);
      AntisymmetricFrom(a, b, i + 1);
    }
  }

  /** On comparable values it is transitive, strictly so if one of the steps is strict. */
  lemma {:induction false} Transitive(a: Value, b: Value, c: Value)
    requires Comparable(a) && Comparable(b) && Comparable(c)
    requires Compare(a, b) <= 0 && Compare(b, c) <= 0
    ensures Compare(a, c) <= 0
    ensures Compare(a, c) == 0 ==> Compare(a, b) == Compare(b, c) == 0
    decreases a, 1, 0
  {
    if TypeByte(a) == TypeByte(b) == TypeByte(c) {
      match a {
        case Text(s) => StrCmpOrder(s.value, b.s.value, c.s.value);
        case Dict(_) => TransitiveFrom(a, b, c, 0);
        case _ =>
      }
    }
  }

  lemma {:induction false} TransitiveFrom(a: Value, b: Value, c: Value, i: nat)
    requires a.Dict? && b.Dict? && c.Dict? && Comparable(a) && Comparable(b) && Comparable(c)
    requires i <= Visible(a.items) && i <= Visible(b.items) && i <= Visible(c.items)
    requires CompareFrom(a, b, i) <= 0 && CompareFrom(b, c, i) <= 0
    ensures CompareFrom(a, c, i) <= 0
    ensures CompareFrom(a, c, i) == 0 ==> CompareFrom(a, b, i) == CompareFrom(b, c, i) == 0
    decreases a, 0, |a.items| - i
  {
    if i < Visible(a.items) && i < Visible(b.items) && i < Visible(c.items) {
      var x, y, z := a.items[i].value, b.items[i].value, c.items[i].value;
      Transitive(x, y, z);
      if Compare(x, y) == 0 && Compare(y, z) == 0 {
        EqualIsTransitive(x, y, z);
        TransitiveFrom(a, b, c, i + 1);
      }
    }
  }

  lemma {:induction false} EqualIsTransitive(a: Value, b: Value, c: Value)
    requires Comparable(a) && Comparable(b) && Comparable(c)
    requires Compare(a, b) == 0 && Compare(b, c) == 0
    ensures Compare(a, c) == 0
  {
    Antisymmetric(a, b);
    Antisymmetric(b, c);
    SameContentTransitive(a, b, c);
    Antisymmetric(a, c);
  }

  lemma SameContentTransitive(a: Value, b: Value, c: Value)
    requires SameContent(a, b) && SameContent(b, c)
    ensures SameContent(a, c)
  {
  }

  // ------------------------------------------------------------------------------- which way it orders

  /** The letter that an item carries as its type. */
  function Letter(v: Value): char {
    match v
    case Text(_) => 's'
    case UInt32(_) => 'u'
    case Int32(_) => 'i'
    case UInt64(_) => 'U'
    case Int64(_) => 'I'
    case Dict(_) => 'D'
    case Other(t) => t as char
  }

  /** Items of different types are in the order of their letters. */
  lemma DifferentTypesByLetter(a: Value, b: Value)
    requires Letter(a) != Letter(b)
    ensures Compare(a, b) < 0 <==> Letter(a) < Letter(b)
    ensures Compare(a, b) > 0 <==> Letter(b) < Letter(a)
  {
  }

  /** Numbers are in the order of their values. */
  lemma NumbersByValue(a: Value, b: Value)
    ensures a.UInt32? && b.UInt32? ==> (Compare(a, b) < 0 <==> a.u < b.u) && (Compare(a, b) > 0 <==> b.u < a.u)
    ensures a.Int32? && b.Int32? ==> (Compare(a, b) < 0 <==> a.i < b.i) && (Compare(a, b) > 0 <==> b.i < a.i)
    ensures a.UInt64? && b.UInt64? ==> (Compare(a, b) < 0 <==> a.U < b.U) && (Compare(a, b) > 0 <==> b.U < a.U)
    ensures a.Int64? && b.Int64? ==> (Compare(a, b) < 0 <==> a.I < b.I) && (Compare(a, b) > 0 <==> b.I < a.I)
  {
  }

  /** a and b have the same first k bytes, and a ends there or has a smaller byte next. */
  ghost predicate LessAt(a: seq<Char>, b: seq<Char>, k: int) {
    0 <= k <= |a| && k < |b| && a[..k] == b[..k] && (k == |a| || a[k] < b[k])
  }

  lemma LessAtNext(a: seq<Char>, b: seq<Char>, k: nat)
    requires a != [] && b != []
    ensures LessAt(a, b, k + 1) <==> a[0] == b[0] && LessAt(a[1..], b[1..], k)
  {
    if k + 1 <= |a| && k + 1 < |b| {
      assert a[..k + 1] == [a[0]] + a[1..][..k] && b[..k + 1] == [b[0]] + b[1..][..k];
      assert a[..k + 1] == b[..k + 1] ==> a[..k + 1][0] == b[..k + 1][0] && a[..k + 1][1..] == b[..k + 1][1..];
      assert a[..k + 1][1..] == a[1..][..k] && b[..k + 1][1..] == b[1..][..k];
    }
  }

  /** Strings are in dictionary order: a is less if and only if it is a proper prefix of b or has the smaller
      byte where they differ first. */
  lemma {:induction false} StringsInDictionaryOrder(a: seq<Char>, b: seq<Char>)
    ensures StrCmp(a, b) < 0 <==> exists k :: LessAt(a, b, k)
  {
    if a == [] || b == [] {
      if b != [] { assert LessAt(a, b, 0); }
    } else {
      StringsInDictionaryOrder(a[1..], b[1..]);
      if a[0] < b[0] { assert LessAt(a, b, 0); }
      if a[0] == b[0] {
        if k :| LessAt(a[1..], b[1..], k) {
          LessAtNext(a, b, k);
          assert LessAt(a, b, k + 1);
        }
      }
      forall k | LessAt(a, b, k) ensures a[0] < b[0] || (a[0] == b[0] && exists j :: LessAt(a[1..], b[1..], j)) {
        if k > 0 { LessAtNext(a, b, k - 1); }
      }
    }
  }

  /** The same for values: a missing string is in front of all strings, and behind none. */
  lemma TextsInDictionaryOrder(a: Value, b: Value)
    requires a.Text? && b.Text?
    ensures a.s.None? ==> Compare(a, b) < 0
    ensures a.s.Some? && b.s.None? ==> Compare(a, b) > 0
    ensures a.s.Some? && b.s.Some? ==> (Compare(a, b) < 0 <==> exists k :: LessAt(a.s.value, b.s.value, k))
  {
    if a.s.Some? && b.s.Some? { StringsInDictionaryOrder(a.s.value, b.s.value); }
  }

  /** The visible items of a and b from i to k compare equal, and then a ends or has the smaller item. */
  ghost predicate ItemLessAt(a: Value, b: Value, i: nat, k: int)
    requires a.Dict? && b.Dict?
  {
    && i <= k <= Visible(a.items) && k < Visible(b.items)
    && (forall j :: i <= j < k ==> Compare(a.items[j].value, b.items[j].value) == 0)
    && (k == Visible(a.items) || Compare(a.items[k].value, b.items[k].value) < 0)
  }

  /** Dictionaries are in the order of their first different items, whatever is behind; a shorter one with
      the same items is less. */
  lemma {:induction false} DictsByFirstDifference(a: Value, b: Value)
    requires a.Dict? && b.Dict?
    ensures Compare(a, b) < 0 <==> exists k :: ItemLessAt(a, b, 0, k)
  {
    FirstDifferenceFrom(a, b, 0);
  }

  lemma {:induction false} FirstDifferenceFrom(a: Value, b: Value, i: nat)
    requires a.Dict? && b.Dict? && i <= Visible(a.items) && i <= Visible(b.items)
    ensures CompareFrom(a, b, i) < 0 <==> exists k :: ItemLessAt(a, b, i, k)
    decreases |a.items| - i
  {
    if i < Visible(a.items) && i < Visible(b.items) {
      var c, next := Compare(a.items[i].value, b.items[i].value), i + 1;
      if c < 0 { assert ItemLessAt(a, b, i, i); }
      if c == 0 {
        FirstDifferenceFrom(a, b, next);
        if k :| ItemLessAt(a, b, next, k) { assert ItemLessAt(a, b, i, k); }
      }
      forall k | ItemLessAt(a, b, i, k) ensures c < 0 || (c == 0 && exists j :: ItemLessAt(a, b, next, j)) {
        if k > i {
          assert c == 0 && ItemLessAt(a, b, next, k);
        }
      }
    } else if i < Visible(b.items) {
      assert ItemLessAt(a, b, i, i);
    }
  }
}
