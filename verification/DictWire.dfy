/** The binary format of dictionaries (src/dict_inout.c) on a little-endian machine. */
module DictWire {
  import opened Wrappers

  type Byte = b: int | 0 <= b < 256
  type Bytes = seq<Byte>

  /** The tail of an item header, which the writer leaves uninitialised. */
  type Padding = p: Bytes | |p| == 6 witness [0, 0, 0, 0, 0, 0]

  datatype Dict = Dict(signature: Bytes, items: seq<Item>)
  datatype Item = Item(type_: Byte, flags: Byte, key: Bytes, size: nat, value: Value)

  /** The member of the union that the signature selects. A string is given without its final zero. */
  datatype Value = Num(n: nat) | Str(s: Bytes) | Sub(dict: Option<Dict>)

  const MAX_SIGNATURE := 128
  const HEADER := 24
  const UINT32: Byte := 117
  const INT32: Byte := 105
  const STRING: Byte := 115
  const DICT: Byte := 68

  predicate Known(c: Byte) { c in {UINT32, INT32, STRING, DICT} }

  // ------------------------------------------------------------------------------------------- numbers

  function Power(k: nat): nat { if k == 0 then 1 else 256 * Power(k - 1) }

  function Little(n: nat, k: nat): (b: Bytes)
    ensures |b| == k
  {
    if k == 0 then [] else [n % 256] + Little(n / 256, k - 1)
  }

  function Number(b: Bytes): nat { if b == [] then 0 else b[0] + 256 * Number(b[1..]) }

  lemma {:induction false} NumberOfLittle(n: nat, k: nat)
    requires n < Power(k)
    ensures Number(Little(n, k)) == n
  {
    if k > 0 { NumberOfLittle(n / 256, k - 1); }
  }

  lemma Powers()
    ensures Power(4) == 0x1_0000_0000 && Power(8) == 0x1_0000_0000_0000_0000
  {
    assert Power(1) == 256 && Power(2) == 65536 && Power(3) == 16777216 && Power(4) == 0x1_0000_0000;
    assert Power(5) == 256 * Power(4) && Power(6) == 256 * Power(5) && Power(7) == 256 * Power(6);
  }

  // ------------------------------------------------------------------------------------------- writing

  /** How many letters the writer gets through: it gives up at the first one it does not know. */
  function Legible(sig: Bytes): (n: nat)
    ensures n <= |sig| && (forall k :: 0 <= k < n ==> Known(sig[k])) && (n < |sig| ==> !Known(sig[n]))
  {
    if sig == [] || !Known(sig[0]) then 0 else 1 + Legible(sig[1..])
  }

  /** What the writer needs to find in memory: for every letter that it gets through an item with a key, and
      the value that the letter asks for. A string has as many bytes as its size says, its final zero included. */
  predicate Writable(d: Dict)
    decreases d
  {
    |d.signature| <= |d.items| && forall k :: 0 <= k < Legible(d.signature) ==> WritableItem(d.signature[k], d.items[k])
  }

  predicate WritableItem(c: Byte, item: Item)
    decreases item
  {
    && |item.key| < 0x1_0000_0000_0000_0000 && item.size < 0x1_0000_0000_0000_0000
    && (c in {UINT32, INT32} ==> item.value.Num? && item.value.n < 0x1_0000_0000)
    && (c == STRING ==> item.value.Str? && item.size <= |item.value.s| + 1)
    && (c == DICT ==> item.value.Sub? && item.value.dict.Some? && Writable(item.value.dict.value))
  }

  /** The bytes for a dictionary that starts at offset at of the stream; pad gives the uninitialised bytes. */
  function Encode(d: Dict, pad: nat -> Padding, at: nat): Bytes
    requires Writable(d)
    decreases d, 1, 0
  {
    Little(|d.signature| % 0x1_0000_0000, 4) + d.signature + EncodeFrom(d, 0, pad, at + 4 + |d.signature|)
  }

  /** The items from index k on. */
  function EncodeFrom(d: Dict, k: nat, pad: nat -> Padding, at: nat): Bytes
    requires Writable(d) && k <= Legible(d.signature)
    decreases d, 0, |d.signature| - k
  {
    if k == Legible(d.signature) then []
    else
      var e := EncodeItem(d.signature[k], d.items[k], pad, at);
      e + EncodeFrom(d, k + 1, pad, at + |e|)
  }

  function ItemHeader(c: Byte, item: Item, pad: Padding): (h: Bytes)
    ensures |h| == HEADER
  {
    Little(|item.key|, 8) + Little(if c in {UINT32, INT32} then 4 else item.size, 8) + [item.type_, item.flags] + pad
  }

  function EncodeItem(c: Byte, item: Item, pad: nat -> Padding, at: nat): Bytes
    requires Known(c) && WritableItem(c, item)
    decreases item, 0, 0
  {
    ItemHeader(c, item, pad(at)) + item.key + EncodeValue(c, item, pad, at + HEADER + |item.key|)
  }

  function EncodeValue(c: Byte, item: Item, pad: nat -> Padding, at: nat): Bytes
    requires Known(c) && WritableItem(c, item)
    decreases item.value, 0, 0
  {
    if c in {UINT32, INT32} then Little(item.value.n, 4)
    else if c == STRING then (item.value.s + [0])[..item.size]
    else Encode(item.value.dict.value, pad, at)
  }

  class Stream {
    var data: Bytes

    method Write(b: Bytes)
      modifies this
      ensures data == old(data) + b
    {
      data := data + b;
    }

    /** crtx_read(): takes n bytes from the front, or fails and takes what is left. */
    method Read(n: nat) returns (b: Option<Bytes>)
      modifies this
      ensures (b, data) == Take(old(data), n)
    {
      if n <= |data| {
        b := Some(data[..n]);
        data := data[n..];
      } else {
        b := None;
        data := [];
      }
    }
  }

  /** crtx_write_dict(). */
  method WriteDict(out: Stream, d: Dict, pad: nat -> Padding)
    requires Writable(d)
    modifies out
    ensures out.data == old(out.data) + Encode(d, pad, |old(out.data)|)
    decreases d, 1
  {
    out.Write(Little(|d.signature| % 0x1_0000_0000, 4));
    out.Write(d.signature);
    WriteItems(out, d, pad);
  }

  /** The loop over the letters and items. */
  method WriteItems(out: Stream, d: Dict, pad: nat -> Padding)
    requires Writable(d)
    modifies out
    ensures out.data == old(out.data) + EncodeFrom(d, 0, pad, |old(out.data)|)
    decreases d, 0
  {
    var k := 0;
    ghost var goal := out.data + EncodeFrom(d, 0, pad, |out.data|);
    while k < |d.signature| && Known(d.signature[k])
      invariant 0 <= k <= Legible(d.signature)
      invariant out.data + EncodeFrom(d, k, pad, |out.data|) == goal
    {
      ItemComesNext(d, k, pad, out.data);
      WriteItem(out, d.signature[k], d.items[k], pad);
      k := k + 1;
    }
    assert k == Legible(d.signature);
  }

  lemma ItemComesNext(d: Dict, k: nat, pad: nat -> Padding, written: Bytes)
    requires Writable(d) && k < Legible(d.signature)
    ensures var then_ := written + EncodeItem(d.signature[k], d.items[k], pad, |written|);
            written + EncodeFrom(d, k, pad, |written|) == then_ + EncodeFrom(d, k + 1, pad, |then_|)
  {
    var e := EncodeItem(d.signature[k], d.items[k], pad, |written|);
    var rest := EncodeFrom(d, k + 1, pad, |written| + |e|);
    assert EncodeFrom(d, k, pad, |written|) == e + rest;
    Associative(written, e, rest);
  }

  lemma Associative(a: Bytes, b: Bytes, c: Bytes)
    ensures a + (b + c) == a + b + c
  {
  }

  /** The body of the loop over the items. */
  method WriteItem(out: Stream, c: Byte, item: Item, pad: nat -> Padding)
    requires Known(c) && WritableItem(c, item)
    modifies out
    ensures out.data == old(out.data) + EncodeItem(c, item, pad, |old(out.data)|)
    decreases item
  {
    out.Write(ItemHeader(c, item, pad(|out.data|)));
    out.Write(item.key);
    ghost var offset := |out.data|;
    WriteValue(out, c, item, pad);
    Grouping(old(out.data), ItemHeader(c, item, pad(|old(out.data)|)), item.key, EncodeValue(c, item, pad, offset));
  }

  lemma Grouping(a: Bytes, b: Bytes, c: Bytes, d: Bytes)
    ensures a + b + c + d == a + (b + c + d)
  {
  }

  method WriteValue(out: Stream, c: Byte, item: Item, pad: nat -> Padding)
    requires Known(c) && WritableItem(c, item)
    modifies out
    ensures out.data == old(out.data) + EncodeValue(c, item, pad, |old(out.data)|)
    decreases item.value
  {
    if c == UINT32 || c == INT32 {
      out.Write(Little(item.value.n, 4));
    } else if c == STRING {
      out.Write((item.value.s + [0])[..item.size]);
    } else {
      WriteDict(out, item.value.dict.value, pad);
    }
  }

  // ------------------------------------------------------------------------------------------- reading

  function Take(b: Bytes, n: nat): (r: (Option<Bytes>, Bytes))
    ensures |r.1| <= |b|
  {
    if n <= |b| then (Some(b[..n]), b[n..]) else (None, [])
  }

  /** crtx_read_dict(): the dictionary, or None, and the bytes that are left. */
  function Decode(b: Bytes): (r: (Option<Dict>, Bytes))
    ensures |r.1| <= |b|
    decreases |b|, 0
  {
    var (length, b1) := Take(b, 4);
    if length.None? then (None, b1)
    else if Number(length.value) >= MAX_SIGNATURE then (None, b1)
    else
      var (sig, b2) := Take(b1, Number(length.value));
      if sig.None? then (None, b2)
      else
        var (items, b3) := DecodeItems(sig.value, b2);
        (if items.None? then None else Some(Dict(sig.value, items.value)), b3)
  }

  /** The items for the letters up to a zero byte or the end. */
  function DecodeItems(sig: Bytes, b: Bytes): (r: (Option<seq<Item>>, Bytes))
    ensures |r.1| <= |b|
    decreases |b|, 1
  {
    if sig == [] || sig[0] == 0 then (Some([]), b)
    else
      var (item, b1) := DecodeItem(sig[0], b);
      if item.None? then (None, b1)
      else
        var (items, b2) := DecodeItems(sig[1..], b1);
        (if items.None? then None else Some([item.value] + items.value), b2)
  }

  function WithAllocatedKey(flags: Byte): Byte { if flags % 2 == 1 then flags else flags + 1 }

  function DecodeItem(c: Byte, b: Bytes): (r: (Option<Item>, Bytes))
    ensures |r.1| <= |b| && (r.0.Some? ==> |r.1| < |b|)
    decreases |b|, 0
  {
    var (header, b1) := Take(b, HEADER);
    if header.None? then (None, b1)
    else
      var h := header.value;
      var (key, b2) := Take(b1, Number(h[..8]));
      if key.None? then (None, b2)
      else
        var (value, b3) := DecodeValue(c, Number(h[8..16]), b2);
        (if value.None? then None else Some(Item(h[16], WithAllocatedKey(h[17]), key.value, 0, value.value)), b3)
  }

  /** The value after the key. A nested dictionary that cannot be read is null, and reading goes on. */
  function DecodeValue(c: Byte, payload: nat, b: Bytes): (r: (Option<Value>, Bytes))
    ensures |r.1| <= |b|
    decreases |b|, 1
  {
    if c in {UINT32, INT32} then
      if payload != 4 then (None, b)
      else
        var (n, rest) := Take(b, 4);
        (if n.None? then None else Some(Num(Number(n.value))), rest)
    else if c == STRING then
      var (str, rest) := Take(b, payload);
      (if str.None? then None else Some(Str(str.value)), rest)
    else if c == DICT then
      var (dict, rest) := Decode(b);
      (Some(Sub(dict)), rest)
    else (None, b)
  }

  function Prepend(items: seq<Item>, r: (Option<seq<Item>>, Bytes)): (Option<seq<Item>>, Bytes) {
    (if r.0.None? then None else Some(items + r.0.value), r.1)
  }

  lemma AddItem(sig: Bytes, b: Bytes, k: nat, items: seq<Item>)
    requires k < |sig| && sig[k] != 0
    ensures var (item, rest) := DecodeItem(sig[k], b);
            Prepend(items, DecodeItems(sig[k..], b)) ==
            if item.None? then (None, rest) else Prepend(items + [item.value], DecodeItems(sig[k + 1..], rest))
  {
    assert sig[k..][0] == sig[k] && sig[k..][1..] == sig[k + 1..];
    var (item, rest) := DecodeItem(sig[k], b);
    if item.Some? {
      var r := DecodeItems(sig[k + 1..], rest);
      if r.0.Some? { assert items + ([item.value] + r.0.value) == (items + [item.value]) + r.0.value; }
    }
  }

  /** crtx_read_dict(). The items behind a zero byte in the signature stay unset; they are left out here. */
  method ReadDict(input: Stream) returns (ds: Option<Dict>)
    modifies input
    ensures (ds, input.data) == Decode(old(input.data))
    decreases |input.data|, 1
  {
    var length := input.Read(4);
    if length.None? { return None; }
    var n := Number(length.value);
    if n >= MAX_SIGNATURE { return None; }
    var sig := input.Read(n);
    if sig.None? { return None; }
    var items := ReadItems(input, sig.value);
    if items.None? { return None; }
    return Some(Dict(sig.value, items.value));
  }

  /** The loop over the letters. */
  method ReadItems(input: Stream, sig: Bytes) returns (r: Option<seq<Item>>)
    modifies input
    ensures (r, input.data) == DecodeItems(sig, old(input.data))
    decreases |input.data|, 2
  {
    var items := [];
    var k := 0;
    ghost var goal := DecodeItems(sig, input.data);
    assert sig[0..] == sig && (goal.0.Some? ==> [] + goal.0.value == goal.0.value);
    while k < |sig| && sig[k] != 0
      invariant 0 <= k <= |sig| && |input.data| <= |old(input.data)|
      invariant Prepend(items, DecodeItems(sig[k..], input.data)) == goal
    {
      AddItem(sig, input.data, k, items);
      var item := ReadItem(input, sig[k]);
      if item.None? { return None; }
      items := items + [item.value];
      k := k + 1;
    }
    assert k < |sig| ==> sig[k..][0] == sig[k];
    assert items + [] == items;
    return Some(items);
  }

  method ReadItem(input: Stream, c: Byte) returns (item: Option<Item>)
    modifies input
    ensures (item, input.data) == DecodeItem(c, old(input.data))
    decreases |input.data|, 1
  {
    var header := input.Read(HEADER);
    if header.None? { return None; }
    var h := header.value;
    var key := input.Read(Number(h[..8]));
    if key.None? { return None; }
    var value := ReadValue(input, c, Number(h[8..16]));
    if value.None? { return None; }
    return Some(Item(h[16], WithAllocatedKey(h[17]), key.value, 0, value.value));
  }

  method ReadValue(input: Stream, c: Byte, payload: nat) returns (value: Option<Value>)
    modifies input
    ensures (value, input.data) == DecodeValue(c, payload, old(input.data))
    decreases |input.data|, 2
  {
    if c == UINT32 || c == INT32 {
      if payload != 4 { return None; }
      var n := input.Read(payload);
      if n.None? { return None; }
      return Some(Num(Number(n.value)));
    } else if c == STRING {
      var str := input.Read(payload);
      if str.None? { return None; }
      return Some(Str(str.value));
    } else if c == DICT {
      var dict := ReadDict(input);
      return Some(Sub(dict));
    } else {
      return None;
    }
  }

  // ------------------------------------------------------------------------------------------ round trip

  /** Dictionaries that the reader accepts: known letters only and short signatures, at every depth. */
  ghost predicate Readable(d: Dict)
    decreases d
  {
    && |d.signature| < MAX_SIGNATURE && Legible(d.signature) == |d.signature| <= |d.items|
    && forall k :: 0 <= k < |d.signature| ==> ReadableItem(d.signature[k], d.items[k])
  }

  ghost predicate ReadableItem(c: Byte, item: Item)
    decreases item
  {
    c == DICT ==> item.value.Sub? && item.value.dict.Some? && Readable(item.value.dict.value)
  }

  /** What the reader makes of a written dictionary. */
  ghost function AsRead(d: Dict): Dict
    requires Writable(d) && Readable(d)
    decreases d, 1, 0
  {
    Dict(d.signature, AsReadFrom(d, 0))
  }

  ghost function AsReadFrom(d: Dict, k: nat): (items: seq<Item>)
    requires Writable(d) && Readable(d) && k <= |d.signature|
    ensures |items| == |d.signature| - k
    decreases d, 0, |d.signature| - k
  {
    if k == |d.signature| then [] else [AsReadItem(d.signature[k], d.items[k])] + AsReadFrom(d, k + 1)
  }

  ghost function AsReadItem(c: Byte, item: Item): Item
    requires Known(c) && WritableItem(c, item) && ReadableItem(c, item)
    decreases item, 0, 0
  {
    Item(item.type_, WithAllocatedKey(item.flags), item.key, 0,
         if c in {UINT32, INT32} then Num(item.value.n)
         else if c == STRING then Str((item.value.s + [0])[..item.size])
         else Sub(Some(AsRead(item.value.dict.value))))
  }

  /** Whatever follows, the reader makes e into the given result and stops right behind it. */
  ghost predicate ReadsDict(e: Bytes, d: Dict) {
    forall rest :: Decode(e + rest) == (Some(d), rest)
  }

  ghost predicate ReadsItems(sig: Bytes, e: Bytes, items: seq<Item>) {
    forall rest :: DecodeItems(sig, e + rest) == (Some(items), rest)
  }

  ghost predicate ReadsItem(c: Byte, e: Bytes, item: Item) {
    forall rest :: DecodeItem(c, e + rest) == (Some(item), rest)
  }

  ghost predicate ReadsValue(c: Byte, payload: nat, e: Bytes, value: Value) {
    forall rest :: DecodeValue(c, payload, e + rest) == (Some(value), rest)
  }

  lemma TakeFront(front: Bytes, rest: Bytes)
    ensures Take(front + rest, |front|) == (Some(front), rest)
  {
    assert (front + rest)[..|front|] == front && (front + rest)[|front|..] == rest;
  }

  lemma Regroup(a: Bytes, b: Bytes, c: Bytes, rest: Bytes)
    ensures a + b + c + rest == a + (b + (c + rest))
  {
  }

  lemma DecodeByParts(length: Bytes, sig: Bytes, b: Bytes)
    requires |length| == 4 && Number(length) == |sig| < MAX_SIGNATURE
    ensures var (items, rest) := DecodeItems(sig, b);
            Decode(length + (sig + b)) == (if items.None? then None else Some(Dict(sig, items.value)), rest)
  {
    TakeFront(length, sig + b);
    TakeFront(sig, b);
  }

  lemma DictByParts(length: Bytes, sig: Bytes, e: Bytes, items: seq<Item>)
    requires |length| == 4 && Number(length) == |sig| < MAX_SIGNATURE && ReadsItems(sig, e, items)
    ensures ReadsDict(length + sig + e, Dict(sig, items))
  {
    forall rest ensures Decode(length + sig + e + rest) == (Some(Dict(sig, items)), rest) {
      Regroup(length, sig, e, rest);
      DecodeByParts(length, sig, e + rest);
    }
  }

  lemma ItemsByParts(sig: Bytes, k: nat, e: Bytes, item: Item, tail: Bytes, items: seq<Item>)
    requires k < |sig| && sig[k] != 0 && ReadsItem(sig[k], e, item) && ReadsItems(sig[k + 1..], tail, items)
    ensures ReadsItems(sig[k..], e + tail, [item] + items)
  {
    assert sig[k..][0] == sig[k] && sig[k..][1..] == sig[k + 1..];
    forall rest ensures DecodeItems(sig[k..], e + tail + rest) == (Some([item] + items), rest) {
      assert e + tail + rest == e + (tail + rest);
    }
  }

  lemma NoItems(sig: Bytes)
    requires sig == []
    ensures ReadsItems(sig, [], [])
  {
    forall rest ensures DecodeItems(sig, [] + rest) == (Some([]), rest) { assert [] + rest == rest; }
  }

  lemma ItemByParts(c: Byte, h: Bytes, key: Bytes, e: Bytes, value: Value)
    requires |h| == HEADER && Number(h[..8]) == |key| && ReadsValue(c, Number(h[8..16]), e, value)
    ensures ReadsItem(c, h + key + e, Item(h[16], WithAllocatedKey(h[17]), key, 0, value))
  {
    var item := Item(h[16], WithAllocatedKey(h[17]), key, 0, value);
    forall rest ensures DecodeItem(c, h + key + e + rest) == (Some(item), rest) {
      Regroup(h, key, e, rest);
      TakeFront(h, key + (e + rest));
      TakeFront(key, e + rest);
    }
  }

  lemma LengthRoundTrip(n: nat)
    requires n < MAX_SIGNATURE
    ensures n % 0x1_0000_0000 == n && Number(Little(n, 4)) == n
  {
    Powers();
    NumberOfLittle(n, 4);
  }

  lemma {:induction false} DictRoundTrip(d: Dict, pad: nat -> Padding, at: nat)
    requires Writable(d) && Readable(d)
    ensures ReadsDict(Encode(d, pad, at), AsRead(d))
    decreases d, 1, 0
  {
    var n := |d.signature|;
    LengthRoundTrip(n);
    ItemsRoundTrip(d, 0, pad, at + 4 + n);
    assert d.signature[0..] == d.signature;
    DictByParts(Little(n, 4), d.signature, EncodeFrom(d, 0, pad, at + 4 + n), AsReadFrom(d, 0));
  }

  lemma {:induction false} ItemsRoundTrip(d: Dict, k: nat, pad: nat -> Padding, at: nat)
    requires Writable(d) && Readable(d) && k <= |d.signature|
    ensures ReadsItems(d.signature[k..], EncodeFrom(d, k, pad, at), AsReadFrom(d, k))
    decreases d, 0, |d.signature| - k
  {
    if k == |d.signature| {
      NoItems(d.signature[k..]);
    } else {
      var c, item := d.signature[k], d.items[k];
      var e := EncodeItem(c, item, pad, at);
      ItemRoundTrip(c, item, pad, at);
      ItemsRoundTrip(d, k + 1, pad, at + |e|);
      UnfoldItem(d, k, pad, at);
      ItemsByParts(d.signature, k, e, AsReadItem(c, item), EncodeFrom(d, k + 1, pad, at + |e|), AsReadFrom(d, k + 1));
    }
  }

  lemma {:induction false} ItemRoundTrip(c: Byte, item: Item, pad: nat -> Padding, at: nat)
    requires Known(c) && WritableItem(c, item) && ReadableItem(c, item)
    ensures ReadsItem(c, EncodeItem(c, item, pad, at), AsReadItem(c, item))
    decreases item, 0, 0
  {
    HeaderRoundTrip(c, item, pad(at));
    ValueRoundTrip(c, item, pad, at + HEADER + |item.key|);
    ItemByParts(c, ItemHeader(c, item, pad(at)), item.key, EncodeValue(c, item, pad, at + HEADER + |item.key|),
                AsReadItem(c, item).value);
  }

  lemma HeaderSlices(a: Bytes, b: Bytes, t: Byte, f: Byte, pad: Bytes)
    requires |a| == |b| == 8
    ensures var h := a + b + [t, f] + pad; |h| >= 18 && h[..8] == a && h[8..16] == b && h[16] == t && h[17] == f
  {
  }

  lemma HeaderRoundTrip(c: Byte, item: Item, pad: Padding)
    requires Known(c) && WritableItem(c, item)
    ensures var h := ItemHeader(c, item, pad);
            && Number(h[..8]) == |item.key| && Number(h[8..16]) == (if c in {UINT32, INT32} then 4 else item.size)
            && h[16] == item.type_ && h[17] == item.flags
  {
    Powers();
    var payload := if c in {UINT32, INT32} then 4 else item.size;
    NumberOfLittle(|item.key|, 8);
    NumberOfLittle(payload, 8);
    HeaderSlices(Little(|item.key|, 8), Little(payload, 8), item.type_, item.flags, pad);
  }

  lemma {:induction false} ValueRoundTrip(c: Byte, item: Item, pad: nat -> Padding, at: nat)
    requires Known(c) && WritableItem(c, item) && ReadableItem(c, item)
    ensures ReadsValue(c, if c in {UINT32, INT32} then 4
        else item.size, EncodeValue(c, item, pad, at), AsReadItem(c, item).value)
    decreases item.value, 0, 0
  {
    var value := EncodeValue(c, item, pad, at);
    if c in {UINT32, INT32} {
      Powers();
      NumberOfLittle(item.value.n, 4);
    } else if c == DICT {
      DictRoundTrip(item.value.dict.value, pad, at);
      assert ReadsDict(value, AsRead(item.value.dict.value));
    }
    forall rest
      ensures DecodeValue(c, if c in {UINT32, INT32} then 4
          else item.size, value + rest) == (Some(AsReadItem(c, item).value), rest)
    {
      TakeFront(value, rest);
    }
  }

  /** The C string that starts at a buffer: the bytes in front of the first zero. */
  function CString(b: Bytes): Bytes {
    if b == [] || b[0] == 0 then [] else [b[0]] + CString(b[1..])
  }

  /** r has the signatures, types, keys and values of d at every depth, strings as C strings; only flags and
      sizes may differ. */
  ghost predicate Restores(d: Dict, r: Dict)
    decreases d
  {
    && r.signature == d.signature && |r.items| == |d.signature| <= |d.items|
    && forall k :: 0 <= k < |d.signature| ==> RestoresItem(d.items[k], r.items[k])
  }

  ghost predicate RestoresItem(item: Item, r: Item)
    decreases item
  {
    && r.type_ == item.type_ && r.key == item.key
    && match item.value
       case Sub(Some(dict)) => r.value.Sub? && r.value.dict.Some? && Restores(dict, r.value.dict.value)
       case Str(bytes) => r.value.Str? && CString(r.value.s) == CString(bytes)
       case _ => r.value == item.value
  }

  /** No string at any depth has a size below its length. */
  ghost predicate SizesSuffice(d: Dict)
    decreases d
  {
    |d.signature| <= |d.items| && forall k :: 0 <= k < |d.signature| ==> SizeSuffices(d.items[k])
  }

  ghost predicate SizeSuffices(item: Item)
    decreases item
  {
    && (item.value.Str? ==> |CString(item.value.s)| <= item.size)
    && (item.value.Sub? && item.value.dict.Some? ==> SizesSuffice(item.value.dict.value))
  }

  /** A prefix of a string and its final zero is the same C string if and only if it is long enough. */
  lemma {:induction false} PrefixIsSameStringIff(b: Bytes, size: nat)
    requires size <= |b| + 1
    ensures CString((b + [0])[..size]) == CString(b) <==> |CString(b)| <= size
  {
    var p := (b + [0])[..size];
    if b != [] && b[0] != 0 && size > 0 {
      assert p[1..] == (b[1..] + [0])[..size - 1] && p[0] == b[0];
      PrefixIsSameStringIff(b[1..], size - 1);
      assert CString(p) == [b[0]] + CString(p[1..]) && CString(b) == [b[0]] + CString(b[1..]);
      assert CString(p) == CString(b) ==> CString(p)[1..] == CString(b)[1..];
    }
  }

  lemma {:induction false} AsReadAt(d: Dict, from: nat, k: nat)
    requires Writable(d) && Readable(d) && from <= k < |d.signature|
    ensures AsReadFrom(d, from)[k - from] == AsReadItem(d.signature[k], d.items[k])
    decreases k - from
  {
    if from < k { AsReadAt(d, from + 1, k); }
  }

  /** Reading what was written gives the dictionary back, up to AsRead, and leaves exactly what follows. */
  lemma {:induction false} ReadWhatWasWritten(d: Dict, pad: nat -> Padding, at: nat, rest: Bytes)
    requires Writable(d) && Readable(d)
    ensures Decode(Encode(d, pad, at) + rest) == (Some(AsRead(d)), rest)
  {
    DictRoundTrip(d, pad, at);
  }

  /** What is read is the dictionary that was written if and only if no string in it has a size below its
      length: a smaller size truncates, one that counts the final zero does no harm. */
  lemma {:induction false} RestoredIffSizesSuffice(d: Dict)
    requires Writable(d) && Readable(d)
    ensures Restores(d, AsRead(d)) <==> SizesSuffice(d)
    decreases d
  {
    forall k | 0 <= k < |d.signature|
      ensures RestoresItem(d.items[k], AsRead(d).items[k]) <==> SizeSuffices(d.items[k])
    {
      AsReadAt(d, 0, k);
      ItemRestoredIff(d.signature[k], d.items[k]);
    }
  }

  lemma {:induction false} ItemRestoredIff(c: Byte, item: Item)
    requires Known(c) && WritableItem(c, item) && ReadableItem(c, item)
    ensures RestoresItem(item, AsReadItem(c, item)) <==> SizeSuffices(item)
    decreases item
  {
    if c == DICT {
      RestoredIffSizesSuffice(item.value.dict.value);
    } else if c == STRING {
      PrefixIsSameStringIff(item.value.s, item.size);
    }
  }

  // ------------------------------------------------------------------------------------------ cut streams

  /** Of the proper prefixes of e the reader accepts those with at least from bytes, and leaves nothing of any. */
  ghost predicate CutDict(e: Bytes, from: nat) {
    forall n {:trigger e[..n]} :: 0 <= n < |e| ==> var r := Decode(e[..n]); r.1 == [] && (r.0.Some? <==> from <= n)
  }

  ghost predicate CutItems(sig: Bytes, e: Bytes, from: nat) {
    forall n {:trigger e[..n]} :: 0 <= n < |e| ==>
      var r := DecodeItems(sig, e[..n]); r.1 == [] && (r.0.Some? <==> from <= n)
  }

  ghost predicate CutItem(c: Byte, e: Bytes, from: nat) {
    forall n {:trigger e[..n]} :: 0 <= n < |e| ==>
      var r := DecodeItem(c, e[..n]); r.1 == [] && (r.0.Some? <==> from <= n)
  }

  ghost predicate CutValue(c: Byte, payload: nat, e: Bytes, from: nat) {
    forall n {:trigger e[..n]} :: 0 <= n < |e| ==>
      var r := DecodeValue(c, payload, e[..n]); r.1 == [] && (r.0.Some? <==> from <= n)
  }

  lemma CutIn(a: Bytes, b: Bytes, n: nat)
    requires n <= |a + b|
    ensures n <= |a| ==> (a + b)[..n] == a[..n]
    ensures |a| <= n ==> (a + b)[..n] == a + b[..n - |a|]
  {
  }

  lemma CutDictByParts(length: Bytes, sig: Bytes, e: Bytes, from: nat)
    requires |length| == 4 && Number(length) == |sig| < MAX_SIGNATURE && CutItems(sig, e, from)
    ensures CutDict(length + sig + e, 4 + |sig| + from)
  {
    var all := length + sig + e;
    forall n {:trigger all[..n]} | 0 <= n < |all|
      ensures var r := Decode(all[..n]); r.1 == [] && (r.0.Some? <==> 4 + |sig| + from <= n)
    {
      assert all == length + (sig + e);
      CutIn(length, sig + e, n);
      if n >= 4 {
        var m := n - 4;
        TakeFront(length, (sig + e)[..m]);
        CutIn(sig, e, m);
        if m >= |sig| {
          TakeFront(sig, e[..m - |sig|]);
        }
      }
    }
  }

  lemma CutItemByParts(c: Byte, h: Bytes, key: Bytes, e: Bytes, from: nat)
    requires |h| == HEADER && Number(h[..8]) == |key| && CutValue(c, Number(h[8..16]), e, from)
    ensures CutItem(c, h + key + e, HEADER + |key| + from)
  {
    var all := h + key + e;
    forall n {:trigger all[..n]} | 0 <= n < |all|
      ensures var r := DecodeItem(c, all[..n]); r.1 == [] && (r.0.Some? <==> HEADER + |key| + from <= n)
    {
      assert all == h + (key + e);
      CutIn(h, key + e, n);
      if n >= HEADER {
        var m := n - HEADER;
        TakeFront(h, (key + e)[..m]);
        CutIn(key, e, m);
        if m >= |key| {
          TakeFront(key, e[..m - |key|]);
        }
      }
    }
  }

  /** An item that is not the last one, and what follows it. */
  lemma CutItemsByParts(sig: Bytes, k: nat, e: Bytes, item: Item, fromItem: nat, tail: Bytes, from: nat)
    requires k + 1 < |sig| && Known(sig[k]) && Known(sig[k + 1])
    requires ReadsItem(sig[k], e, item) && CutItem(sig[k], e, fromItem) && CutItems(sig[k + 1..], tail, from)
    ensures CutItems(sig[k..], e + tail, |e| + from)
  {
    assert sig[k..][0] == sig[k] && sig[k..][1..] == sig[k + 1..] && sig[k + 1..][0] == sig[k + 1];
    assert DecodeItem(sig[k + 1], []) == (None, []);
    assert DecodeItems(sig[k + 1..], []) == (None, []);
    var all := e + tail;
    forall n {:trigger all[..n]} | 0 <= n < |all|
      ensures var r := DecodeItems(sig[k..], all[..n]); r.1 == [] && (r.0.Some? <==> |e| + from <= n)
    {
      CutIn(e, tail, n);
      if n < |e| {
        assert DecodeItem(sig[k], e[..n]).1 == [];
      } else {
        assert DecodeItem(sig[k], e + tail[..n - |e|]) == (Some(item), tail[..n - |e|]);
        assert DecodeItems(sig[k + 1..], tail[..n - |e|]).1 == [];
      }
    }
  }

  lemma CutLastItem(sig: Bytes, k: nat, e: Bytes, from: nat)
    requires k + 1 == |sig| && Known(sig[k]) && CutItem(sig[k], e, from)
    ensures CutItems(sig[k..], e, from)
  {
    assert sig[k..][0] == sig[k] && sig[k..][1..] == [];
    forall n {:trigger e[..n]} | 0 <= n < |e|
      ensures var r := DecodeItems(sig[k..], e[..n]); r.1 == [] && (r.0.Some? <==> from <= n)
    {
      assert DecodeItem(sig[k], e[..n]).1 == [];
    }
  }

  /** The bytes of the nested dictionary that the last item holds; none if it holds something else. */
  ghost function LastDict(d: Dict, k: nat, pad: nat -> Padding, at: nat): Bytes
    requires Writable(d) && k <= Legible(d.signature)
    decreases |d.signature| - k
  {
    if k == Legible(d.signature) then []
    else
      var c, item := d.signature[k], d.items[k];
      if k + 1 < Legible(d.signature) then LastDict(d, k + 1, pad, at + |EncodeItem(c, item, pad, at)|)
      else if c == DICT then EncodeValue(c, item, pad, at + HEADER + |item.key|)
      else []
  }

  lemma {:induction false} LastDictIsSuffix(d: Dict, k: nat, pad: nat -> Padding, at: nat)
    requires Writable(d) && k <= Legible(d.signature) == |d.signature|
    ensures |LastDict(d, k, pad, at)| <= |EncodeFrom(d, k, pad, at)|
    ensures LastDict(d, k, pad, at) != [] <==> k < |d.signature| && d.signature[|d.signature| - 1] == DICT
    decreases |d.signature| - k
  {
    if k < |d.signature| {
      var c, item := d.signature[k], d.items[k];
      UnfoldItem(d, k, pad, at);
      if k + 1 < |d.signature| {
        LastDictIsSuffix(d, k + 1, pad, at + |EncodeItem(c, item, pad, at)|);
      } else {
        ValueIsSuffix(c, item, pad, at);
      }
    }
  }

  lemma ValueIsSuffix(c: Byte, item: Item, pad: nat -> Padding, at: nat)
    requires Known(c) && WritableItem(c, item)
    ensures var value := EncodeValue(c, item, pad, at + HEADER + |item.key|);
            |value| <= |EncodeItem(c, item, pad, at)| && (c == DICT ==> value != [])
  {
    if c == DICT {
      assert |EncodeValue(c, item, pad, at + HEADER + |item.key|)| >= 4;
    }
  }

  lemma {:induction false} DictCut(d: Dict, pad: nat -> Padding, at: nat)
    requires Writable(d) && Readable(d)
    ensures var n := |d.signature|;
            var items, last := EncodeFrom(d, 0, pad, at + 4 + n), LastDict(d, 0, pad, at + 4 + n);
            |last| <= |items| && CutDict(Encode(d, pad, at), 4 + n + |items| - |last|)
    decreases d, 1, 0
  {
    ItemsCut(d, 0, pad, at + 4 + |d.signature|);
    DictCutByItems(d, pad, at);
  }

  lemma DictCutByItems(d: Dict, pad: nat -> Padding, at: nat)
    requires Writable(d) && Readable(d) && ItemsAreCut(d, 0, pad, at + 4 + |d.signature|)
    ensures var n := |d.signature|;
            var items, last := EncodeFrom(d, 0, pad, at + 4 + n), LastDict(d, 0, pad, at + 4 + n);
            |last| <= |items| && CutDict(Encode(d, pad, at), 4 + n + |items| - |last|)
  {
    var n := |d.signature|;
    LengthRoundTrip(n);
    var items, last := EncodeFrom(d, 0, pad, at + 4 + n), LastDict(d, 0, pad, at + 4 + n);
    assert CutItems(d.signature, items, |items| - |last|) by { assert d.signature[0..] == d.signature; }
    CutDictByParts(Little(n, 4), d.signature, items, |items| - |last|);
    assert Encode(d, pad, at) == Little(n, 4) + d.signature + items;
  }

  lemma {:induction false} ItemsCut(d: Dict, k: nat, pad: nat -> Padding, at: nat)
    requires Writable(d) && Readable(d) && k <= |d.signature|
    ensures ItemsAreCut(d, k, pad, at)
    decreases d, 0, |d.signature| - k
  {
    if k == |d.signature| {
      LastDictIsSuffix(d, k, pad, at);
    } else {
      var c, item := d.signature[k], d.items[k];
      ItemCut(c, item, pad, at);
      if k + 1 < |d.signature| {
        ItemRoundTrip(c, item, pad, at);
        var e, value := EncodeItem(c, item, pad, at), EncodeValue(c, item, pad, at + HEADER + |item.key|);
        ItemsCut(d, k + 1, pad, at + |e|);
        ItemsCutNext(d, k, pad, at, e, AsReadItem(c, item), if c == DICT then |e| - |value| else |e|);
      } else {
        ItemsCutLast(d, k, pad, at);
      }
    }
  }

  /** The statement of ItemsCut, for the items from index k on at offset at. */
  ghost predicate ItemsAreCut(d: Dict, k: nat, pad: nat -> Padding, at: nat)
    requires Writable(d) && Readable(d) && k <= |d.signature|
  {
    var items, last := EncodeFrom(d, k, pad, at), LastDict(d, k, pad, at);
    |last| <= |items| && CutItems(d.signature[k..], items, |items| - |last|)
  }

  lemma ItemsCutNext(d: Dict, k: nat, pad: nat -> Padding, at: nat, e: Bytes, item: Item, from: nat)
    requires Writable(d) && Readable(d) && k + 1 < |d.signature|
    requires e == EncodeItem(d.signature[k], d.items[k], pad, at)
    requires ReadsItem(d.signature[k], e, item) && CutItem(d.signature[k], e, from)
    requires ItemsAreCut(d, k + 1, pad, at + |e|)
    ensures ItemsAreCut(d, k, pad, at)
  {
    UnfoldItem(d, k, pad, at);
    var tail, last := EncodeFrom(d, k + 1, pad, at + |e|), LastDict(d, k + 1, pad, at + |e|);
    MoreItemsCut(d.signature, k, e, item, from, tail, last);
  }

  lemma ItemsCutLast(d: Dict, k: nat, pad: nat -> Padding, at: nat)
    requires Writable(d) && Readable(d) && k + 1 == |d.signature|
    requires var c, item := d.signature[k], d.items[k];
             var e, value := EncodeItem(c, item, pad, at), EncodeValue(c, item, pad, at + HEADER + |item.key|);
             |value| <= |e| && CutItem(c, e, if c == DICT then |e| - |value| else |e|)
    ensures ItemsAreCut(d, k, pad, at)
  {
    UnfoldItem(d, k, pad, at);
    var items, last := EncodeFrom(d, k, pad, at), LastDict(d, k, pad, at);
    CutLastItem(d.signature, k, items, |items| - |last|);
  }

  lemma UnfoldItem(d: Dict, k: nat, pad: nat -> Padding, at: nat)
    requires Writable(d) && Legible(d.signature) == |d.signature| && k < |d.signature|
    ensures var c, item := d.signature[k], d.items[k];
            var e, value := EncodeItem(c, item, pad, at), EncodeValue(c, item, pad, at + HEADER + |item.key|);
            && EncodeFrom(d, k, pad, at) == e + EncodeFrom(d, k + 1, pad, at + |e|)
            && (k + 1 < |d.signature| ==> LastDict(d, k, pad, at) == LastDict(d, k + 1, pad, at + |e|))
            && (k + 1 == |d.signature| ==>
                  EncodeFrom(d, k, pad, at) == e && LastDict(d, k, pad, at) == if c == DICT then value else [])
  {
    var e := EncodeItem(d.signature[k], d.items[k], pad, at);
    if k + 1 == |d.signature| {
      assert EncodeFrom(d, k + 1, pad, at + |e|) == [];
      assert e + [] == e;
    }
  }

  lemma MoreItemsCut(sig: Bytes, k: nat, e: Bytes, item: Item, from: nat, tail: Bytes, last: Bytes)
    requires k + 1 < |sig| && Known(sig[k]) && Known(sig[k + 1]) && |last| <= |tail|
    requires ReadsItem(sig[k], e, item) && CutItem(sig[k], e, from)
    requires CutItems(sig[k + 1..], tail, |tail| - |last|)
    ensures |last| <= |e + tail| && CutItems(sig[k..], e + tail, |e + tail| - |last|)
  {
    CutItemsByParts(sig, k, e, item, from, tail, |tail| - |last|);
  }

  lemma {:induction false} ItemCut(c: Byte, item: Item, pad: nat -> Padding, at: nat)
    requires Known(c) && WritableItem(c, item) && ReadableItem(c, item)
    ensures var e, value := EncodeItem(c, item, pad, at), EncodeValue(c, item, pad, at + HEADER + |item.key|);
            |value| <= |e| && CutItem(c, e, if c == DICT then |e| - |value| else |e|)
    decreases item, 0, 0
  {
    var value := EncodeValue(c, item, pad, at + HEADER + |item.key|);
    HeaderRoundTrip(c, item, pad(at));
    ValueCut(c, item, pad, at + HEADER + |item.key|);
    CutItemByParts(c, ItemHeader(c, item, pad(at)), item.key, value, if c == DICT then 0 else |value|);
  }

  lemma {:induction false} ValueCut(c: Byte, item: Item, pad: nat -> Padding, at: nat)
    requires Known(c) && WritableItem(c, item) && ReadableItem(c, item)
    ensures var value := EncodeValue(c, item, pad, at);
            CutValue(c, if c in {UINT32, INT32} then 4 else item.size, value, if c == DICT then 0 else |value|)
    decreases item.value, 0, 0
  {
    if c == DICT {
      DictCut(item.value.dict.value, pad, at);
    }
  }

  /** A stream that is cut short is refused, and nothing of it is left, unless the last item is a nested dictionary
      and only bytes of that are missing: it is null or incomplete then, and the outer dictionary is accepted. */
  lemma {:induction false} CutStreamIsAcceptedIff(d: Dict, pad: nat -> Padding, at: nat, n: nat)
    requires Writable(d) && Readable(d) && n < |Encode(d, pad, at)|
    ensures var r, last := Decode(Encode(d, pad, at)[..n]), LastDict(d, 0, pad, at + 4 + |d.signature|);
            && r.1 == []
            && (r.0.Some? <==> last != [] && |Encode(d, pad, at)| - |last| <= n)
            && (last != [] <==> d.signature != [] && d.signature[|d.signature| - 1] == DICT)
  {
    DictCut(d, pad, at);
    LastDictIsSuffix(d, 0, pad, at + 4 + |d.signature|);
  }

  /** A signature is refused, whatever follows, if and only if it has 128 or more letters; otherwise the items
      decide. */
  lemma LongSignatureIsRefused(length: Bytes, sig: Bytes, b: Bytes)
    requires |length| == 4 && Number(length) == |sig|
    ensures |sig| >= 128 ==> Decode(length + (sig + b)) == (None, sig + b)
    ensures |sig| < 128 ==> (Decode(length + (sig + b)).0.Some? <==> DecodeItems(sig, b).0.Some?)
  {
    TakeFront(length, sig + b);
    if |sig| < 128 { DecodeByParts(length, sig, b); }
  }

  /** The letters behind a zero byte are not looked at. */
  lemma {:induction false} LettersBehindZeroAreIgnored(sig: Bytes, behind: Bytes, b: Bytes)
    requires 0 !in sig
    ensures DecodeItems(sig + [0] + behind, b) == DecodeItems(sig, b)
    decreases |sig|
  {
    if sig != [] {
      assert (sig + [0] + behind)[1..] == sig[1..] + [0] + behind;
      var (item, rest) := DecodeItem(sig[0], b);
      LettersBehindZeroAreIgnored(sig[1..], behind, rest);
    }
  }

  /** A number with a payload that is not four bytes, and an item with an unknown letter, are refused with the
      whole dictionary. */
  lemma BadItemsAreRefused(sig: Bytes, k: nat, h: Bytes, key: Bytes, rest: Bytes)
    requires k < |sig| && sig[k] != 0 && |h| == HEADER && Number(h[..8]) == |key|
    requires (sig[k] in {117, 105} && Number(h[8..16]) != 4) || sig[k] !in {117, 105, 115, 68}
    ensures DecodeItems(sig[k..], h + (key + rest)) == (None, rest)
  {
    assert sig[k..][0] == sig[k];
    TakeFront(h, key + rest);
    TakeFront(key, rest);
    assert DecodeValue(sig[k], Number(h[8..16]), rest) == (None, rest);
    assert DecodeItem(sig[k], h + (key + rest)) == (None, rest);
  }

  /** The flags of an item read are those written, with the lowest bit set. */
  lemma FlagsAreKept(flags: Byte)
    ensures WithAllocatedKey(flags) % 2 == 1 && WithAllocatedKey(flags) / 2 == flags / 2
  {
  }

  // ------------------------------------------------------------------------------------------ the layout

  lemma SmallLittle(n: nat)
    requires n < 256
    ensures Little(n, 4) == [n, 0, 0, 0] && Little(n, 8) == [n, 0, 0, 0, 0, 0, 0, 0]
  {
    assert Little(0, 1) == [0] && Little(0, 2) == [0, 0] && Little(0, 3) == [0, 0, 0];
    assert Little(0, 4) == [0, 0, 0, 0] && Little(0, 5) == [0, 0, 0, 0, 0];
    assert Little(0, 6) == [0, 0, 0, 0, 0, 0] && Little(0, 7) == [0, 0, 0, 0, 0, 0, 0];
  }

  lemma SmallHeader(key: nat, payload: nat, t: Byte, flags: Byte)
    requires key < 256 && payload < 256
    ensures Little(key, 8) + Little(payload, 8) + [t, flags] ==
            [key, 0, 0, 0, 0, 0, 0, 0, payload, 0, 0, 0, 0, 0, 0, 0, t, flags]
  {
    SmallLittle(key);
    SmallLittle(payload);
  }

  lemma LittleOf258()
    ensures Little(0x102, 4) == [2, 1, 0, 0]
  {
    SmallLittle(1);
    assert Little(0x102, 4) == [2] + Little(1, 3);
    assert Little(1, 4) == [1] + Little(0, 3) && Little(1, 3) == [1] + Little(0, 2);
    assert Little(0, 1) == [0] && Little(0, 2) == [0, 0];
  }

  /** The bytes of an item with a number: the length of its key and of its payload in eight bytes each, the lowest
      first, its type and flags, six bytes that nobody set, its key and its payload. */
  lemma KnownNumberBytes(pad: nat -> Padding, at: nat, flags: Byte)
    ensures EncodeItem(117, Item(105, flags, [97], 9, Num(0x102)), pad, at) ==
            [1, 0, 0, 0, 0, 0, 0, 0, 4, 0, 0, 0, 0, 0, 0, 0, 105, flags] + pad(at) + [97] + [2, 1, 0, 0]
  {
    SmallHeader(1, 4, 105, flags);
    LittleOf258();
  }

  /** The same with a string, whose payload has as many bytes as its size says. */
  lemma KnownStringBytes(pad: nat -> Padding, at: nat, flags: Byte)
    ensures EncodeItem(115, Item(115, flags, [98, 99], 3, Str([120, 121, 122])), pad, at) ==
            [2, 0, 0, 0, 0, 0, 0, 0, 3, 0, 0, 0, 0, 0, 0, 0, 115, flags] + pad(at) + [98, 99] + [120, 121, 122]
  {
    SmallHeader(2, 3, 115, flags);
    assert ([120, 121, 122] + [0])[..3] == [120, 121, 122];
  }

  /** The bytes of a dictionary: the length of its signature in four bytes, the signature, and the items. */
  lemma KnownDictBytes(pad: nat -> Padding, at: nat, item: Item)
    requires WritableItem(117, item)
    ensures Writable(Dict([117], [item]))
    ensures Encode(Dict([117], [item]), pad, at) == [1, 0, 0, 0, 117] + EncodeItem(117, item, pad, at + 5)
  {
    var d := Dict([117], [item]);
    SmallLittle(1);
    assert Legible(d.signature) == 1;
    UnfoldItem(d, 0, pad, at + 5);
    assert [1, 0, 0, 0] + [117] == [1, 0, 0, 0, 117];
  }
}
