/** The Internet checksum of the ping listener (layer2/ping.c) and the packets that it sends and accepts. */
module Checksum {
  import opened Sequences

  type Byte = b: int | 0 <= b < 256

  // ------------------------------------------------------------------------------------ the specification

  /** Two bytes in memory read as one machine word, on a big-endian or a little-endian machine. */
  function Word(big: bool, first: Byte, second: Byte): (w: nat)
    ensures w < 65536
  {
    if big then 256 * first + second else first + 256 * second
  }

  /** The words of a packet; an odd last byte is followed by a zero byte. */
  function Words(big: bool, packet: seq<Byte>): seq<nat> {
    if packet == [] then []
    else if |packet| == 1 then [Word(big, packet[0], 0)]
    else [Word(big, packet[0], packet[1])] + Words(big, packet[2..])
  }

  function Total(words: seq<nat>): nat {
    if words == [] then 0 else words[0] + Total(words[1..])
  }

  /** The one's complement sum: the total modulo 65535, where only an empty total gives zero. */
  function Folded(total: nat): nat {
    if total == 0 then 0 else (total - 1) % 65535 + 1
  }

  function Checksum(big: bool, packet: seq<Byte>): nat {
    65535 - Folded(Total(Words(big, packet)))
  }

  // ----------------------------------------------------------------------------------------- computing it

  /** addcarry(): keeps the sum of two words below 65536 and congruent modulo 65535. */
  function AddCarry(sum: nat): nat {
    if sum >= 65536 then sum % 65536 + 1 else sum
  }

  /** in_cksum(). */
  method InChecksum(big: bool, packet: array<Byte>, length: nat) returns (checksum: nat)
    requires length <= packet.Length
    ensures checksum == Checksum(big, packet[..length]) && checksum < 65536
  {
    ghost var data := packet[..length];
    ghost var result := 65535 - Checksum(big, data);
    var sum: nat := 0;
    var i := 0;
    assert data[0..] == data;
    while length - i >= 2
      invariant 0 <= i <= length && 0 <= sum < 65536
      invariant Continues(big, data[i..], sum, result)
    {
      AddWord(big, data[i..], sum, result);
      assert data[i..][2..] == data[i + 2..];
      sum := AddCarry(sum + Word(big, packet[i], packet[i + 1]));
      i := i + 2;
    }
    if i < length {
      AddWord(big, data[i..], sum, result);
      sum := AddCarry(sum + Word(big, packet[i], 0));
    }
    checksum := 65535 - sum;
  }

  /** Adding the rest of the packet to sum gives the result. */
  ghost predicate Continues(big: bool, rest: seq<Byte>, sum: nat, result: nat) {
    Folded(sum + Total(Words(big, rest))) == result
  }

  lemma AddWord(big: bool, rest: seq<Byte>, sum: nat, result: nat)
    requires rest != [] && Continues(big, rest, sum, result) && sum < 65536
    ensures |rest| == 1 ==> AddCarry(sum + Word(big, rest[0], 0)) == result
    ensures |rest| > 1 ==> Continues(big, rest[2..], AddCarry(sum + Word(big, rest[0], rest[1])), result)
    ensures |rest| > 1 ==> AddCarry(sum + Word(big, rest[0], rest[1])) < 65536
  {
    FirstWord(big, rest);
    var w := Word(big, rest[0], if |rest| == 1 then 0 else rest[1]);
    FoldCarry(sum + w, if |rest| == 1 then 0 else Total(Words(big, rest[2..])));
    if |rest| == 1 { FoldedSmall(AddCarry(sum + w)); }
  }

  lemma FoldedSmall(total: nat)
    requires total < 65536
    ensures Folded(total) == total
  {
  }

  lemma FirstWord(big: bool, packet: seq<Byte>)
    requires packet != []
    ensures Total(Words(big, packet)) ==
            if |packet| == 1 then Word(big, packet[0], 0)
                else Word(big, packet[0], packet[1]) + Total(Words(big, packet[2..]))
  {
  }

  /** The folded sum is the only number below 65536 that is congruent to the total and zero with it. */
  lemma FoldedUnique(total: nat, f: nat)
    ensures f == Folded(total) <==> f < 65536 && f % 65535 == total % 65535 && (f == 0 <==> total == 0)
  {
  }

  lemma FoldedBy(total: nat, f: nat, k: int)
    requires total == f + 65535 * k && f < 65536 && (f == 0 <==> total == 0)
    ensures f == Folded(total)
  {
  }

  lemma FoldedParts(total: nat) returns (k: nat)
    ensures total == Folded(total) + 65535 * k
  {
    k := if total == 0 then 0 else (total - 1) / 65535;
  }

  lemma FoldedSum(total: nat, x: nat)
    requires x < 65536
    ensures var f := Folded(total); Folded(total + x) == if f + x > 65535 then f + x - 65535 else f + x
  {
    var k := FoldedParts(total);
    var f := Folded(total);
    if f + x > 65535 {
      FoldedBy(total + x, f + x - 65535, k + 1);
    } else {
      FoldedBy(total + x, f + x, k);
    }
  }

  lemma FoldCarry(sum: nat, rest: nat)
    requires sum < 131071
    ensures Folded(AddCarry(sum) + rest) == Folded(sum + rest)
    ensures AddCarry(sum) < 65536
  {
  }

  // --------------------------------------------------------------------------------------- its properties

  lemma {:induction false} TotalOfSplit(a: seq<nat>, b: seq<nat>)
    ensures Total(a + b) == Total(a) + Total(b)
  {
    if a == [] {
      assert a + b == b;
    } else {
      assert (a + b)[1..] == a[1..] + b;
      TotalOfSplit(a[1..], b);
    }
  }

  lemma TotalWithout(s: seq<nat>, i: nat)
    requires i < |s|
    ensures Total(s) == s[i] + Total(Removed(s, i))
  {
    var a, b := s[..i], s[i..];
    assert s == a + b && s[i + 1..] == b[1..];
    TotalOfSplit(a, b);
    TotalOfSplit(a, b[1..]);
  }

  lemma MultisetWithout(s: seq<nat>, i: nat)
    requires i < |s|
    ensures multiset(Removed(s, i)) == multiset(s) - multiset{s[i]}
  {
    assert s == s[..i] + [s[i]] + s[i + 1..];
  }

  lemma SomewhereIn(a: seq<nat>, b: seq<nat>) returns (i: nat)
    requires multiset(a) == multiset(b) && a != []
    ensures i < |b| && b[i] == a[0]
  {
    assert a[0] in multiset(b);
    i :| i < |b| && b[i] == a[0];
  }

  /** The sum does not depend on the order of the words. */
  lemma {:induction false} OrderDoesNotMatter(a: seq<nat>, b: seq<nat>)
    requires multiset(a) == multiset(b)
    ensures Total(a) == Total(b)
    decreases |a|
  {
    if a != [] {
      var i := SomewhereIn(a, b);
      TotalWithout(a, 0);
      TotalWithout(b, i);
      MultisetWithout(a, 0);
      MultisetWithout(b, i);
      OrderDoesNotMatter(Removed(a, 0), Removed(b, i));
    } else {
      assert |b| == |multiset(b)|;
    }
  }

  /** A packet with an odd number of bytes has the checksum of the packet with a zero byte behind it. */
  lemma {:induction false} OddPacketIsPadded(big: bool, packet: seq<Byte>)
    requires |packet| % 2 == 1
    ensures Words(big, packet) == Words(big, packet + [0])
    ensures Checksum(big, packet) == Checksum(big, packet + [0])
    decreases |packet|
  {
    if |packet| == 1 {
      assert (packet + [0])[2..] == [];
    } else {
      assert (packet + [0])[2..] == packet[2..] + [0];
      OddPacketIsPadded(big, packet[2..]);
    }
  }

  /** The example of RFC 1071, section 3: the words 0001, f203, f4f5 and f6f7 sum to ddf2. */
  lemma ExampleOfRfc1071()
    ensures Checksum(true, [0x00, 0x01, 0xf2, 0x03, 0xf4, 0xf5, 0xf6, 0xf7]) == 0xffff - 0xddf2
  {
    var p: seq<Byte> := [0x00, 0x01, 0xf2, 0x03, 0xf4, 0xf5, 0xf6, 0xf7];
    assert p[2..] == [0xf2, 0x03, 0xf4, 0xf5, 0xf6, 0xf7];
    assert p[2..][2..] == [0xf4, 0xf5, 0xf6, 0xf7];
    assert p[2..][2..][2..] == [0xf6, 0xf7] && p[2..][2..][2..][2..] == [];
    FirstWord(true, p);
    FirstWord(true, p[2..]);
    FirstWord(true, p[2..][2..]);
    FirstWord(true, p[2..][2..][2..]);
  }

  /** Replacing one aligned word of a packet. */
  ghost function WithWord(packet: seq<Byte>, i: nat, first: Byte, second: Byte): seq<Byte>
    requires 2 * i + 1 < |packet|
  {
    packet[2 * i := first][2 * i + 1 := second]
  }

  lemma {:induction false} TotalWithWord(big: bool, packet: seq<Byte>, i: nat, first: Byte, second: Byte)
    requires 2 * i + 1 < |packet|
    ensures Total(Words(big, WithWord(packet, i, first, second))) + Word(big, packet[2 * i], packet[2 * i + 1]) ==
            Total(Words(big, packet)) + Word(big, first, second)
    decreases i
  {
    var changed := WithWord(packet, i, first, second);
    if i == 0 {
      assert changed[2..] == packet[2..];
    } else {
      assert changed[2..] == WithWord(packet[2..], i - 1, first, second);
      TotalWithWord(big, packet[2..], i - 1, first, second);
    }
  }

  /** A change of a single word is detected, unless it turns 0 into 65535 or back in a packet that has
      another word that is not 0. */
  lemma {:induction false} ChangedWordIsDetectedUnless(big: bool, packet: seq<Byte>, i: nat, first: Byte, second: Byte)
    requires 2 * i + 1 < |packet|
    ensures var old_, new_ := Word(big, packet[2 * i], packet[2 * i + 1]), Word(big, first, second);
            Checksum(big, WithWord(packet, i, first, second)) == Checksum(big, packet) <==>
            old_ == new_ || ({old_, new_} == {0, 65535} && Total(Words(big, packet)) > old_)
  {
    var old_, new_ := Word(big, packet[2 * i], packet[2 * i + 1]), Word(big, first, second);
    var t, u := Total(Words(big, packet)), Total(Words(big, WithWord(packet, i, first, second)));
    TotalWithWord(big, packet, i, first, second);
    WordWithinTotal(big, packet, i);
    SameFolded(t - old_, old_, new_);
    assert t == t - old_ + old_ && u == t - old_ + new_;
    if {old_, new_} == {0, 65535} {
      assert old_ in {0, 65535} && new_ in {0, 65535} && (0 in {old_, new_}) && 65535 in {old_, new_};
    }
  }

  lemma {:induction false} WordWithinTotal(big: bool, packet: seq<Byte>, i: nat)
    requires 2 * i + 1 < |packet|
    ensures Word(big, packet[2 * i], packet[2 * i + 1]) <= Total(Words(big, packet))
    decreases i
  {
    if i > 0 { WordWithinTotal(big, packet[2..], i - 1); }
  }

  lemma SameFolded(rest: nat, x: nat, y: nat)
    requires x < 65536 && y < 65536
    ensures Folded(rest + x) == Folded(rest + y) <==>
        x == y || (rest > 0 && ((x == 0 && y == 65535) || (x == 65535 && y == 0)))
  {
    FoldedSum(rest, x);
    FoldedSum(rest, y);
  }

  // ------------------------------------------------------------------------------------------- byte order

  function Swap(w: nat): nat
    requires w < 65536
  {
    w / 256 + 256 * (w % 256)
  }

  lemma {:induction false} TotalsOfBothOrders(packet: seq<Byte>) returns (k: nat)
    ensures 256 * Total(Words(false, packet)) == Total(Words(true, packet)) + 65535 * k
    ensures Total(Words(true, packet)) == 0 <==> Total(Words(false, packet)) == 0
    decreases |packet|
  {
    k := 0;
    if packet != [] {
      FirstWord(true, packet);
      FirstWord(false, packet);
      if |packet| > 1 {
        k := TotalsOfBothOrders(packet[2..]);
        k := k + packet[1];
      }
    }
  }

  /** The checksum that a machine stores in the packet has the same bytes whatever its byte order. */
  lemma {:induction false} ByteOrderDoesNotMatter(packet: seq<Byte>)
    ensures Checksum(true, packet) == Swap(Checksum(false, packet))
  {
    var k := TotalsOfBothOrders(packet);
    SwapFolded(Total(Words(false, packet)), Total(Words(true, packet)), k);
  }

  lemma SwapFolded(u: nat, t: nat, k: int)
    requires 256 * u == t + 65535 * k && (t == 0 <==> u == 0)
    ensures 65535 - Folded(t) == Swap(65535 - Folded(u))
  {
    var f, m := Folded(u), if u == 0 then 0 else (u - 1) / 65535;
    assert u == f + 65535 * m;
    var high, low := f / 256, f % 256;
    assert 256 * f == high + 256 * low + 65535 * high;
    FoldedBy(t, high + 256 * low, 256 * m + high - k);
    assert (65535 - f) / 256 == 255 - high && (65535 - f) % 256 == 255 - low;
  }

  // ------------------------------------------------------------------------------ stamping and accepting

  ghost function ZeroField(packet: seq<Byte>): seq<Byte>
    requires |packet| >= 4
  {
    packet[2 := 0][3 := 0]
  }

  /** The bytes that a machine stores for a word. */
  function Bytes(big: bool, w: nat): (Byte, Byte)
    requires w < 65536
  {
    if big then (w / 256, w % 256) else (w % 256, w / 256)
  }

  ghost function Stamped(big: bool, packet: seq<Byte>): seq<Byte>
    requires |packet| >= 4
  {
    var (first, second) := Bytes(big, Checksum(big, ZeroField(packet)));
    packet[2 := first][3 := second]
  }

  /** The check that RFC 1071 describes: the checksum over the whole packet as received is zero. */
  ghost predicate SumsToZero(big: bool, packet: seq<Byte>) {
    Checksum(big, packet) == 0
  }

  lemma {:induction false} FieldTotal(big: bool, packet: seq<Byte>)
    requires |packet| >= 4
    ensures Total(Words(big, packet)) == Total(Words(big, ZeroField(packet))) + Word(big, packet[2], packet[3])
  {
    TotalWithWord(big, packet, 1, 0, 0);
  }

  /** A packet stamped with its own checksum sums to zero. */
  lemma {:induction false} StampedSumsToZero(big: bool, packet: seq<Byte>)
    requires |packet| >= 4
    ensures SumsToZero(big, Stamped(big, packet))
  {
    var stamped := Stamped(big, packet);
    assert ZeroField(stamped) == ZeroField(packet);
    FieldTotal(big, stamped);
    var t := Total(Words(big, ZeroField(packet)));
    FoldedSum(t, 65535 - Folded(t));
  }

  /** The receiver compares the stored checksum with the one it computes over the packet with a zero field.
      That is the check of RFC 1071 except for one pair: where the computed checksum is 0, a stored 65535
      means the same sum but is refused. */
  lemma {:induction false} ReceiverIsStricterOnlyFor65535(big: bool, packet: seq<Byte>)
    requires |packet| >= 4
    ensures var stored, computed := Word(big, packet[2], packet[3]), Checksum(big, ZeroField(packet));
            SumsToZero(big, packet) <==> stored == computed || (stored == 65535 && computed == 0)
  {
    FieldTotal(big, packet);
    FoldedSum(Total(Words(big, ZeroField(packet))), Word(big, packet[2], packet[3]));
  }

  method StampInPlace(big: bool, packet: array<Byte>)
    requires packet.Length >= 4 && packet[2] == packet[3] == 0
    modifies packet
    ensures packet[..] == Stamped(big, old(packet[..]))
  {
    ghost var was := packet[..];
    assert packet[..packet.Length] == was == ZeroField(was);
    var checksum := InChecksum(big, packet, packet.Length);
    var (first, second) := Bytes(big, checksum);
    packet[2], packet[3] := first, second;
  }

  /** The receiver's test, which clears the field. */
  method ChecksumMatches(big: bool, packet: array<Byte>) returns (ok: bool)
    requires packet.Length >= 4
    modifies packet
    ensures packet[..] == ZeroField(old(packet[..]))
    ensures ok <==> Word(big, old(packet[2]), old(packet[3])) == Checksum(big, ZeroField(old(packet[..])))
  {
    ghost var was := packet[..];
    var stored := Word(big, packet[2], packet[3]);
    packet[2], packet[3] := 0, 0;
    assert packet[..packet.Length] == packet[..] == ZeroField(was);
    var computed := InChecksum(big, packet, packet.Length);
    ok := stored == computed;
  }

  datatype Outcome = InvalidChecksum | Success(timed: bool) | OtherId | Unreachable | TooShort | Unexpected

  const ECHO_REPLY := 0
  const DEST_UNREACH := 3
  const ECHO := 8
  const PACKET_LEN := 64

  /** A number that a packet carries in network byte order. */
  function Network(packet: seq<Byte>, at: nat): nat
    requires at + 2 <= |packet|
  {
    Word(true, packet[at], packet[at + 1])
  }

  /** A header that announces an echo request, with the payload of the packet before. */
  ghost function Request(payload: seq<Byte>, id: nat, sequence: nat): seq<Byte>
    requires |payload| >= 8 && id < 65536 && sequence < 65536
  {
    [ECHO, 0, 0, 0, id / 256, id % 256, sequence / 256, sequence % 256] + payload[8..]
  }

  class PingListener {
    const big: bool
    const echoId: nat
    const generateTimeout: bool
    var packetsSent: nat
    var awaiting: bool
    const packet: array<Byte>

    ghost predicate Valid() reads this, packet {
      packet.Length == PACKET_LEN && packetsSent < 65536 && echoId < 65536
    }

    constructor (big: bool, echoId: nat, generateTimeout: bool)
      requires echoId < 65536
      ensures Valid() && packetsSent == 0 && !awaiting && fresh(packet)
      ensures this.big == big && this.echoId == echoId && this.generateTimeout == generateTimeout
    {
      this.big, this.echoId, this.generateTimeout := big, echoId, generateTimeout;
      packetsSent, awaiting := 0, false;
      packet := new Byte[PACKET_LEN](_ => 0);
    }

    /** crtx_ping_send_ping() up to the system call; says whether the ping before is reported as lost. The
        time stamp of the packet is only ever compared with zero, which awaiting stands for. */
    method SendPing() returns (timeout: bool)
      requires Valid()
      modifies this, packet
      ensures Valid() && awaiting
      ensures timeout == (generateTimeout && old(awaiting))
      ensures packetsSent == (old(packetsSent) + 1) % 65536
      ensures packet[..] == Stamped(big, Request(old(packet[..]), echoId, old(packetsSent)))
      ensures SumsToZero(big, packet[..]) && |packet[..]| == 64
    {
      timeout := generateTimeout && awaiting;
      WriteHeader();
      ghost var request := packet[..];
      packetsSent := (packetsSent + 1) % 65536;
      StampInPlace(big, packet);
      StampedSumsToZero(big, request);
      awaiting := true;
    }

    method WriteHeader()
      requires Valid()
      modifies packet
      ensures packet[..] == Request(old(packet[..]), echoId, packetsSent)
    {
      packet[0], packet[1], packet[2], packet[3] := ECHO, 0, 0, 0;
      packet[4], packet[5] := echoId / 256, echoId % 256;
      packet[6], packet[7] := packetsSent / 256, packetsSent % 256;
      assert packet[8..] == old(packet[8..]) == old(packet[..])[8..];
      assert packet[..8] == [ECHO, 0, 0, 0, echoId / 256, echoId % 256, packetsSent / 256, packetsSent % 256];
      assert packet[..] == packet[..8] + packet[8..];
    }

    /** fd_event_handler() on the part of a received packet behind the IP header. The field of the checksum
        is zero afterwards. The round trip is timed if the kernel gave a time stamp and the sequence number
        is the count of the sent packets minus one. */
    method Receive(icmp: array<Byte>, kernelTime: bool) returns (outcome: Outcome)
      requires Valid() && icmp.Length >= 8 && icmp != packet
      modifies this`awaiting, icmp
      ensures Valid() && icmp[..] == ZeroField(old(icmp[..]))
      ensures outcome == InvalidChecksum <==>
              Word(big, old(icmp[2]), old(icmp[3])) != Checksum(big, ZeroField(old(icmp[..])))
      ensures outcome.Success? <==>
          outcome != InvalidChecksum && old(icmp[0]) == ECHO_REPLY && Network(old(icmp[..]), 4) == echoId
      ensures outcome.Success? ==> (outcome.timed <==> kernelTime && Network(old(icmp[..]), 6) == packetsSent - 1)
      ensures outcome == Unreachable <==>
              && outcome != InvalidChecksum && old(icmp[0]) == DEST_UNREACH && icmp.Length >= 36
              && Network(old(icmp[..]), 32) == echoId
      ensures awaiting == (old(awaiting) && !outcome.Success? &&
                           !(outcome == Unreachable && Network(old(icmp[..]), 34) == packetsSent - 1))
    {
      var ok := ChecksumMatches(big, icmp);
      if !ok { return InvalidChecksum; }
      var message := icmp[..];
      if message[0] != ECHO_REPLY {
        if message[0] != DEST_UNREACH { return Unexpected; }
        if |message| < 36 { return TooShort; }
        if Network(message, 32) != echoId { return OtherId; }
        if Network(message, 34) == packetsSent - 1 { awaiting := false; }
        return Unreachable;
      }
      if Network(message, 4) != echoId { return OtherId; }
      awaiting := false;
      return Success(kernelTime && Network(message, 6) == packetsSent - 1);
    }
  }

  /** The answer to an echo request: the same packet with the type of an answer, stamped again. */
  lemma {:induction false} AnswerIsAccepted(big: bool, request: seq<Byte>)
    requires |request| >= 8
    ensures var answer := Stamped(big, request[0 := ECHO_REPLY]);
            && Word(big, answer[2], answer[3]) == Checksum(big, ZeroField(answer))
            && answer[0] == ECHO_REPLY
            && Network(answer, 4) == Network(request, 4) && Network(answer, 6) == Network(request, 6)
  {
    var answer := Stamped(big, request[0 := ECHO_REPLY]);
    assert ZeroField(answer) == ZeroField(request[0 := ECHO_REPLY]);
  }

  /** A ping and its answer from a peer that follows RFC 1071. The answer is always taken for a success of this
      listener. It is recognised as the one to the last packet, and timed, if and only if the 16-bit count of
      sent packets is not 0 after sending: the count wraps, the number compared with the answer does not. */
  method PingAndAnswer(listener: PingListener) returns (outcome: Outcome)
    requires listener.Valid()
    modifies listener, listener.packet
    ensures outcome == Success(listener.packetsSent != 0)
    ensures listener.packetsSent == (old(listener.packetsSent) + 1) % 65536 && !listener.awaiting
  {
    ghost var sequence, payload := listener.packetsSent, listener.packet[..];
    var _ := listener.SendPing();
    ghost var request: seq<Byte> := listener.packet[..];
    RequestNumbers(listener.big, payload, listener.echoId, sequence);
    var answer := CopyOf(listener.packet);
    answer[0], answer[2], answer[3] := ECHO_REPLY, 0, 0;
    ghost var unstamped := answer[..];
    StampInPlace(listener.big, answer);
    StampReplacesField(listener.big, unstamped, request[0 := ECHO_REPLY]);
    AnswerIsAccepted(listener.big, request);
    outcome := listener.Receive(answer, true);
  }

  method CopyOf(packet: array<Byte>) returns (copy: array<Byte>)
    ensures fresh(copy) && copy[..] == packet[..]
  {
    copy := new Byte[packet.Length];
    for i := 0 to packet.Length
      invariant copy[..i] == packet[..i]
    {
      copy[i] := packet[i];
    }
    assert copy[..] == copy[..packet.Length] && packet[..] == packet[..packet.Length];
  }

  lemma RequestNumbers(big: bool, payload: seq<Byte>, id: nat, sequence: nat)
    requires |payload| >= 8 && id < 65536 && sequence < 65536
    ensures var r := Stamped(big, Request(payload, id, sequence));
            |r| == |payload| && Network(r, 4) == id && Network(r, 6) == sequence
  {
    var r := Stamped(big, Request(payload, id, sequence));
    assert r[4] == id / 256 && r[5] == id % 256 && r[6] == sequence / 256 && r[7] == sequence % 256;
  }

  lemma StampReplacesField(big: bool, a: seq<Byte>, b: seq<Byte>)
    requires |a| == |b| >= 4 && ZeroField(a) == ZeroField(b)
    ensures Stamped(big, a) == Stamped(big, b)
  {
    assert forall i :: 0 <= i < |a| ==>
        Stamped(big, a)[i] == if i == 2 || i == 3 then Stamped(big, b)[i] else ZeroField(a)[i];
  }
}
