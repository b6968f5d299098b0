/** Packet framing of the authentication channel over TCP: a 24-byte head in little-endian order,
    followed by the payload, sent and received over a byte stream. */
module PacketStream {
  import opened Bits
  import opened Bytes
  import opened Options

  const MAGIC_NUMBER: nat := 0xBABEFACE
  const HEAD_LEN: nat := 24
  const MAX_DATA_LEN: nat := 65536

  // ------------------------------------------------------------------ heads

  datatype PktHead = PktHead(magic: int, moduleId: int, seqNum: int, flag: int, len: nat)

  predicate FieldsFit(h: PktHead) {
    FitsSigned(h.magic, TWO32) && FitsSigned(h.moduleId, TWO32) && FitsSigned(h.seqNum, TWO64) &&
      FitsSigned(h.flag, TWO32) && h.len < TWO32
  }

  /** The wire format of a head. */
  function HeadBytes(h: PktHead): (s: seq<byte>)
    ensures |s| == HEAD_LEN
  {
    ToBytes(ToUnsigned(h.magic, TWO32), 4) + ToBytes(ToUnsigned(h.moduleId, TWO32), 4)
    + ToBytes(ToUnsigned(h.seqNum, TWO64), 8)
    + ToBytes(ToUnsigned(h.flag, TWO32), 4) + ToBytes(ToUnsigned(h.len, TWO32), 4)
  }

  /** How a field at a position of received data is read: host memory, then conversion. */
  function Field(little: bool, data: seq<byte>, at: nat, n: nat): nat
    requires at + n <= |data|
  {
    Convert(little, Loaded(little, data[at..at + n]), n)
  }

  function ReadHead(little: bool, data: seq<byte>): PktHead
    requires |data| >= HEAD_LEN
  {
    PktHead(ToSigned(Field(little, data, 0, 4), TWO32), ToSigned(Field(little, data, 4, 4), TWO32),
            ToSigned(Field(little, data, 8, 8), TWO64), ToSigned(Field(little, data, 16, 4), TWO32),
            Field(little, data, 20, 4))
  }

  lemma FieldSurvives(little: bool, data: seq<byte>, at: nat, n: nat, v: nat)
    requires at + n <= |data| && v < Pow256(n) && data[at..at + n] == ToBytes(v, n)
    ensures Field(little, data, at, n) == v
  {
    ConvertBack(little, v, n);
  }

  lemma HeadSlices(h: PktHead, rest: seq<byte>)
    ensures var d := HeadBytes(h) + rest;
            && d[0..4] == ToBytes(ToUnsigned(h.magic, TWO32), 4) && d[4..8] == ToBytes(ToUnsigned(h.moduleId, TWO32), 4)
            && d[8..16] == ToBytes(ToUnsigned(h.seqNum, TWO64), 8) && d[16..20] == ToBytes(ToUnsigned(h.flag, TWO32), 4)
            && d[20..24] == ToBytes(ToUnsigned(h.len, TWO32), 4)
  {
  }

  /** A head that was packed on any host is unpacked unchanged on any host. */
  lemma HeadSurvives(little: bool, h: PktHead, rest: seq<byte>)
    requires FieldsFit(h)
    ensures ReadHead(little, HeadBytes(h) + rest) == h
  {
    var d := HeadBytes(h) + rest;
    WordSizes();
    HeadSlices(h, rest);
    FieldSurvives(little, d, 0, 4, ToUnsigned(h.magic, TWO32));
    FieldSurvives(little, d, 4, 4, ToUnsigned(h.moduleId, TWO32));
    FieldSurvives(little, d, 8, 8, ToUnsigned(h.seqNum, TWO64));
    FieldSurvives(little, d, 16, 4, ToUnsigned(h.flag, TWO32));
    FieldSurvives(little, d, 20, 4, ToUnsigned(h.len, TWO32));
    SignedSurvives(h.magic, TWO32);
    SignedSurvives(h.moduleId, TWO32);
    SignedSurvives(h.seqNum, TWO64);
    SignedSurvives(h.flag, TWO32);
    ModUnique(h.len, TWO32, 0, h.len);
  }

  // ------------------------------------------------------------------ packets and streams

  datatype Packet = Packet(moduleId: int, seqNum: int, flag: int, data: seq<byte>)

  predicate Sendable(p: Packet) {
    FitsSigned(p.moduleId, TWO32) && FitsSigned(p.seqNum, TWO64) && FitsSigned(p.flag, TWO32) &&
      HEAD_LEN + |p.data| < TWO32
  }

  function HeadOf(p: Packet): PktHead {
    PktHead(ToSigned(MAGIC_NUMBER, TWO32), p.moduleId, p.seqNum, p.flag, |p.data|)
  }

  function Encode(p: Packet): seq<byte> {
    HeadBytes(HeadOf(p)) + p.data
  }

  function EncodeAll(ps: seq<Packet>): seq<byte> {
    if ps == [] then [] else Encode(ps[0]) + EncodeAll(ps[1..])
  }

  datatype Outcome = Delivered(packet: Packet) | Refused

  /** One input event on the bytes that are still to be read: the outcome and what is left. */
  function InEvent(little: bool, input: seq<byte>): (Outcome, seq<byte>) {
    if |input| < HEAD_LEN then (Refused, []) else AfterHead(ReadHead(little, input), input[HEAD_LEN..])
  }

  function AfterHead(h: PktHead, rest: seq<byte>): (Outcome, seq<byte>) {
    if h.len > MAX_DATA_LEN || h.magic != ToSigned(MAGIC_NUMBER, TWO32) then (Refused, rest)
    else if |rest| < h.len then (Refused, [])
    else (Delivered(Packet(h.moduleId, h.seqNum, h.flag, rest[..h.len])), rest[h.len..])
  }

  /** The little-endian length in a head. */
  function LenIn(input: seq<byte>): (len: nat)
    requires |input| >= 24
  {
    FromBytes(input[20..24])
  }

  /** The bytes begin with a packet that the receiver accepts: the magic number, a length within the
      limit, and all of the payload. */
  predicate Arrives(input: seq<byte>) {
    |input| >= 24 && FromBytes(input[0..4]) == 0xBABEFACE && LenIn(input) <= 65536 && 24 + LenIn(input) <= |input|
  }

  function FirstPacket(input: seq<byte>): Packet
    requires Arrives(input)
  {
    Packet(ToSigned(FromBytes(input[4..8]), TWO32), ToSigned(FromBytes(input[8..16]), TWO64),
           ToSigned(FromBytes(input[16..20]), TWO32), input[24..24 + LenIn(input)])
  }

  /** What one input event leaves unread: what follows an accepted packet, what follows a head with a
      wrong magic number or an oversized length, and otherwise nothing. */
  function Unread(input: seq<byte>): seq<byte> {
    if Arrives(input) then input[24 + LenIn(input)..]
    else if |input| >= 24 && (FromBytes(input[0..4]) != 0xBABEFACE || LenIn(input) > 65536) then input[24..]
    else []
  }

  lemma FieldValue(little: bool, data: seq<byte>, at: nat, n: nat)
    requires at + n <= |data|
    ensures Field(little, data, at, n) == FromBytes(data[at..at + n])
  {
    ReadIsLittleEndian(little, data[at..at + n]);
  }

  lemma HeadValues(little: bool, data: seq<byte>, h: PktHead)
    requires |data| >= 24 && h == ReadHead(little, data)
    ensures h.moduleId == ToSigned(FromBytes(data[4..8]), TWO32) && h.seqNum == ToSigned(FromBytes(data[8..16]), TWO64)
    ensures h.flag == ToSigned(FromBytes(data[16..20]), TWO32) && h.len == LenIn(data)
    ensures h.magic == ToSigned(0xBABEFACE, TWO32) <==> FromBytes(data[0..4]) == 0xBABEFACE
  {
    WordSizes();
    FieldValue(little, data, 0, 4);
    FieldValue(little, data, 4, 4);
    FieldValue(little, data, 8, 8);
    FieldValue(little, data, 16, 4);
    FieldValue(little, data, 20, 4);
  }

  lemma AfterHeadExactly(h: PktHead, input: seq<byte>)
    requires |input| >= 24 && h.len == LenIn(input)
    requires h.magic == ToSigned(0xBABEFACE, TWO32) <==> FromBytes(input[0..4]) == 0xBABEFACE
    ensures var (outcome, rest) := AfterHead(h, input[24..]);
            && (outcome.Delivered? <==> Arrives(input)) && rest == Unread(input)
            && (outcome.Delivered? ==>
                  outcome.packet == Packet(h.moduleId, h.seqNum, h.flag, input[24..24 + LenIn(input)]))
  {
    if Arrives(input) {
      assert input[24..][..h.len] == input[24..24 + h.len] && input[24..][h.len..] == input[24 + h.len..];
    }
  }

  /** On arbitrary bytes and on any host: an input event delivers if and only if the bytes begin with
      an acceptable packet, what it delivers is that packet, and it consumes it; a refused head is
      consumed alone, and a head or payload that is cut short uses up the input. */
  lemma EventExactly(little: bool, input: seq<byte>)
    ensures var (outcome, rest) := InEvent(little, input);
            && outcome == (if Arrives(input) then Delivered(FirstPacket(input)) else Refused) && rest == Unread(input)
  {
    if |input| >= 24 {
      HeadValues(little, input, ReadHead(little, input));
      AfterHeadExactly(ReadHead(little, input), input);
    }
  }

  /** The wire form of a packet, byte by byte. */
  lemma EncodeLayout(p: Packet)
    requires Sendable(p)
    ensures var d := Encode(p);
            && |d| == 24 + |p.data| && FromBytes(d[0..4]) == 0xBABEFACE
            && FromBytes(d[4..8]) == p.moduleId % TWO32 && FromBytes(d[8..16]) == p.seqNum % TWO64
            && FromBytes(d[16..20]) == p.flag % TWO32 && FromBytes(d[20..24]) == |p.data| && d[24..] == p.data
  {
    WordSizes();
    HeadSlices(HeadOf(p), p.data);
    MagicBytes();
    ValueSurvives(ToUnsigned(p.moduleId, TWO32), 4);
    ValueSurvives(ToUnsigned(p.seqNum, TWO64), 8);
    ValueSurvives(ToUnsigned(p.flag, TWO32), 4);
    ModUnique(|p.data|, TWO32, 0, |p.data|);
    ValueSurvives(|p.data|, 4);
  }

  lemma MagicBytes()
    ensures FromBytes(ToBytes(ToUnsigned(ToSigned(MAGIC_NUMBER, TWO32), TWO32), 4)) == 0xBABEFACE
  {
    WordSizes();
    SignedReading(MAGIC_NUMBER, TWO32);
    ValueSurvives(MAGIC_NUMBER, 4);
  }

  lemma InEventShrinks(little: bool, input: seq<byte>)
    requires input != []
    ensures |InEvent(little, input).1| < |input|
  {
  }

  /** The packets delivered by serving the stream to its end. */
  function Deliver(little: bool, input: seq<byte>): seq<Packet>
    decreases |input|
  {
    if input == [] then []
    else
      InEventShrinks(little, input);
      var (outcome, rest) := InEvent(little, input);
      (if outcome.Delivered? then [outcome.packet] else []) + Deliver(little, rest)
  }

  /** An input event, in terms of the head and what follows it. */
  lemma InEventOf(little: bool, input: seq<byte>, h: PktHead, body: seq<byte>)
    requires |input| >= HEAD_LEN && ReadHead(little, input) == h && input[HEAD_LEN..] == body
    requires h.magic == ToSigned(MAGIC_NUMBER, TWO32) && h.len <= |body|
    ensures InEvent(little, input) ==
            if h.len > MAX_DATA_LEN then (Refused, body)
            else (Delivered(Packet(h.moduleId, h.seqNum, h.flag, body[..h.len])), body[h.len..])
  {
  }

  lemma SplitBody(data: seq<byte>, rest: seq<byte>)
    ensures (data + rest)[..|data|] == data && (data + rest)[|data|..] == rest
  {
  }

  lemma SplitInput(p: Packet, rest: seq<byte>, input: seq<byte>)
    requires input == Encode(p) + rest
    ensures input == HeadBytes(HeadOf(p)) + (p.data + rest) && input[HEAD_LEN..] == p.data + rest
  {
    SplitBody(HeadBytes(HeadOf(p)), p.data + rest);
    Regroup(HeadBytes(HeadOf(p)), p.data, rest);
  }

  /** A packet at the front of the stream is delivered exactly when its payload is not oversized;
      otherwise its payload is left in the stream. */
  lemma FrontPacket(little: bool, p: Packet, rest: seq<byte>)
    requires Sendable(p)
    ensures InEvent(little, Encode(p) + rest) ==
            if |p.data| <= MAX_DATA_LEN then (Delivered(p), rest) else (Refused, p.data + rest)
  {
    var input := Encode(p) + rest;
    SplitInput(p, rest, input);
    HeadSurvives(little, HeadOf(p), p.data + rest);
    SplitBody(p.data, rest);
    InEventOf(little, input, HeadOf(p), p.data + rest);
  }

  lemma DeliverFront(little: bool, p: Packet, rest: seq<byte>)
    requires Sendable(p) && |p.data| <= MAX_DATA_LEN
    ensures Deliver(little, Encode(p) + rest) == [p] + Deliver(little, rest)
  {
    FrontPacket(little, p, rest);
    assert Encode(p) + rest != [];
  }

  /** The payload of an oversized packet is read as packets of its own: if it begins with the bytes
      of a packet, that packet is delivered although nobody posted it. */
  lemma PayloadIsReadAsPacket(little: bool, p: Packet, q: Packet, tail: seq<byte>, rest: seq<byte>)
    requires Sendable(p) && |p.data| > MAX_DATA_LEN && p.data == Encode(q) + tail
    requires Sendable(q) && |q.data| <= MAX_DATA_LEN
    ensures Deliver(little, Encode(p) + rest) == [q] + Deliver(little, tail + rest)
  {
    FrontPacket(little, p, rest);
    assert Encode(p) + rest != [];
    Regroup(Encode(q), tail, rest);
    DeliverFront(little, q, tail + rest);
  }

  lemma {:induction false} AllowedIsDelivered(little: bool, ps: seq<Packet>)
    requires forall i :: 0 <= i < |ps| ==> Sendable(ps[i]) && |ps[i].data| <= MAX_DATA_LEN
    ensures Deliver(little, EncodeAll(ps)) == ps
  {
    if ps != [] {
      AllowedIsDelivered(little, ps[1..]);
      DeliverFront(little, ps[0], EncodeAll(ps[1..]));
      assert ps == [ps[0]] + ps[1..];
    }
  }

  /** Whatever is on the stream, nothing oversized is delivered. */
  lemma {:induction false} DeliveredIsAllowed(little: bool, input: seq<byte>)
    ensures forall p :: p in Deliver(little, input) ==> |p.data| <= MAX_DATA_LEN
    decreases |input|
  {
    if input != [] {
      InEventShrinks(little, input);
      DeliveredIsAllowed(little, InEvent(little, input).1);
    }
  }

  predicate AllAllowed(ps: seq<Packet>) {
    forall i :: 0 <= i < |ps| ==> |ps[i].data| <= MAX_DATA_LEN
  }

  /** A list of packets is delivered as sent, in order, if and only if none of them is oversized. */
  lemma StreamIsDelivered(little: bool, ps: seq<Packet>)
    requires forall i :: 0 <= i < |ps| ==> Sendable(ps[i])
    ensures Deliver(little, EncodeAll(ps)) == ps <==> AllAllowed(ps)
  {
    DeliveredIsAllowed(little, EncodeAll(ps));
    if AllAllowed(ps) {
      AllowedIsDelivered(little, ps);
    } else {
      var i :| 0 <= i < |ps| && |ps[i].data| > MAX_DATA_LEN;
      assert ps[i] in ps;
    }
  }

  // ------------------------------------------------------------------ sending

  /** Storing a converted host value behind what is already packed appends its little-endian bytes. */
  method StoreField(little: bool, buf: array<byte>, at: nat, v: nat, n: nat, ghost done: seq<byte>)
    requires at + n <= buf.Length && n <= 127 && v < Pow256(n) && buf[..at] == done
    modifies buf
    ensures buf[..at + n] == done + ToBytes(v, n)
    ensures forall k :: at + n <= k < buf.Length ==> buf[k] == old(buf[k])
  {
    var converted := ConvertOrder(little, v, n);
    ConvertedIsLittleEndian(little, v, n);
    Copy(buf, at, Stored(little, converted, n));
    assert buf[..at + n] == buf[..][..at + n];
    forall k | at + n <= k < buf.Length ensures buf[k] == old(buf[k]) {
      assert buf[k] == buf[..][k] && old(buf[k]) == old(buf[at + n..])[k - at - n];
    }
  }

  method PackHead(little: bool, h: PktHead, buf: array<byte>)
    requires buf.Length >= HEAD_LEN
    modifies buf
    ensures buf[..HEAD_LEN] == HeadBytes(h)
    ensures forall k :: HEAD_LEN <= k < buf.Length ==> buf[k] == old(buf[k])
  {
    WordSizes();
    var magic, moduleId, flag, len := ToUnsigned(h.magic, TWO32), ToUnsigned(h.moduleId, TWO32),
      ToUnsigned(h.flag, TWO32), ToUnsigned(h.len, TWO32);
    var seqNum := ToUnsigned(h.seqNum, TWO64);
    ghost var done := ToBytes(magic, 4);
    StoreField(little, buf, 0, magic, 4, []);
    StoreField(little, buf, 4, moduleId, 4, done);
    done := done + ToBytes(moduleId, 4);
    StoreField(little, buf, 8, seqNum, 8, done);
    done := done + ToBytes(seqNum, 8);
    StoreField(little, buf, 16, flag, 4, done);
    done := done + ToBytes(flag, 4);
    StoreField(little, buf, 20, len, 4, done);
  }

  /** Packing fills the front of the buffer, or refuses a buffer that is too short and leaves it. */
  method PackSocketPkt(little: bool, h: PktHead, data: seq<byte>, buf: array<byte>) returns (ok: bool)
    requires h.len == |data| && HEAD_LEN + h.len < TWO32
    modifies buf
    ensures ok <==> buf.Length >= HEAD_LEN + h.len
    ensures ok ==> buf[..] == HeadBytes(h) + data + old(buf[HEAD_LEN + h.len..])
    ensures !ok ==> buf[..] == old(buf[..])
  {
    if buf.Length < HEAD_LEN + h.len {
      return false;
    }
    PackHead(little, h, buf);
    assert buf[HEAD_LEN + h.len..] == old(buf[HEAD_LEN + h.len..]);
    Copy(buf, HEAD_LEN, data);
    return true;
  }

  /** A packet whose buffer can be allocated. */
  predicate Postable(p: Packet) {
    HEAD_LEN + |p.data| <= MAX_MALLOC_SIZE
  }

  /** What is handed to the socket for one packet: nothing if its buffer exceeds the allocator's limit. */
  method SocketPostBytes(little: bool, p: Packet) returns (sent: Option<seq<byte>>)
    requires Sendable(p)
    ensures sent == if Postable(p) then Some(Encode(p)) else None
    ensures sent.Some? <==> 24 + |p.data| <= 0x2000_0000
  {
    var size := HEAD_LEN + |p.data|;
    if size > MAX_MALLOC_SIZE {
      return None;
    }
    var buf := new byte[size](i => 0);
    assert buf[size..] == [];
    var ok := PackSocketPkt(little, HeadOf(p), p.data, buf);
    assert buf[..] == Encode(p);
    return Some(buf[..]);
  }

  // ------------------------------------------------------------------ receiving

  /** The receiving end of a connection whose remaining input is known. */
  class Connection {
    const little: bool
    var input: seq<byte>
    var delivered: seq<Packet>

    constructor (little: bool, input: seq<byte>)
      ensures this.little == little && this.input == input && delivered == []
    {
      this.little, this.input, delivered := little, input, [];
    }

    /** A blocking read: any positive number of the bytes asked for, or an error when no more come. */
    method Recv(max: nat) returns (n: int, data: seq<byte>)
      requires max > 0
      modifies this`input
      ensures old(input) == [] ==> n == -1 && data == [] && input == []
      ensures old(input) != [] ==>
                1 <= n <= max && n <= |old(input)| && data == old(input)[..n] && input == old(input)[n..]
    {
      if input == [] {
        return -1, [];
      }
      var size: nat :| 1 <= size <= max && size <= |input|;
      n, data, input := size, input[..size], input[size..];
    }

    /** The read of a head, which comes in one piece if it comes at all. */
    method RecvWhole(max: nat) returns (n: int, data: seq<byte>)
      requires max > 0
      modifies this`input
      ensures data + input == old(input) && |data| == (if |old(input)| < max then |old(input)| else max)
      ensures n == if data == [] then -1 else |data|
    {
      var size := if |input| < max then |input| else max;
      n, data, input := if size == 0 then -1 else size, input[..size], input[size..];
    }

    method UnpackSocketPkt(data: seq<byte>) returns (ok: bool, head: PktHead)
      ensures ok <==> |data| >= HEAD_LEN
      ensures ok ==> head == ReadHead(little, data)
    {
      head := PktHead(0, 0, 0, 0, 0);
      if |data| < HEAD_LEN {
        return false, head;
      }
      var magic := ReadField(data, 0, 4);
      var moduleId := ReadField(data, 4, 4);
      var seqNum := ReadField(data, 8, 8);
      var flag := ReadField(data, 16, 4);
      var len := ReadField(data, 20, 4);
      head := PktHead(ToSigned(magic, TWO32), ToSigned(moduleId, TWO32), ToSigned(seqNum, TWO64),
        ToSigned(flag, TWO32), len);
      return true, head;
    }

    method ReadField(data: seq<byte>, at: nat, n: nat) returns (v: nat)
      requires at + n <= |data| && n <= 127
      ensures v == Field(little, data, at, n)
    {
      v := ConvertOrder(little, Loaded(little, data[at..at + n]), n);
    }

    method RecvPacketHead() returns (ok: bool, head: PktHead)
      modifies this`input
      ensures ok <==> |old(input)| >= HEAD_LEN
      ensures ok ==> head == ReadHead(little, old(input)) && input == old(input)[HEAD_LEN..]
      ensures !ok ==> input == []
    {
      var n, buf := RecvWhole(HEAD_LEN);
      if n < HEAD_LEN {
        return false, PktHead(0, 0, 0, 0, 0);
      }
      ok, head := UnpackSocketPkt(buf);
      assert old(input) == buf + input;
      SameHead(little, buf, input);
    }

    /** The payload is collected from any number of reads of any positive sizes. */
    method RecvPacketData(len: nat) returns (ok: bool, data: seq<byte>)
      modifies this`input
      ensures ok <==> |old(input)| >= len
      ensures ok ==> data == old(input)[..len] && input == old(input)[len..]
      ensures !ok ==> input == []
    {
      var buf := new byte[len](i => 0);
      var offset := 0;
      while offset < len
        invariant 0 <= offset <= len && offset <= |old(input)| && fresh(buf)
        invariant buf[..offset] == old(input)[..offset] && input == old(input)[offset..]
        decreases len - offset
      {
        var recvLen, piece := Recv(len - offset);
        if recvLen < 0 {
          return false, [];
        }
        ghost var before := buf[..];
        Copy(buf, offset, piece);
        Extend(old(input), buf[..], before, offset, piece);
        offset := offset + recvLen;
      }
      return true, buf[..];
    }

    /** What an event left behind: the rest of the input, and one more packet if one was delivered. */
    twostate predicate Served(event: (Outcome, seq<byte>), ok: bool)
      reads this
    {
      && input == event.1 && ok == event.0.Delivered?
      && delivered == old(delivered) + if ok then [event.0.packet] else []
    }

    method ProcessSocketInEvent() returns (ok: bool)
      modifies this
      ensures Served(InEvent(little, old(input)), ok)
      ensures ok <==> Arrives(old(input))
      ensures delivered == old(delivered) + if ok then [FirstPacket(old(input))] else []
      ensures input == Unread(old(input))
    {
      EventExactly(little, input);
      var gotHead, head := RecvPacketHead();
      if !gotHead {
        return false;
      }
      ok := ProcessBody(head);
    }

    method ProcessBody(head: PktHead) returns (ok: bool)
      modifies this
      ensures Served(AfterHead(head, old(input)), ok)
    {
      if head.len > MAX_DATA_LEN {
        return false;
      }
      if head.magic != ToSigned(MAGIC_NUMBER, TWO32) {
        return false;
      }
      var gotData, data := RecvPacketData(head.len);
      if !gotData {
        return false;
      }
      delivered := delivered + [Packet(head.moduleId, head.seqNum, head.flag, data)];
      return true;
    }

    /** Serving input events until the stream is used up. */
    method ServeAll()
      modifies this
      ensures input == [] && delivered == old(delivered) + Deliver(little, old(input))
    {
      while input != []
        invariant delivered + Deliver(little, input) == old(delivered) + Deliver(little, old(input))
        decreases |input|
      {
        ghost var before, sofar := input, delivered;
        InEventShrinks(little, input);
        var ok := ProcessSocketInEvent();
        DeliverStep(little, before, sofar);
      }
    }
  }

  lemma SameHead(little: bool, buf: seq<byte>, rest: seq<byte>)
    requires |buf| == HEAD_LEN
    ensures ReadHead(little, buf + rest) == ReadHead(little, buf)
  {
    var d := buf + rest;
    assert d[0..4] == buf[0..4] && d[4..8] == buf[4..8] && d[8..16] == buf[8..16] && d[16..20] == buf[16..20] &&
        d[20..24] == buf[20..24];
  }

  lemma Extend(all: seq<byte>, after: seq<byte>, before: seq<byte>, offset: nat, piece: seq<byte>)
    requires offset + |piece| <= |all| && offset + |piece| <= |before| &&
        after == before[..offset] + piece + before[offset + |piece|..]
    requires before[..offset] == all[..offset] && piece == all[offset..][..|piece|]
    ensures after[..offset + |piece|] == all[..offset + |piece|]
    ensures all[offset..][|piece|..] == all[offset + |piece|..]
  {
  }

  lemma Regroup<T>(a: seq<T>, b: seq<T>, c: seq<T>)
    ensures (a + b) + c == a + (b + c)
  {
  }

  lemma DeliverStep(little: bool, input: seq<byte>, sofar: seq<Packet>)
    requires input != []
    ensures var (outcome, rest) := InEvent(little, input);
            (sofar + if outcome.Delivered? then [outcome.packet]
              else []) + Deliver(little, rest) == sofar + Deliver(little, input)
  {
    var (outcome, rest) := InEvent(little, input);
    Regroup(sofar, if outcome.Delivered? then [outcome.packet] else [], Deliver(little, rest));
  }

  // ------------------------------------------------------------------ both ends

  /** The packets that reach the socket. */
  function Posted(ps: seq<Packet>): seq<Packet> {
    if ps == [] then [] else (if Postable(ps[0]) then [ps[0]] else []) + Posted(ps[1..])
  }

  lemma {:induction false} AllowedArePosted(ps: seq<Packet>)
    requires AllAllowed(ps)
    ensures Posted(ps) == ps
  {
    if ps != [] {
      AllowedArePosted(ps[1..]);
      assert ps == [ps[0]] + ps[1..];
    }
  }

  lemma EncodePosted(ps: seq<Packet>)
    requires ps != []
    ensures EncodeAll(Posted(ps)) == (if Postable(ps[0]) then Encode(ps[0]) else []) + EncodeAll(Posted(ps[1..]))
  {
    var rest := Posted(ps[1..]);
    if Postable(ps[0]) {
      assert ([ps[0]] + rest)[1..] == rest;
    } else {
      assert [] + rest == rest;
    }
  }

  lemma EncodeNext(wire: seq<byte>, ps: seq<Packet>, i: nat, bytes: seq<byte>)
    requires i < |ps| && bytes == if Postable(ps[i]) then Encode(ps[i]) else []
    ensures (wire + bytes) + EncodeAll(Posted(ps[i + 1..])) == wire + EncodeAll(Posted(ps[i..]))
  {
    EncodePosted(ps[i..]);
    assert ps[i..][1..] == ps[i + 1..];
    Regroup(wire, bytes, EncodeAll(Posted(ps[i + 1..])));
  }

  method PostAll(little: bool, ps: seq<Packet>) returns (wire: seq<byte>)
    requires forall i :: 0 <= i < |ps| ==> Sendable(ps[i])
    ensures wire == EncodeAll(Posted(ps))
  {
    wire := [];
    var i := 0;
    assert ps[0..] == ps;
    while i < |ps|
      invariant i <= |ps| && wire + EncodeAll(Posted(ps[i..])) == EncodeAll(Posted(ps))
    {
      var sent := SocketPostBytes(little, ps[i]);
      var bytes := if sent.Some? then sent.value else [];
      EncodeNext(wire, ps, i, bytes);
      wire, i := wire + bytes, i + 1;
    }
  }

  lemma TransferExactly(little: bool, ps: seq<Packet>)
    requires forall i :: 0 <= i < |ps| ==> Sendable(ps[i])
    ensures Deliver(little, EncodeAll(Posted(ps))) == ps <==> AllAllowed(ps)
  {
    DeliveredIsAllowed(little, EncodeAll(Posted(ps)));
    if AllAllowed(ps) {
      AllowedArePosted(ps);
      AllowedIsDelivered(little, ps);
    } else {
      var i :| 0 <= i < |ps| && |ps[i].data| > MAX_DATA_LEN;
      assert ps[i] in ps;
    }
  }

  /** Packets posted on a host of one byte order and served on a host of another, with any sizes of
      the reads: they arrive as sent exactly when none is oversized. */
  method Transfer(sender: bool, receiver: bool, ps: seq<Packet>) returns (delivered: seq<Packet>)
    requires forall i :: 0 <= i < |ps| ==> Sendable(ps[i])
    ensures delivered == Deliver(receiver, EncodeAll(Posted(ps)))
    ensures delivered == ps <==> AllAllowed(ps)
  {
    var wire := PostAll(sender, ps);
    var connection := new Connection(receiver, wire);
    connection.ServeAll();
    TransferExactly(receiver, ps);
    delivered := connection.delivered;
  }
}
