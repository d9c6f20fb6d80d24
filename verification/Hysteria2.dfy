/**
 Hysteria2: the variable-length integer of section 16 of RFC 9000, UDP datagrams, and their
 delivery through the reassembly loop. A target is the non-empty text of its address.
 */
module Hysteria2 {
  import opened Wrappers
  import opened Bytes
  import opened Arith
  import opened Fragments

  // ---------- Varints ----------

  function U64Be(n: nat): (b: bytes)
    requires n < 0x1_0000_0000_0000_0000
    ensures |b| == 8
  {
    U32Be(n / 0x1_0000_0000) + U32Be(n % 0x1_0000_0000)
  }

  /** The shortest of 1, 2, 4 and 8 bytes, the length in the top two bits. */
  function EncodeVarint(v: nat): Result<bytes, ErrorKind> {
    if v < 0x40 then Ok([v])
    else if v < 0x4000 then Ok(U16Be(v + 0x4000))
    else if v < 0x4000_0000 then Ok(U32Be(v + 0x8000_0000))
    else if v < 0x4000_0000_0000_0000 then Ok(U64Be(v + 0xc000_0000_0000_0000))
    else Err(InvalidInput)
  }

  datatype Varint = Varint(value: nat, next: nat)

  function Extra(first: byte): nat {
    if first < 0x40 then 0 else if first < 0x80 then 1 else if first < 0xc0 then 3 else 7
  }

  /** Big-endian accumulation of `count` further bytes. */
  function Fold(input: bytes, offset: nat, count: nat, value: nat): nat
    requires offset + count <= |input|
    decreases count
  {
    if count == 0 then value else Fold(input, offset + 1, count - 1, value * 256 + input[offset])
  }

  function VarintAt(input: bytes, offset: nat): (r: Result<Varint, ErrorKind>)
    ensures r.Ok? ==> offset < r.value.next <= |input|
  {
    if offset >= |input| then Err(UnexpectedEof)
    else
      var extra := Extra(input[offset]);
      if |input| - (offset + 1) < extra then Err(UnexpectedEof)
      else Ok(Varint(Fold(input, offset + 1, extra, input[offset] % 64), offset + 1 + extra))
  }

  method ReadVarintFrom(input: bytes, offset: nat) returns (r: Result<Varint, ErrorKind>)
    ensures r == VarintAt(input, offset)
  {
    if offset >= |input| {
      return Err(UnexpectedEof);
    }
    var first, at := input[offset], offset + 1;
    var value: nat, extra := first % 64, Extra(first);
    if |input| - at < extra {
      return Err(UnexpectedEof);
    }
    for i := 0 to extra
      invariant at == offset + 1 + i
      invariant Fold(input, at, extra - i, value) == Fold(input, offset + 1, extra, first % 64)
    {
      value := value * 256 + input[at];
      at := at + 1;
    }
    return Ok(Varint(value, at));
  }

  lemma Fold3(input: bytes, offset: nat, more: nat, value: nat)
    requires offset + 3 + more <= |input|
    ensures Fold(input, offset, 3 + more, value)
         == Fold(input, offset + 3, more,
                 ((value * 256 + input[offset]) * 256 + input[offset + 1]) * 256 + input[offset + 2])
  {
    var v1 := value * 256 + input[offset];
    var v2 := v1 * 256 + input[offset + 1];
    assert Fold(input, offset, 3 + more, value) == Fold(input, offset + 1, 2 + more, v1);
    assert Fold(input, offset + 1, 2 + more, v1) == Fold(input, offset + 2, 1 + more, v2);
  }

  /** A 32-bit word whose top two bits are `tag`: dropping them leaves the low 30 bits. */
  lemma TaggedWord(tag: nat, w: nat)
    requires tag < 4 && w < 0x4000_0000
    ensures var b := U32Be(tag * 0x4000_0000 + w);
            && tag * 64 <= b[0] < tag * 64 + 64
            && (((b[0] % 64) as int * 256 + b[1]) * 256 + b[2]) * 256 + b[3] == w
  {
    var n := tag * 0x4000_0000 + w;
    var b := U32Be(n);
    U32RoundTrip(n);
    assert b[0] == n / 0x100_0000;
    assert tag * 64 <= b[0] < tag * 64 + 64;
    DivUnique(b[0], 64, tag, b[0] - tag * 64);
  }

  lemma ReadsFour(input: bytes, offset: nat, w: nat)
    requires w < 0x4000_0000 && At(input, offset, U32Be(0x8000_0000 + w))
    ensures VarintAt(input, offset) == Ok(Varint(w, offset + 4))
  {
    hide U32Be;
    var b := U32Be(2 * 0x4000_0000 + w);
    TaggedWord(2, w);
    WordAt(input, offset, 0x8000_0000 + w);
    Fold3(input, offset + 1, 0, b[0] % 64);
  }

  lemma WordAt(input: bytes, offset: nat, n: u32)
    requires At(input, offset, U32Be(n))
    ensures var b := U32Be(n);
            && |b| == 4 && offset + 4 <= |input|
            && input[offset] == b[0] && input[offset + 1] == b[1]
            && input[offset + 2] == b[2] && input[offset + 3] == b[3]
  {
    var b := U32Be(n);
    AtIndex(input, offset, b, 0);
    AtIndex(input, offset, b, 1);
    AtIndex(input, offset, b, 2);
    AtIndex(input, offset, b, 3);
  }

  lemma ReadsEight(input: bytes, offset: nat, hi: nat, lo: u32)
    requires hi < 0x4000_0000
    requires At(input, offset, U32Be(0xc000_0000 + hi)) && At(input, offset + 4, U32Be(lo))
    ensures VarintAt(input, offset) == Ok(Varint(hi * 0x1_0000_0000 + lo, offset + 8))
  {
    hide U32Be, ReadU32;
    var b, c := U32Be(3 * 0x4000_0000 + hi), U32Be(lo);
    TaggedWord(3, hi);
    WordAt(input, offset, 0xc000_0000 + hi);
    WordAt(input, offset + 4, lo);
    Fold3(input, offset + 1, 4, b[0] % 64);
    assert Fold(input, offset + 4, 4, hi) == Fold(input, offset + 5, 3, hi * 256 + c[0]);
    Fold3(input, offset + 5, 0, hi * 256 + c[0]);
    LowWord(hi, lo);
  }

  lemma LowWord(hi: nat, lo: u32)
    ensures var c := U32Be(lo);
            (((hi * 256 + c[0]) * 256 + c[1]) * 256 + c[2]) * 256 + c[3] == hi * 0x1_0000_0000 + lo
  {
    U32RoundTrip(lo);
  }

  /** Values below 2^62 are read back, wherever they stand, with exactly their bytes consumed. */
  lemma VarintRoundTrip(input: bytes, offset: nat, v: nat)
    requires v < 0x4000_0000_0000_0000 && At(input, offset, EncodeVarint(v).value)
    ensures VarintAt(input, offset) == Ok(Varint(v, offset + |EncodeVarint(v).value|))
  {
    hide U32Be;
    var b := EncodeVarint(v).value;
    if v < 0x4000 {
      AtIndex(input, offset, b, 0);
      if v >= 0x40 {
        AtIndex(input, offset, b, 1);
      }
    } else if v < 0x4000_0000 {
      WordAt(input, offset, v + 0x8000_0000);
      ReadsFour(input, offset, v);
    } else {
      var hi, lo := v / 0x1_0000_0000, v % 0x1_0000_0000;
      DivUnique(v + 0xc000_0000_0000_0000, 0x1_0000_0000, hi + 0xc000_0000, lo);
      AtSplit(input, offset, U32Be(0xc000_0000 + hi), U32Be(lo));
      WordAt(input, offset, 0xc000_0000 + hi);
      ReadsEight(input, offset, hi, lo);
    }
  }

  lemma {:induction false} FoldBound(input: bytes, offset: nat, count: nat, value: nat, bound: nat)
    requires offset + count <= |input| && value < bound
    ensures Fold(input, offset, count, value) < bound * Pow256(count)
    decreases count
  {
    if count > 0 {
      FoldBound(input, offset + 1, count - 1, value * 256 + input[offset], bound * 256);
      assert bound * 256 * Pow256(count - 1) == bound * Pow256(count);
    }
  }

  function Pow256(n: nat): nat {
    if n == 0 then 1 else 256 * Pow256(n - 1)
  }

  /** The encoding is the shortest: no byte string that reads as v is shorter. */
  lemma VarintIsShortest(input: bytes, offset: nat)
    requires VarintAt(input, offset).Ok?
    ensures var r := VarintAt(input, offset).value;
            r.value < 0x4000_0000_0000_0000 && |EncodeVarint(r.value).value| <= r.next - offset
  {
    hide U32Be;
    var extra := Extra(input[offset]);
    FoldBound(input, offset + 1, extra, input[offset] % 64, 64);
    assert Pow256(1) == 256 && Pow256(3) == 0x100_0000 && Pow256(7) == 0x100_0000_0000_0000;
    EncodedLength(VarintAt(input, offset).value.value);
  }

  lemma EncodedLength(v: nat)
    ensures v < 0x4000_0000_0000_0000 ==>
              |EncodeVarint(v).value| == if v < 0x40 then 1 else if v < 0x4000 then 2
                                         else if v < 0x4000_0000 then 4 else 8
  {
  }

  // ---------- Datagrams ----------

  type Text = t: bytes | 1 <= |t| < 0x4000_0000_0000_0000 witness [0]

  function AddressBytes(address: Text): bytes {
    EncodeVarint(|address|).value + address
  }

  function HeaderBytes(f: Fragment): (h: bytes)
    ensures |h| == 8
  {
    U32Be(f.session) + U16Be(f.packetId) + [f.index, f.total]
  }

  function DatagramBytes(f: Fragment, address: Text): bytes {
    HeaderBytes(f) + (AddressBytes(address) + f.data)
  }

  function ParseDatagram(input: bytes): (r: Result<Fragment, ErrorKind>)
    ensures r.Ok? ==> r.value.index < r.value.total
  {
    if |input| < 8 then Err(InvalidData)
    else if input[7] == 0 || input[6] >= input[7] then Err(InvalidData)
    else
      match VarintAt(input, 8)
      case Err(e) => Err(e)
      case Ok(len) =>
        if len.value == 0 || |input| - len.next < len.value then Err(InvalidData)
        else
          Ok(Fragment(ReadU32(input[0], input[1], input[2], input[3]), ReadU16(input[4], input[5]),
                      input[7], input[6], input[len.next + len.value..]))
  }

  lemma HeaderIsRead(input: bytes, f: Fragment)
    requires At(input, 0, HeaderBytes(f))
    ensures |input| >= 8 && ReadU32(input[0], input[1], input[2], input[3]) == f.session
    ensures ReadU16(input[4], input[5]) == f.packetId && input[6] == f.index && input[7] == f.total
  {
    var h := HeaderBytes(f);
    U32RoundTrip(f.session);
    assert forall i | 0 <= i < 8 :: input[i] == h[i] by {
      assert forall i | 0 <= i < 8 :: input[0..8][i] == input[i];
    }
  }

  /** What the sender builds, the parser reads back. */
  lemma DatagramRoundTrip(f: Fragment, address: Text)
    requires f.index < f.total
    ensures ParseDatagram(DatagramBytes(f, address)) == Ok(f)
  {
    hide HeaderBytes, U32Be, VarintAt, ReadU32, ReadU16;
    var input := DatagramBytes(f, address);
    assert At(input, 0, HeaderBytes(f) + (AddressBytes(address) + f.data)) by {
      assert input[0..|input|] == input;
    }
    AtSplit(input, 0, HeaderBytes(f), AddressBytes(address) + f.data);
    HeaderIsRead(input, f);
    AtSplit(input, 8, AddressBytes(address), f.data);
    var len := EncodeVarint(|address|).value;
    AtSplit(input, 8, len, address);
    VarintRoundTrip(input, 8, |address|);
    assert input[8 + |len| + |address|..] == f.data;
  }

  // ---------- Delivery ----------

  /** One payload as `send_hy2_udp_datagrams` cuts it: pieces of what the header leaves free. */
  datatype Send = Send(address: Text, payload: bytes, maxSize: nat)

  function MaxPayload(s: Send): nat {
    var header := 8 + |AddressBytes(s.address)|;
    if s.maxSize < header then 0 else s.maxSize - header
  }

  ghost predicate Fits(s: Send) {
    MaxPayload(s) >= 1 && 1 <= FragmentCount(|s.payload|, MaxPayload(s)) <= 255
  }

  function Datagram(session: u32, packetId: u16, s: Send, i: nat): bytes
    requires MaxPayload(s) >= 1 && i < |Chunks(s.payload, MaxPayload(s))| <= 255
  {
    DatagramBytes(FragmentOf(session, packetId, Sent(s.payload, MaxPayload(s)), i), s.address)
  }

  /** All fragments leave, each within the datagram limit, exactly when the payload fits. */
  method SendUdpDatagrams(maxSize: Option<nat>, session: u32, packetId: u16, address: Text, payload: bytes)
    returns (sent: seq<bytes>, r: Result<(), ErrorKind>)
    ensures maxSize.None? ==> r == Err(Unsupported) && sent == []
    ensures maxSize.Some? ==>
              var s := Send(address, payload, maxSize.value);
              && (Fits(s) ==> r.Ok? && Leaves(sent, |Chunks(payload, MaxPayload(s))|, session, packetId, s))
              && (!Fits(s) ==> r == Err(InvalidInput) && sent == [])
  {
    hide FragmentCount, Chunks, AddressBytes, MaxPayload, Datagram;
    sent := [];
    if maxSize.None? {
      return sent, Err(Unsupported);
    }
    var s := Send(address, payload, maxSize.value);
    var maxPayload := MaxPayload(s);
    if maxPayload == 0 {
      return sent, Err(InvalidInput);
    }
    var count := FragmentCount(|payload|, maxPayload);
    if count == 0 || count > 255 {
      return sent, Err(InvalidInput);
    }
    ChunksSplit(payload, maxPayload);
    var chunks := Chunks(payload, maxPayload);
    for i := 0 to count
      invariant Leaves(sent, i, session, packetId, s)
    {
      LeavesNext(sent, i, session, packetId, s);
      var datagram := DatagramBytes(Fragment(session, packetId, count, i, chunks[i]), address);
      sent := sent + [datagram];
    }
    return sent, Ok(());
  }

  ghost predicate Leaves(sent: seq<bytes>, n: nat, session: u32, packetId: u16, s: Send) {
    && |sent| == n && MaxPayload(s) >= 1
    && n <= |Chunks(s.payload, MaxPayload(s))| <= 255
    && forall i | 0 <= i < n :: sent[i] == Datagram(session, packetId, s, i) && |sent[i]| <= s.maxSize
  }

  lemma LeavesNext(sent: seq<bytes>, i: nat, session: u32, packetId: u16, s: Send)
    requires Leaves(sent, i, session, packetId, s) && i < |Chunks(s.payload, MaxPayload(s))|
    ensures Leaves(sent + [Datagram(session, packetId, s, i)], i + 1, session, packetId, s)
    ensures Datagram(session, packetId, s, i)
         == DatagramBytes(Fragment(session, packetId, |Chunks(s.payload, MaxPayload(s))|, i,
                                   Chunks(s.payload, MaxPayload(s))[i]), s.address)
  {
    hide AddressBytes, HeaderBytes, Chunks;
    ChunksSplit(s.payload, MaxPayload(s));
  }

  /** What left for a packet reads back as its fragments. */
  lemma LeavesCarries(sent: seq<bytes>, session: u32, packetId: u16, s: Send)
    requires Fits(s) && Leaves(sent, |Chunks(s.payload, MaxPayload(s))|, session, packetId, s)
    ensures Carries(ParseDatagram, session, packetId, Flight(Sent(s.payload, MaxPayload(s)), sent))
  {
    hide ParseDatagram, DatagramBytes, MaxPayload, Chunks, FragmentCount;
    ChunksSplit(s.payload, MaxPayload(s));
    forall i | 0 <= i < |sent|
      ensures ParseDatagram(sent[i]) == Ok(FragmentOf(session, packetId, Sent(s.payload, MaxPayload(s)), i))
    {
      DatagramRoundTrip(FragmentOf(session, packetId, Sent(s.payload, MaxPayload(s)), i), s.address);
    }
  }

  /** The packets that were sent: each fits, and its datagrams are those the sender produced. */
  ghost predicate Sends(session: u32, sends: map<u16, Send>, flights: map<u16, Flight>) {
    sends.Keys == flights.Keys && forall id | id in sends ::
      && Fits(sends[id])
      && flights[id].sent == Sent(sends[id].payload, MaxPayload(sends[id]))
      && Leaves(flights[id].datagrams, |Chunks(sends[id].payload, MaxPayload(sends[id]))|, session, id, sends[id])
  }

  /** Sending and then receiving is the identity, for this wire format. */
  lemma DeliveryIsIdentity(session: u32, sends: map<u16, Send>, flights: map<u16, Flight>, received: seq<bytes>)
    requires Sends(session, sends, flights) && AllExpected(ParseDatagram, session, flights, received)
    ensures match Collect(Parsed(ParseDatagram, received), session)
            case Failed(_) => false
            case Waiting(_) => forall id | id in flights :: !Landed(flights[id], received)
            case Returned(p) =>
              exists id :: id in sends && Landed(flights[id], received) && p == sends[id].payload
  {
    hide ParseDatagram, Fits, Leaves, Collect, Parsed, MaxPayload, Chunks, AllExpected, Carries, Landed;
    forall id | id in flights ensures Carries(ParseDatagram, session, id, flights[id]) {
      LeavesCarries(flights[id].datagrams, session, id, sends[id]);
    }
    DeliveryExact(ParseDatagram, session, flights, received);
  }
}
