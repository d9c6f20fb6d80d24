/** TUIC UDP datagrams: the fragment header, and delivery through the reassembly loop. */
module Tuic {
  import opened Wrappers
  import opened Bytes
  import opened Fragments

  const TUIC_VERSION: byte := 0x05
  const TUIC_COMMAND_PACKET: byte := 0x02
  const TUIC_ATYP_DOMAIN: byte := 0x00
  const TUIC_ATYP_IPV4: byte := 0x01
  const TUIC_ATYP_IPV6: byte := 0x02
  const TUIC_ATYP_NONE: byte := 0xff

  datatype Socket = SocketV4(ip4: Ip4, port: u16) | SocketV6(ip6: Ip6, port: u16)

  type Ip4 = b: bytes | |b| == 4 witness [0, 0, 0, 0]

  type Ip6 = b: bytes | |b| == 16 witness [0, 0, 0, 0, 0, 0, 0, 0, 0, 0, 0, 0, 0, 0, 0, 0]

  function AddressBytes(target: Option<Socket>): (b: bytes)
    ensures 1 <= |b| <= 19
  {
    match target
    case None => [TUIC_ATYP_NONE]
    case Some(SocketV4(ip, port)) => [TUIC_ATYP_IPV4] + ip + U16Be(port)
    case Some(SocketV6(ip, port)) => [TUIC_ATYP_IPV6] + ip + U16Be(port)
  }

  function HeaderBytes(f: Fragment): (h: bytes)
    requires f.session < 0x1_0000 && |f.data| < 0x1_0000
    ensures |h| == 10
  {
    [TUIC_VERSION, TUIC_COMMAND_PACKET] + U16Be(f.session) + U16Be(f.packetId)
    + [f.total, f.index] + U16Be(|f.data|)
  }

  function PacketFragment(f: Fragment, target: Option<Socket>): Result<bytes, ErrorKind>
    requires f.session < 0x1_0000
  {
    if |f.data| > 0xffff then Err(InvalidInput)
    else Ok(HeaderBytes(f) + AddressBytes(target) + f.data)
  }

  // ---------- Parsing ----------

  function SkipPort(input: bytes, offset: nat): Result<nat, ErrorKind> {
    if |input| < offset + 2 then Err(UnexpectedEof) else Ok(offset + 2)
  }

  function SkipAddress(input: bytes, offset: nat): (r: Result<nat, ErrorKind>)
    ensures r.Ok? ==> offset < r.value <= |input|
  {
    if offset >= |input| then Err(UnexpectedEof)
    else if input[offset] == TUIC_ATYP_NONE then Ok(offset + 1)
    else if input[offset] == TUIC_ATYP_IPV4 then SkipPort(input, offset + 5)
    else if input[offset] == TUIC_ATYP_IPV6 then SkipPort(input, offset + 17)
    else if input[offset] == TUIC_ATYP_DOMAIN then
      if offset + 1 >= |input| then Err(UnexpectedEof)
      else SkipPort(input, offset + 2 + input[offset + 1])
    else Err(InvalidData)
  }

  function ParsePacket(input: bytes): (r: Result<Fragment, ErrorKind>)
    ensures r.Ok? ==> r.value.index < r.value.total
  {
    if |input| < 10 || input[0] != TUIC_VERSION || input[1] != TUIC_COMMAND_PACKET then Err(InvalidData)
    else if input[6] == 0 || input[7] >= input[6] then Err(InvalidData)
    else
      match SkipAddress(input, 10)
      case Err(e) => Err(e)
      case Ok(offset) =>
        if |input| - offset != ReadU16(input[8], input[9]) then Err(InvalidData)
        else
          Ok(Fragment(ReadU16(input[2], input[3]), ReadU16(input[4], input[5]), input[6], input[7],
                      input[offset..]))
  }

  lemma AddressIsSkipped(input: bytes, offset: nat, target: Option<Socket>)
    requires At(input, offset, AddressBytes(target))
    ensures SkipAddress(input, offset) == Ok(offset + |AddressBytes(target)|)
  {
    AtIndex(input, offset, AddressBytes(target), 0);
  }

  /** What the sender builds, the parser reads back. */
  lemma PacketRoundTrip(f: Fragment, target: Option<Socket>)
    requires f.session < 0x1_0000 && f.index < f.total && |f.data| <= 0xffff
    ensures ParsePacket(PacketFragment(f, target).value) == Ok(f)
  {
    var h, a := HeaderBytes(f), AddressBytes(target);
    var input := h + a + f.data;
    assert forall i | 0 <= i < 10 :: input[i] == h[i];
    assert input[10..10 + |a|] == a;
    AddressIsSkipped(input, 10, target);
    assert input[10 + |a|..] == f.data;
  }

  // ---------- Sending ----------

  datatype Send = Send(target: Option<Socket>, payload: bytes, maxSize: nat)

  function MaxPayload(s: Send): nat {
    var header := 10 + |AddressBytes(s.target)|;
    if s.maxSize < header then 0 else s.maxSize - header
  }

  /** The sender accepts a payload of 1 to 255 pieces, each with a 16-bit length. */
  ghost predicate Fits(s: Send) {
    && MaxPayload(s) >= 1
    && 1 <= FragmentCount(|s.payload|, MaxPayload(s)) <= 255
    && (|s.payload| <= 0xffff || MaxPayload(s) <= 0xffff)
  }

  /** Fragment i as it leaves. */
  function Datagram(assoc: u16, packetId: u16, s: Send, i: nat): bytes
    requires MaxPayload(s) >= 1 && i < |Chunks(s.payload, MaxPayload(s))| <= 255
    requires |Chunks(s.payload, MaxPayload(s))[i]| <= 0xffff
  {
    PacketFragment(FragmentOf(assoc, packetId, Sent(s.payload, MaxPayload(s)), i), s.target).value
  }

  lemma FirstChunk(payload: bytes, size: nat)
    requires size >= 1 && payload != []
    ensures |Chunks(payload, size)| >= 1
    ensures |Chunks(payload, size)[0]| == if |payload| < size then |payload| else size
  {
  }

  /** These are the first `n` fragments of the packet, each within the datagram limit. */
  ghost predicate Leaves(sent: seq<bytes>, n: nat, assoc: u16, packetId: u16, s: Send) {
    && |sent| == n && MaxPayload(s) >= 1
    && n <= |Chunks(s.payload, MaxPayload(s))| <= 255
    && forall i | 0 <= i < n ::
         && |Chunks(s.payload, MaxPayload(s))[i]| <= 0xffff
         && sent[i] == Datagram(assoc, packetId, s, i)
         && |sent[i]| <= s.maxSize
  }

  lemma LeavesNext(sent: seq<bytes>, i: nat, assoc: u16, packetId: u16, s: Send)
    requires Leaves(sent, i, assoc, packetId, s)
    requires i < |Chunks(s.payload, MaxPayload(s))| && |Chunks(s.payload, MaxPayload(s))[i]| <= 0xffff
    ensures Leaves(sent + [Datagram(assoc, packetId, s, i)], i + 1, assoc, packetId, s)
  {
    hide AddressBytes, HeaderBytes, Chunks;
    ChunksSplit(s.payload, MaxPayload(s));
  }

  /** All fragments leave when the payload fits, and none when it does not. */
  method SendUdpDatagrams(maxSize: Option<nat>, assoc: u16, packetId: u16, target: Option<Socket>, payload: bytes)
    returns (sent: seq<bytes>, r: Result<(), ErrorKind>)
    ensures maxSize.None? ==> r == Err(Unsupported) && sent == []
    ensures maxSize.Some? ==>
              var s := Send(target, payload, maxSize.value);
              && (Fits(s) ==> r.Ok? && Leaves(sent, |Chunks(payload, MaxPayload(s))|, assoc, packetId, s))
              && (!Fits(s) ==> r == Err(InvalidInput) && sent == [])
  {
    hide FragmentCount, Chunks, AddressBytes, HeaderBytes, MaxPayload;
    sent := [];
    if maxSize.None? {
      return sent, Err(Unsupported);
    }
    var s := Send(target, payload, maxSize.value);
    var maxPayload := MaxPayload(s);
    if maxPayload == 0 {
      return sent, Err(InvalidInput);
    }
    var count := FragmentCount(|payload|, maxPayload);
    if count == 0 || count > 255 {
      return sent, Err(InvalidInput);
    }
    var chunks := Chunks(payload, maxPayload);
    ChunksSplit(payload, maxPayload);
    assert payload != [] by {
      if payload == [] { ChunksOfNothing(maxPayload); }
    }
    FirstChunk(payload, maxPayload);
    for i := 0 to count
      invariant Leaves(sent, i, assoc, packetId, s)
      invariant i > 0 ==> |chunks[0]| <= 0xffff
    {
      var datagram := PacketFragment(Fragment(assoc, packetId, count, i, chunks[i]), target);
      if datagram.Err? {
        return sent, Err(datagram.error);
      }
      LeavesNext(sent, i, assoc, packetId, s);
      sent := sent + [datagram.value];
    }
    assert |chunks[0]| <= 0xffff;
    return sent, Ok(());
  }

  lemma ChunksOfNothing(size: nat)
    requires size >= 1
    ensures Chunks([], size) == []
  {
  }

  // ---------- Delivery ----------

  /** What left for a packet reads back as its fragments. */
  lemma LeavesCarries(sent: seq<bytes>, assoc: u16, packetId: u16, s: Send)
    requires Fits(s) && Leaves(sent, |Chunks(s.payload, MaxPayload(s))|, assoc, packetId, s)
    ensures Carries(ParsePacket, assoc, packetId, Flight(Sent(s.payload, MaxPayload(s)), sent))
  {
    hide ParsePacket, HeaderBytes, AddressBytes, MaxPayload, Chunks, FragmentCount;
    ChunksSplit(s.payload, MaxPayload(s));
    forall i | 0 <= i < |sent|
      ensures ParsePacket(sent[i]) == Ok(FragmentOf(assoc, packetId, Sent(s.payload, MaxPayload(s)), i))
    {
      PacketRoundTrip(FragmentOf(assoc, packetId, Sent(s.payload, MaxPayload(s)), i), s.target);
    }
  }

  /** The packets that were sent: each fits, and its datagrams are those the sender produced. */
  ghost predicate Sends(assoc: u16, sends: map<u16, Send>, flights: map<u16, Flight>) {
    sends.Keys == flights.Keys && forall id | id in sends ::
      && Fits(sends[id])
      && flights[id].sent == Sent(sends[id].payload, MaxPayload(sends[id]))
      && Leaves(flights[id].datagrams, |Chunks(sends[id].payload, MaxPayload(sends[id]))|, assoc, id, sends[id])
  }

  /**
   Sending and then receiving is the identity: over any delivery of what the sender produced,
   a payload is returned exactly when all datagrams of some packet have arrived, and it is one
   that was sent.
   */
  lemma DeliveryIsIdentity(assoc: u16, sends: map<u16, Send>, flights: map<u16, Flight>, received: seq<bytes>)
    requires Sends(assoc, sends, flights) && AllExpected(ParsePacket, assoc, flights, received)
    ensures match Collect(Parsed(ParsePacket, received), assoc)
            case Failed(_) => false
            case Waiting(_) => forall id | id in flights :: !Landed(flights[id], received)
            case Returned(p) =>
              exists id :: id in sends && Landed(flights[id], received) && p == sends[id].payload
  {
    hide ParsePacket, Fits, Leaves, Collect, Parsed, MaxPayload, Chunks, AllExpected, Carries, Landed;
    forall id | id in flights ensures Carries(ParsePacket, assoc, id, flights[id]) {
      LeavesCarries(flights[id].datagrams, assoc, id, sends[id]);
    }
    DeliveryExact(ParsePacket, assoc, flights, received);
  }
}
