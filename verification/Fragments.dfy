/**
 Splitting a payload into numbered datagrams and putting it together again, as the TUIC and
 Hysteria2 clients do. Their wire formats are in `Tuic` and `Hysteria2`.
 */
module Fragments {
  import opened Wrappers
  import opened Bytes
  import opened Arith

  datatype Fragment = Fragment(session: u32, packetId: u16, total: byte, index: byte, data: bytes)

  // ---------- Splitting ----------

  /** Pieces of `size` bytes, the last one possibly shorter. */
  function Chunks(payload: bytes, size: nat): seq<bytes>
    requires size >= 1
  {
    if payload == [] then []
    else if |payload| <= size then [payload]
    else [payload[..size]] + Chunks(payload[size..], size)
  }

  function FragmentCount(len: nat, size: nat): nat
    requires size >= 1
  {
    (len + size - 1) / size
  }

  lemma {:induction false} ChunksSplit(payload: bytes, size: nat)
    requires size >= 1
    ensures Concat(Chunks(payload, size)) == payload
    ensures |Chunks(payload, size)| == FragmentCount(|payload|, size)
    ensures forall i | 0 <= i < |Chunks(payload, size)| ::
              1 <= |Chunks(payload, size)[i]| <= size && |Chunks(payload, size)[i]| <= |payload|
    decreases |payload|
  {
    hide FragmentCount;
    if payload == [] {
      CountIs(0, 0, size);
    } else if |payload| <= size {
      CountIs(|payload|, 1, size);
      assert Concat([payload]) == payload;
    } else {
      ChunksSplit(payload[size..], size);
      CountStep(|payload| - size, size);
      assert payload == payload[..size] + payload[size..];
    }
  }

  lemma CountIs(len: nat, q: nat, size: nat)
    requires size >= 1 && (q == 0 ==> len == 0) && (q == 1 ==> 1 <= len <= size) && q <= 1
    ensures FragmentCount(len, size) == q
  {
  }

  lemma CountStep(len: nat, size: nat)
    requires size >= 1
    ensures FragmentCount(len + size, size) == FragmentCount(len, size) + 1
  {
    DivAdd(len + size - 1, 1, size);
  }

  /** A payload the sender accepted: it needs 1 to 255 pieces of at most `size` bytes. */
  datatype Sent = Sent(payload: bytes, size: nat)

  ghost predicate Sendable(s: Sent) {
    s.size >= 1 && 1 <= |Chunks(s.payload, s.size)| <= 255
  }

  function FragmentOf(session: u32, packetId: u16, s: Sent, i: nat): Fragment
    requires s.size >= 1 && i < |Chunks(s.payload, s.size)| <= 255
  {
    Fragment(session, packetId, |Chunks(s.payload, s.size)|, i, Chunks(s.payload, s.size)[i])
  }

  // ---------- Reassembly ----------

  type Parts = seq<Option<bytes>>

  function NoParts(n: nat): Parts {
    seq(n, _ => None)
  }

  predicate Complete(parts: Parts) {
    forall i | 0 <= i < |parts| :: parts[i].Some?
  }

  function Assemble(parts: Parts): bytes
    requires Complete(parts)
  {
    if parts == [] then [] else parts[0].value + Assemble(parts[1..])
  }

  type Table = map<u16, Parts>

  datatype Outcome = Waiting(table: Table) | Returned(payload: bytes) | Failed(kind: ErrorKind)

  function Accept(t: Table, session: u32, f: Fragment): Outcome {
    if f.session != session then Waiting(t)
    else if f.total == 1 then Returned(f.data)
    else
      var parts := if f.packetId in t then t[f.packetId] else NoParts(f.total);
      if |parts| != f.total || f.index >= f.total then Failed(InvalidData)
      else
        var filled := parts[f.index := Some(f.data)];
        if Complete(filled) then Returned(Assemble(filled)) else Waiting(t[f.packetId := filled])
  }

  /** Parsed datagrams are taken in until a payload is complete or one of them is bad. */
  function Collect(items: seq<Result<Fragment, ErrorKind>>, session: u32): Outcome {
    if items == [] then Waiting(map[])
    else
      match Collect(items[..|items| - 1], session)
      case Returned(p) => Returned(p)
      case Failed(e) => Failed(e)
      case Waiting(t) =>
        match items[|items| - 1]
        case Err(e) => Failed(e)
        case Ok(f) => Accept(t, session, f)
  }

  method AssembleParts(parts: Parts) returns (payload: bytes)
    requires Complete(parts)
    ensures payload == Assemble(parts)
  {
    payload := [];
    for k := 0 to |parts|
      invariant payload + Assemble(parts[k..]) == Assemble(parts)
    {
      assert parts[k..][1..] == parts[k + 1..];
      payload := payload + parts[k].value;
    }
  }

  /** One datagram. A parser never lets an index through that is not below the total. */
  method AcceptFragment(fragments: Table, session: u32, packet: Fragment) returns (r: Outcome)
    requires packet.index < packet.total
    ensures r == Accept(fragments, session, packet)
  {
    if packet.session != session {
      return Waiting(fragments);
    }
    if packet.total == 1 {
      return Returned(packet.data);
    }
    var parts := if packet.packetId in fragments then fragments[packet.packetId] else NoParts(packet.total);
    if |parts| != packet.total {
      return Failed(InvalidData);
    }
    parts := parts[packet.index := Some(packet.data)];
    if Complete(parts) {
      var payload := AssembleParts(parts);
      return Returned(payload);
    }
    return Waiting(fragments[packet.packetId := parts]);
  }

  method ReadResponsePayload(items: seq<Result<Fragment, ErrorKind>>, session: u32) returns (r: Outcome)
    requires forall i | 0 <= i < |items| && items[i].Ok? :: items[i].value.index < items[i].value.total
    ensures r == Collect(items, session)
  {
    hide Accept;
    var fragments: Table := map[];
    for n := 0 to |items|
      invariant Collect(items[..n], session) == Waiting(fragments)
    {
      assert items[..n + 1][..n] == items[..n];
      if items[n].Err? {
        StopsHere(items, n + 1, session);
        return Failed(items[n].error);
      }
      r := AcceptFragment(fragments, session, items[n].value);
      if !r.Waiting? {
        StopsHere(items, n + 1, session);
        return r;
      }
      fragments := r.table;
    }
    assert items[..|items|] == items;
    return Waiting(fragments);
  }

  lemma {:induction false} StopsHere(items: seq<Result<Fragment, ErrorKind>>, n: nat, session: u32)
    requires n <= |items| && !Collect(items[..n], session).Waiting?
    ensures Collect(items, session) == Collect(items[..n], session)
    decreases |items| - n
  {
    if n == |items| {
      assert items[..n] == items;
    } else {
      assert items[..n + 1][..n] == items[..n];
      StopsHere(items, n + 1, session);
    }
  }

  // ---------- Any delivery of sent fragments ----------

  /** A datagram of another session, or one of ours. */
  ghost predicate Genuine(item: Result<Fragment, ErrorKind>, session: u32, sent: map<u16, Sent>) {
    item.Ok? && (item.value.session == session ==>
      && item.value.packetId in sent
      && Sendable(sent[item.value.packetId])
      && item.value.index < |Chunks(sent[item.value.packetId].payload, sent[item.value.packetId].size)|
      && item.value == FragmentOf(session, item.value.packetId, sent[item.value.packetId], item.value.index))
  }

  /** The parts held are pieces of what was sent, each in its place. */
  ghost predicate Pieces(parts: Parts, chunks: seq<bytes>) {
    && |parts| == |chunks|
    && forall i | 0 <= i < |parts| && parts[i].Some? :: parts[i].value == chunks[i]
  }

  lemma {:induction false} AssembledIsWhole(parts: Parts, chunks: seq<bytes>)
    requires Complete(parts) && Pieces(parts, chunks)
    ensures Assemble(parts) == Concat(chunks)
    decreases |parts|
  {
    if parts != [] {
      AssembledIsWhole(parts[1..], chunks[1..]);
    }
  }

  ghost predicate TableInv(t: Table, sent: map<u16, Sent>) {
    forall id | id in t ::
      && id in sent && Sendable(sent[id]) && !Complete(t[id])
      && Pieces(t[id], Chunks(sent[id].payload, sent[id].size))
  }

  lemma AcceptGenuine(t: Table, session: u32, sent: map<u16, Sent>, f: Fragment)
    requires TableInv(t, sent) && Genuine(Ok(f), session, sent)
    ensures match Accept(t, session, f)
            case Failed(_) => false
            case Waiting(t') => TableInv(t', sent)
            case Returned(p) => f.session == session && p == sent[f.packetId].payload
  {
    if f.session == session {
      var s := sent[f.packetId];
      var chunks := Chunks(s.payload, s.size);
      ChunksSplit(s.payload, s.size);
      if f.total == 1 {
        assert chunks == [chunks[0]];
        assert Concat(chunks) == chunks[0] + Concat(chunks[1..]) == chunks[0];
      } else {
        var parts := if f.packetId in t then t[f.packetId] else NoParts(f.total);
        assert Pieces(parts, chunks);
        var filled := parts[f.index := Some(f.data)];
        assert Pieces(filled, chunks);
        if Complete(filled) {
          AssembledIsWhole(filled, chunks);
        }
      }
    }
  }

  /** Fragment i of packet id is among the items. */
  ghost predicate Arrived(items: seq<Result<Fragment, ErrorKind>>, session: u32, id: u16, s: Sent, i: nat)
    requires s.size >= 1 && i < |Chunks(s.payload, s.size)| <= 255
  {
    Ok(FragmentOf(session, id, s, i)) in items
  }

  /**
   For any order, repetition and mixture with other sessions, what is returned is the whole
   payload of a packet that was sent, and nothing fails.
   */
  lemma {:induction false} DeliveryIsSafe(items: seq<Result<Fragment, ErrorKind>>, session: u32, sent: map<u16, Sent>)
    requires forall i | 0 <= i < |items| :: Genuine(items[i], session, sent)
    ensures match Collect(items, session)
            case Failed(_) => false
            case Waiting(t) => TableInv(t, sent)
            case Returned(p) => exists id :: id in sent && p == sent[id].payload
    decreases |items|
  {
    if items != [] {
      hide Genuine, TableInv, Accept;
      var front, last := items[..|items| - 1], items[|items| - 1];
      DeliveryIsSafe(front, session, sent);
      assert Genuine(last, session, sent);
      GenuineIsOk(last, session, sent);
      var so := Collect(front, session);
      if so.Waiting? {
        AcceptGenuine(so.table, session, sent, last.value);
      }
    } else {
      hide Genuine;
    }
  }

  lemma GenuineIsOk(item: Result<Fragment, ErrorKind>, session: u32, sent: map<u16, Sent>)
    requires Genuine(item, session, sent)
    ensures item.Ok? && (item.value.session == session ==> item.value.packetId in sent)
  {
  }

  /** While nothing has been returned, every piece that arrived is held. */
  lemma {:induction false} ArrivedIsHeld(items: seq<Result<Fragment, ErrorKind>>, session: u32,
                                         sent: map<u16, Sent>, id: u16, i: nat)
    requires forall j | 0 <= j < |items| :: Genuine(items[j], session, sent)
    requires id in sent && Sendable(sent[id]) && i < |Chunks(sent[id].payload, sent[id].size)|
    requires Arrived(items, session, id, sent[id], i) && Collect(items, session).Waiting?
    ensures var t := Collect(items, session).table;
            id in t && i < |t[id]| && t[id][i].Some?
    decreases |items|
  {
    var front, last := items[..|items| - 1], items[|items| - 1];
    assert items == front + [last];
    DeliveryIsSafe(front, session, sent);
    assert Genuine(last, session, sent);
    if Arrived(front, session, id, sent[id], i) {
      ArrivedIsHeld(front, session, sent, id, i);
    } else {
      assert last == Ok(FragmentOf(session, id, sent[id], i));
    }
  }

  /** Every piece of packet `id` is among the items. */
  ghost predicate AllArrived(items: seq<Result<Fragment, ErrorKind>>, session: u32, id: u16, s: Sent)
    requires Sendable(s)
  {
    forall i | 0 <= i < |Chunks(s.payload, s.size)| :: Arrived(items, session, id, s, i)
  }

  /** Once all pieces of some packet have arrived, something has been returned. */
  lemma DeliveryCompletes(items: seq<Result<Fragment, ErrorKind>>, session: u32, sent: map<u16, Sent>, id: u16)
    requires forall i | 0 <= i < |items| :: Genuine(items[i], session, sent)
    requires id in sent && Sendable(sent[id]) && AllArrived(items, session, id, sent[id])
    ensures Collect(items, session).Returned?
  {
    DeliveryIsSafe(items, session, sent);
    if Collect(items, session).Waiting? {
      var t: Table := Collect(items, session).table;
      forall i | 0 <= i < |Chunks(sent[id].payload, sent[id].size)|
        ensures id in t && i < |t[id]| && t[id][i].Some?
      {
        ArrivedIsHeld(items, session, sent, id, i);
      }
      ArrivedIsHeld(items, session, sent, id, 0);
      assert false;
    }
  }

  /** Every piece held has arrived. */
  ghost predicate HeldArrived(t: Table, items: seq<Result<Fragment, ErrorKind>>, session: u32, sent: map<u16, Sent>) {
    forall id, i | id in t && id in sent && Sendable(sent[id]) && 0 <= i < |t[id]| && t[id][i].Some?
                   && i < |Chunks(sent[id].payload, sent[id].size)| ::
      Arrived(items, session, id, sent[id], i)
  }

  lemma ArrivedStays(items: seq<Result<Fragment, ErrorKind>>, last: Result<Fragment, ErrorKind>,
                     session: u32, sent: map<u16, Sent>, t: Table)
    requires HeldArrived(t, items, session, sent)
    ensures HeldArrived(t, items + [last], session, sent)
  {
  }

  /** A packet that one more fragment completes has arrived with it. */
  lemma AcceptArrived(t: Table, items: seq<Result<Fragment, ErrorKind>>, session: u32, sent: map<u16, Sent>,
                      f: Fragment)
    requires TableInv(t, sent) && Genuine(Ok(f), session, sent)
    requires HeldArrived(t, items, session, sent) && Ok(f) in items
    ensures match Accept(t, session, f)
            case Failed(_) => true
            case Waiting(t') => HeldArrived(t', items, session, sent)
            case Returned(p) => AllArrived(items, session, f.packetId, sent[f.packetId])
  {
    if f.session == session {
      var s := sent[f.packetId];
      assert Arrived(items, session, f.packetId, s, f.index);
      if f.total != 1 {
        var parts := if f.packetId in t then t[f.packetId] else NoParts(f.total);
        assert Pieces(parts, Chunks(s.payload, s.size));
        var filled := parts[f.index := Some(f.data)];
        if Complete(filled) {
          forall i | 0 <= i < |filled| && i != f.index ensures Arrived(items, session, f.packetId, s, i) {
            assert filled[i].Some? && filled[i] == parts[i];
          }
        }
      }
    }
  }

  /** What the loop returns after these items: the payload of a packet all of whose pieces arrived. */
  ghost predicate Explains(items: seq<Result<Fragment, ErrorKind>>, session: u32, sent: map<u16, Sent>, id: u16,
                           payload: bytes)
  {
    id in sent && Sendable(sent[id]) && AllArrived(items, session, id, sent[id]) && payload == sent[id].payload
  }

  lemma {:induction false} ReturnedHasArrived(items: seq<Result<Fragment, ErrorKind>>, session: u32,
                                              sent: map<u16, Sent>)
    requires forall i | 0 <= i < |items| :: Genuine(items[i], session, sent)
    ensures match Collect(items, session)
            case Failed(_) => true
            case Waiting(t) => HeldArrived(t, items, session, sent)
            case Returned(p) => exists id :: Explains(items, session, sent, id, p)
    decreases |items|
  {
    if items != [] {
      hide Genuine, TableInv, Accept, HeldArrived, AllArrived, Sendable;
      var front, last := items[..|items| - 1], items[|items| - 1];
      assert items == front + [last];
      ReturnedHasArrived(front, session, sent);
      DeliveryIsSafe(front, session, sent);
      assert Genuine(last, session, sent);
      GenuineIsOk(last, session, sent);
      var so := Collect(front, session);
      if so.Waiting? {
        ArrivedStays(front, last, session, sent, so.table);
        AcceptGenuine(so.table, session, sent, last.value);
        AcceptArrived(so.table, items, session, sent, last.value);
        if Accept(so.table, session, last.value).Returned? {
          assert Explains(items, session, sent, last.value.packetId, Accept(so.table, session, last.value).payload);
        }
      } else if so.Returned? {
        var id :| Explains(front, session, sent, id, so.payload);
        ExplainsStays(front, last, session, sent, id, so.payload);
      }
    }
  }

  lemma ExplainsStays(items: seq<Result<Fragment, ErrorKind>>, last: Result<Fragment, ErrorKind>, session: u32,
                      sent: map<u16, Sent>, id: u16, payload: bytes)
    requires Explains(items, session, sent, id, payload)
    ensures Explains(items + [last], session, sent, id, payload)
  {
    hide Chunks;
    forall i | 0 <= i < |Chunks(sent[id].payload, sent[id].size)|
      ensures Arrived(items + [last], session, id, sent[id], i)
    {
      assert Arrived(items, session, id, sent[id], i);
    }
  }

  // ---------- Over any wire format ----------

  /** A packet that left: what was sent, and the datagrams it became. */
  datatype Flight = Flight(sent: Sent, datagrams: seq<bytes>)

  /** The datagrams of the packet are its fragments, as this parser reads them. */
  ghost predicate Carries(parse: bytes -> Result<Fragment, ErrorKind>, session: u32, id: u16, f: Flight) {
    && Sendable(f.sent) && |f.datagrams| == |Chunks(f.sent.payload, f.sent.size)|
    && forall i | 0 <= i < |f.datagrams| :: parse(f.datagrams[i]) == Ok(FragmentOf(session, id, f.sent, i))
  }

  ghost predicate AllCarry(parse: bytes -> Result<Fragment, ErrorKind>, session: u32, flights: map<u16, Flight>) {
    forall id | id in flights :: Carries(parse, session, id, flights[id])
  }

  /** A datagram of another session, or one of a packet that was sent. */
  ghost predicate Expected(parse: bytes -> Result<Fragment, ErrorKind>, session: u32, flights: map<u16, Flight>,
                           datagram: bytes)
  {
    || (parse(datagram).Ok? && parse(datagram).value.session != session)
    || exists id :: id in flights && datagram in flights[id].datagrams
  }

  ghost predicate AllExpected(parse: bytes -> Result<Fragment, ErrorKind>, session: u32,
                              flights: map<u16, Flight>, received: seq<bytes>)
  {
    forall k | 0 <= k < |received| :: Expected(parse, session, flights, received[k])
  }

  ghost predicate Landed(f: Flight, received: seq<bytes>) {
    forall d | d in f.datagrams :: d in received
  }

  function Parsed(parse: bytes -> Result<Fragment, ErrorKind>, received: seq<bytes>): seq<Result<Fragment, ErrorKind>> {
    seq(|received|, k requires 0 <= k < |received| => parse(received[k]))
  }

  ghost function SentOf(flights: map<u16, Flight>): map<u16, Sent> {
    map id | id in flights :: flights[id].sent
  }

  lemma ExpectedIsGenuine(parse: bytes -> Result<Fragment, ErrorKind>, session: u32, flights: map<u16, Flight>,
                          datagram: bytes)
    requires AllCarry(parse, session, flights) && Expected(parse, session, flights, datagram)
    ensures Genuine(parse(datagram), session, SentOf(flights))
  {
    hide Chunks;
    if id :| id in flights && datagram in flights[id].datagrams {
      var i :| 0 <= i < |flights[id].datagrams| && flights[id].datagrams[i] == datagram;
      assert Carries(parse, session, id, flights[id]);
    }
  }

  /** Only the datagram itself reads as its fragment. */
  lemma FragmentIsDatagram(parse: bytes -> Result<Fragment, ErrorKind>, session: u32, flights: map<u16, Flight>,
                           d: bytes, id: u16, i: nat)
    requires AllCarry(parse, session, flights) && Expected(parse, session, flights, d)
    requires id in flights && Sendable(flights[id].sent)
    requires i < |Chunks(flights[id].sent.payload, flights[id].sent.size)|
    requires parse(d) == Ok(FragmentOf(session, id, flights[id].sent, i))
    ensures i < |flights[id].datagrams| && d == flights[id].datagrams[i]
  {
    hide Chunks;
    assert Carries(parse, session, id, flights[id]);
    var id' :| id' in flights && d in flights[id'].datagrams;
    var j :| 0 <= j < |flights[id'].datagrams| && flights[id'].datagrams[j] == d;
    assert Carries(parse, session, id', flights[id']);
  }

  /** All pieces have arrived exactly when all datagrams have. */
  lemma LandedIsArrived(parse: bytes -> Result<Fragment, ErrorKind>, session: u32, flights: map<u16, Flight>,
                        received: seq<bytes>, id: u16)
    requires AllCarry(parse, session, flights) && AllExpected(parse, session, flights, received)
    requires id in flights && Sendable(flights[id].sent)
    ensures Landed(flights[id], received) <==> AllArrived(Parsed(parse, received), session, id, flights[id].sent)
  {
    hide Chunks, Expected;
    var f, items := flights[id], Parsed(parse, received);
    assert Carries(parse, session, id, f);
    if Landed(f, received) {
      forall i | 0 <= i < |Chunks(f.sent.payload, f.sent.size)| ensures Arrived(items, session, id, f.sent, i) {
        assert f.datagrams[i] in f.datagrams;
        var k :| 0 <= k < |received| && received[k] == f.datagrams[i];
        assert items[k] in items;
      }
    }
    if AllArrived(items, session, id, f.sent) {
      forall d | d in f.datagrams ensures d in received {
        var i :| 0 <= i < |f.datagrams| && f.datagrams[i] == d;
        assert Arrived(items, session, id, f.sent, i);
        var k :| 0 <= k < |items| && items[k] == Ok(FragmentOf(session, id, f.sent, i));
        FragmentIsDatagram(parse, session, flights, received[k], id, i);
        assert received[k] in received;
      }
    }
  }

  /**
   Over any delivery, reordered, repeated or mixed with other sessions, nothing fails; a payload
   is returned if and only if every datagram of some packet has arrived, and then it is the whole
   payload of such a packet.
   */
  lemma DeliveryExact(parse: bytes -> Result<Fragment, ErrorKind>, session: u32, flights: map<u16, Flight>,
                      received: seq<bytes>)
    requires AllCarry(parse, session, flights) && AllExpected(parse, session, flights, received)
    ensures match Collect(Parsed(parse, received), session)
            case Failed(_) => false
            case Waiting(_) => forall id | id in flights :: !Landed(flights[id], received)
            case Returned(p) =>
              exists id :: id in flights && Landed(flights[id], received) && p == flights[id].sent.payload
  {
    hide Genuine, Expected, Collect, Chunks, Landed, AllArrived;
    var items, sent := Parsed(parse, received), SentOf(flights);
    forall k | 0 <= k < |items| ensures Genuine(items[k], session, sent) {
      ExpectedIsGenuine(parse, session, flights, received[k]);
    }
    DeliveryIsSafe(items, session, sent);
    ReturnedHasArrived(items, session, sent);
    match Collect(items, session)
    case Failed(_) =>
    case Waiting(_) =>
      forall id | id in flights ensures !Landed(flights[id], received) {
        assert Carries(parse, session, id, flights[id]);
        LandedIsArrived(parse, session, flights, received, id);
        if AllArrived(items, session, id, sent[id]) {
          DeliveryCompletes(items, session, sent, id);
        }
      }
    case Returned(p) => {
      var id :| Explains(items, session, sent, id, p);
      LandedIsArrived(parse, session, flights, received, id);
    }
  }
}
