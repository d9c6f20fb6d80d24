/**
 UDP over an AnyTLS stream: a request, then length-prefixed packets, parsed out of a
 byte stream that arrives in arbitrary pieces. `utf8` says which byte strings are UTF-8;
 a host is kept as the octets or name it was parsed from, not as text.
 */
module Uot {
  import opened Wrappers
  import opened Bytes

  datatype Host = V4(ip: bytes) | V6(ip: bytes) | Domain(name: bytes)

  datatype Target = Target(host: Host, port: u16)

  type Utf8 = bytes -> bool

  // ---------- Addresses ----------

  datatype Kind = KindV4 | KindV6 | KindDomain | KindUnknown

  /** Address types of the SOCKS form, where 1 is IPv4. */
  function SocksKind(b: byte): Kind {
    if b == 0x01 then KindV4 else if b == 0x03 then KindDomain else if b == 0x04 then KindV6
    else KindUnknown
  }

  /** Address types of the UDP-over-TCP form, where 1 is IPv6. */
  function UotKind(b: byte): Kind {
    if b == 0x00 then KindV4 else if b == 0x01 then KindV6 else if b == 0x02 then KindDomain
    else KindUnknown
  }

  datatype Parsed = Parsed(target: Target, consumed: nat)

  function Address(kind: Kind, s: bytes, utf8: Utf8): (r: Result<Parsed, ErrorKind>)
    ensures r.Ok? ==> 2 < r.value.consumed <= |s|
  {
    match kind
    case KindUnknown => Err(InvalidData)
    case KindV4 =>
      if |s| < 7 then Err(UnexpectedEof)
      else Ok(Parsed(Target(V4(s[1..5]), ReadU16(s[5], s[6])), 7))
    case KindV6 =>
      if |s| < 19 then Err(UnexpectedEof)
      else Ok(Parsed(Target(V6(s[1..17]), ReadU16(s[17], s[18])), 19))
    case KindDomain =>
      if |s| <= 1 then Err(UnexpectedEof)
      else
        var end := s[1] as int + 2;
        if |s| < end + 2 then Err(UnexpectedEof)
        else if !utf8(s[2..end]) then Err(InvalidData)
        else Ok(Parsed(Target(Domain(s[2..end]), ReadU16(s[end], s[end + 1])), end + 2))
  }

  function SocksAddr(s: bytes, utf8: Utf8): Result<Parsed, ErrorKind> {
    if s == [] then Err(InvalidData) else Address(SocksKind(s[0]), s, utf8)
  }

  function UotAddr(s: bytes, utf8: Utf8): Result<Parsed, ErrorKind> {
    if s == [] then Err(UnexpectedEof) else Address(UotKind(s[0]), s, utf8)
  }

  /** The second form is tried only when the first is malformed, not when it is short. */
  function FirstOf(a: Result<Parsed, ErrorKind>, b: Result<Parsed, ErrorKind>)
    : Result<Option<Parsed>, ErrorKind>
  {
    match a
    case Ok(p) => Ok(Some(p))
    case Err(UnexpectedEof) => Ok(None)
    case Err(_) =>
      match b
      case Ok(p) => Ok(Some(p))
      case Err(UnexpectedEof) => Ok(None)
      case Err(e) => Err(e)
  }

  // ---------- The request and the packets ----------

  datatype Request = Request(connectMode: bool, target: Target, consumed: nat)

  function ParseRequest(s: bytes, utf8: Utf8): (r: Result<Option<Request>, ErrorKind>)
    ensures r.Ok? && r.value.Some? ==> r.value.value.consumed <= |s|
  {
    if s == [] then Ok(None)
    else
      match FirstOf(SocksAddr(s[1..], utf8), UotAddr(s[1..], utf8))
      case Err(e) => Err(e)
      case Ok(None) => Ok(None)
      case Ok(Some(p)) => Ok(Some(Request(s[0] != 0, p.target, p.consumed + 1)))
  }

  datatype Packet = Packet(target: Target, payload: bytes, consumed: nat)

  /** A two-byte length and a payload, `from` bytes into the input. */
  function PacketAt(s: bytes, from: nat, target: Target): (r: Option<Packet>)
    ensures r.Some? ==> 2 <= r.value.consumed <= |s|
  {
    if |s| < from + 2 then None
    else
      var end := from + 2 + ReadU16(s[from], s[from + 1]);
      if |s| < end then None else Some(Packet(target, s[from + 2..end], end))
  }

  function ParsePacket(s: bytes, connectMode: bool, default: Option<Target>, utf8: Utf8)
    : (r: Result<Option<Packet>, ErrorKind>)
    ensures r.Ok? && r.value.Some? ==> 2 <= r.value.value.consumed <= |s|
  {
    if connectMode then
      if default.None? then Err(InvalidData) else Ok(PacketAt(s, 0, default.value))
    else
      match FirstOf(UotAddr(s, utf8), SocksAddr(s, utf8))
      case Err(e) => Err(e)
      case Ok(None) => Ok(None)
      case Ok(Some(p)) => Ok(PacketAt(s, p.consumed, p.target))
  }

  // ---------- The stream ----------

  datatype Udp = Udp(target: Option<Target>, connectMode: bool, pending: bytes)

  const NewUdp: Udp := Udp(None, false, [])

  datatype Fed = Fed(udp: Udp, packets: seq<(Target, bytes)>, failure: Option<ErrorKind>)

  /** Forward every complete packet; each one takes at least two bytes off. */
  function Forward(u: Udp, utf8: Utf8): Fed
    decreases |u.pending|
  {
    match ParsePacket(u.pending, u.connectMode, u.target, utf8)
    case Err(e) => Fed(u, [], Some(e))
    case Ok(None) => Fed(u, [], None)
    case Ok(Some(p)) =>
      var more := Forward(u.(pending := u.pending[p.consumed..]), utf8);
      more.(packets := [(p.target, p.payload)] + more.packets)
  }

  function Feed(u: Udp, body: bytes, utf8: Utf8): Fed {
    var all := u.pending + body;
    if u.target.Some? then Forward(u.(pending := all), utf8)
    else
      match ParseRequest(all, utf8)
      case Err(e) => Fed(u.(pending := all), [], Some(e))
      case Ok(None) => Fed(u.(pending := all), [], None)
      case Ok(Some(r)) =>
        Forward(Udp(Some(r.target), r.connectMode, all[r.consumed..]), utf8)
  }

  function FeedAll(u: Udp, bodies: seq<bytes>, utf8: Utf8): Fed
    decreases |bodies|
  {
    if bodies == [] then Fed(u, [], None)
    else
      var d := Feed(u, bodies[0], utf8);
      if d.failure.Some? then d
      else
        var more := FeedAll(d.udp, bodies[1..], utf8);
        more.(packets := d.packets + more.packets)
  }

  class AnyTlsUdpStream {
    var target: Option<Target>
    var connectMode: bool
    var pending: bytes

    /** A new stream is `NewUdp`; a stream taken out of the session's table resumes. */
    constructor (u: Udp)
      ensures State() == u
    {
      target := u.target;
      connectMode := u.connectMode;
      pending := u.pending;
    }

    function State(): Udp
      reads this
    {
      Udp(target, connectMode, pending)
    }

    method ForwardPackets(utf8: Utf8) returns (packets: seq<(Target, bytes)>, failure: Option<ErrorKind>)
      modifies this
      ensures Fed(State(), packets, failure) == Forward(old(State()), utf8)
    {
      hide ParsePacket, Forward;
      packets := [];
      ghost var whole := Forward(State(), utf8);
      assert [] + whole.packets == whole.packets;
      while true
        invariant var more := Forward(State(), utf8);
                  whole == more.(packets := packets + more.packets)
        decreases |pending|
      {
        PacketFits(State(), utf8);
        ForwardUnfolds(State(), utf8);
        assert packets + [] == packets;
        var r := ParsePacket(pending, connectMode, target, utf8);
        if r.Err? {
          return packets, Some(r.error);
        }
        if r.value.None? {
          return packets, None;
        }
        ghost var before, packet := packets, (r.value.value.target, r.value.value.payload);
        packets := packets + [(r.value.value.target, r.value.value.payload)];
        pending := pending[r.value.value.consumed..];
        assert before + ([packet] + Forward(State(), utf8).packets) == packets + Forward(State(), utf8).packets;
      }
    }

    /** `packets` are those handed to the forwarder before the call returned. */
    method HandleUdpPsh(body: bytes, utf8: Utf8)
      returns (packets: seq<(Target, bytes)>, failure: Option<ErrorKind>)
      modifies this
      ensures Fed(State(), packets, failure) == Feed(old(State()), body, utf8)
    {
      hide ParseRequest, Forward;
      packets := [];
      pending := pending + body;
      if target.None? {
        RequestFits(pending, utf8);
        var r := ParseRequest(pending, utf8);
        if r.Err? {
          return packets, Some(r.error);
        }
        if r.value.None? {
          return packets, None;
        }
        connectMode := r.value.value.connectMode;
        target := Some(r.value.value.target);
        pending := pending[r.value.value.consumed..];
      }
      packets, failure := ForwardPackets(utf8);
    }
  }

  // ---------- Framing does not matter ----------

  lemma AddressIsStable(kind: Kind, a: bytes, b: bytes, utf8: Utf8)
    requires Address(kind, a, utf8) != Err(UnexpectedEof)
    ensures Address(kind, a + b, utf8) == Address(kind, a, utf8)
  {
    match kind
    case KindUnknown =>
    case KindV4 => assert (a + b)[1..5] == a[1..5];
    case KindV6 => assert (a + b)[1..17] == a[1..17];
    case KindDomain => assert (a + b)[2..2 + a[1]] == a[2..2 + a[1]];
  }

  lemma AddrsAreStable(a: bytes, b: bytes, utf8: Utf8)
    ensures var x := FirstOf(UotAddr(a, utf8), SocksAddr(a, utf8));
            x != Ok(None) ==> FirstOf(UotAddr(a + b, utf8), SocksAddr(a + b, utf8)) == x
    ensures var x := FirstOf(SocksAddr(a, utf8), UotAddr(a, utf8));
            x != Ok(None) ==> FirstOf(SocksAddr(a + b, utf8), UotAddr(a + b, utf8)) == x
  {
    hide Address;
    if a != [] {
      if UotAddr(a, utf8) != Err(UnexpectedEof) {
        AddressIsStable(UotKind(a[0]), a, b, utf8);
      }
      if SocksAddr(a, utf8) != Err(UnexpectedEof) {
        AddressIsStable(SocksKind(a[0]), a, b, utf8);
      }
    }
  }

  lemma RequestIsStable(a: bytes, b: bytes, utf8: Utf8)
    requires ParseRequest(a, utf8) != Ok(None)
    ensures ParseRequest(a + b, utf8) == ParseRequest(a, utf8)
  {
    hide SocksAddr, UotAddr, FirstOf;
    assert (a + b)[1..] == a[1..] + b;
    AddrsAreStable(a[1..], b, utf8);
  }

  lemma PacketIsStable(a: bytes, b: bytes, connectMode: bool, default: Option<Target>, utf8: Utf8)
    requires ParsePacket(a, connectMode, default, utf8) != Ok(None)
    ensures ParsePacket(a + b, connectMode, default, utf8) == ParsePacket(a, connectMode, default, utf8)
  {
    hide SocksAddr, UotAddr, FirstOf, PacketAt;
    AddrsAreStable(a, b, utf8);
    if connectMode {
      if default.Some? {
        PacketAtIsStable(a, b, 0, default.value);
      }
    } else {
      match FirstOf(UotAddr(a, utf8), SocksAddr(a, utf8))
      case Err(e) =>
      case Ok(None) =>
      case Ok(Some(p)) => PacketAtIsStable(a, b, p.consumed, p.target);
    }
  }

  lemma PacketAtIsStable(a: bytes, b: bytes, from: nat, target: Target)
    ensures PacketAt(a, from, target).Some? ==> PacketAt(a + b, from, target) == PacketAt(a, from, target)
  {
    if PacketAt(a, from, target).Some? {
      var end := PacketAt(a, from, target).value.consumed;
      assert (a + b)[from + 2..end] == a[from + 2..end];
    }
  }

  lemma {:induction false} ForwardUnfolds(u: Udp, utf8: Utf8)
    ensures match ParsePacket(u.pending, u.connectMode, u.target, utf8)
            case Err(e) => Forward(u, utf8) == Fed(u, [], Some(e))
            case Ok(None) => Forward(u, utf8) == Fed(u, [], None)
            case Ok(Some(p)) =>
              var more := Forward(u.(pending := u.pending[p.consumed..]), utf8);
              Forward(u, utf8) == more.(packets := [(p.target, p.payload)] + more.packets)
  {
  }

  lemma {:induction false} ForwardExtends(u: Udp, b: bytes, utf8: Utf8)
    ensures var d, e := Forward(u, utf8), Forward(u.(pending := u.pending + b), utf8);
            if d.failure.Some? then e.packets == d.packets && e.failure == d.failure
            else
              var more := Forward(d.udp.(pending := d.udp.pending + b), utf8);
              e == more.(packets := d.packets + more.packets)
    decreases |u.pending|
  {
    hide ParsePacket, Forward;
    var parsed := ParsePacket(u.pending, u.connectMode, u.target, utf8);
    var e := Forward(u.(pending := u.pending + b), utf8);
    ForwardUnfolds(u, utf8);
    ForwardUnfolds(u.(pending := u.pending + b), utf8);
    if parsed == Ok(None) {
      assert [] + e.packets == e.packets;
    } else {
      PacketIsStable(u.pending, b, u.connectMode, u.target, utf8);
      if parsed.Ok? {
        PacketFits(u, utf8);
        var p := parsed.value.value;
        var rest := u.(pending := u.pending[p.consumed..]);
        assert (u.pending + b)[p.consumed..] == rest.pending + b;
        ForwardExtends(rest, b, utf8);
        var d := Forward(rest, utf8);
        var more := Forward(d.udp.(pending := d.udp.pending + b), utf8);
        assert [(p.target, p.payload)] + (d.packets + more.packets)
            == [(p.target, p.payload)] + d.packets + more.packets;
      }
    }
  }

  lemma PacketFits(u: Udp, utf8: Utf8)
    ensures var r := ParsePacket(u.pending, u.connectMode, u.target, utf8);
            r.Ok? && r.value.Some? ==> 2 <= r.value.value.consumed <= |u.pending|
  {
  }

  lemma FeedExtends(u: Udp, a: bytes, b: bytes, utf8: Utf8)
    ensures var d, e := Feed(u, a, utf8), Feed(u, a + b, utf8);
            if d.failure.Some? then e.packets == d.packets && e.failure == d.failure
            else
              var more := Feed(d.udp, b, utf8);
              e == more.(packets := d.packets + more.packets)
  {
    hide ParseRequest, ParsePacket, Forward;
    var all := u.pending + a;
    assert u.pending + (a + b) == all + b;
    if u.target.Some? {
      var next := u.(pending := all);
      ForwardExtends(next, b, utf8);
      ForwardKeepsTarget(next, utf8);
    } else if ParseRequest(all, utf8) != Ok(None) {
      RequestIsStable(all, b, utf8);
      if ParseRequest(all, utf8).Ok? {
        var r := ParseRequest(all, utf8).value.value;
        assert r.consumed <= |all| by { RequestFits(all, utf8); }
        assert (all + b)[r.consumed..] == all[r.consumed..] + b;
        var next := Udp(Some(r.target), r.connectMode, all[r.consumed..]);
        ForwardExtends(next, b, utf8);
        ForwardKeepsTarget(next, utf8);
      }
    }
  }

  lemma RequestFits(s: bytes, utf8: Utf8)
    ensures var r := ParseRequest(s, utf8); r.Ok? && r.value.Some? ==> r.value.value.consumed <= |s|
  {
  }

  lemma {:induction false} ForwardKeepsTarget(u: Udp, utf8: Utf8)
    ensures var d := Forward(u, utf8);
            d.udp.target == u.target && d.udp.connectMode == u.connectMode
            && (d.failure.None? ==> Forward(d.udp, utf8) == Fed(d.udp, [], None))
    decreases |u.pending|
  {
    hide ParsePacket;
    PacketFits(u, utf8);
    var parsed := ParsePacket(u.pending, u.connectMode, u.target, utf8);
    if parsed.Ok? && parsed.value.Some? {
      ForwardKeepsTarget(u.(pending := u.pending[parsed.value.value.consumed..]), utf8);
    }
  }

  /** Nothing more can be forwarded until bytes arrive: true of a new stream and after any body. */
  ghost predicate Settled(u: Udp, utf8: Utf8) {
    Feed(u, [], utf8) == Fed(u, [], None)
  }

  lemma FeedSettles(u: Udp, body: bytes, utf8: Utf8)
    ensures Settled(NewUdp, utf8)
    ensures Feed(u, body, utf8).failure.None? ==> Settled(Feed(u, body, utf8).udp, utf8)
  {
    NewIsSettled(utf8);
    hide Feed;
    var d := Feed(u, body, utf8);
    FeedExtends(u, body, [], utf8);
    assert body + [] == body;
    var more := Feed(d.udp, [], utf8);
    if d.failure.None? {
      assert |d.packets| == |d.packets + more.packets|;
    }
  }

  lemma NewIsSettled(utf8: Utf8)
    ensures Settled(NewUdp, utf8)
  {
  }

  ghost predicate Agree(d: Fed, e: Fed) {
    d.packets == e.packets && d.failure == e.failure && (d.failure.None? ==> d.udp == e.udp)
  }

  lemma {:induction false} BodiesAreOneBody(u: Udp, bodies: seq<bytes>, utf8: Utf8)
    requires Settled(u, utf8)
    ensures Agree(FeedAll(u, bodies, utf8), Feed(u, Concat(bodies), utf8))
    decreases |bodies|
  {
    hide Feed;
    if bodies != [] {
      var d := Feed(u, bodies[0], utf8);
      FeedExtends(u, bodies[0], Concat(bodies[1..]), utf8);
      if d.failure.None? {
        FeedSettles(u, bodies[0], utf8);
        BodiesAreOneBody(d.udp, bodies[1..], utf8);
      }
    }
  }

  /**
   Two cuts of one byte stream forward the same packets, keep the same pending bytes and
   fail together, whatever the bytes are.
   */
  lemma FramingIsInvisible(u: Udp, cut: seq<bytes>, cut': seq<bytes>, utf8: Utf8)
    requires Settled(u, utf8) && Concat(cut) == Concat(cut')
    ensures Agree(FeedAll(u, cut, utf8), FeedAll(u, cut', utf8))
  {
    BodiesAreOneBody(u, cut, utf8);
    BodiesAreOneBody(u, cut', utf8);
  }

  // ---------- Responses ----------

  /** A peer's socket address: 4 or 16 octets and a port. */
  predicate IsSocketAddr(t: Target) {
    match t.host
    case V4(ip) => |ip| == 4
    case V6(ip) => |ip| == 16
    case Domain(_) => false
  }

  function AddrBytes(t: Target): bytes
    requires IsSocketAddr(t)
  {
    [if t.host.V4? then 0x00 else 0x01] + t.host.ip + U16Be(t.port)
  }

  /** The length field keeps only the low 16 bits of the payload's length. */
  function PacketBytes(connectMode: bool, source: Target, payload: bytes): bytes
    requires IsSocketAddr(source)
  {
    (if connectMode then [] else AddrBytes(source)) + (U16Be(|payload| % 0x1_0000) + payload)
  }

  method EncodeUotPacket(connectMode: bool, source: Target, payload: bytes) returns (output: bytes)
    requires IsSocketAddr(source)
    ensures output == PacketBytes(connectMode, source, payload)
  {
    output := [];
    if !connectMode {
      output := output + [if source.host.V4? then 0x00 else 0x01];
      output := output + source.host.ip;
      output := output + U16Be(source.port);
    }
    output := output + U16Be(|payload| % 0x1_0000);
    output := output + payload;
  }

  lemma AddrIsRead(source: Target, rest: bytes, utf8: Utf8)
    requires IsSocketAddr(source)
    ensures UotAddr(AddrBytes(source) + rest, utf8) == Ok(Parsed(source, |AddrBytes(source)|))
  {
    var s := AddrBytes(source) + rest;
    var n := |source.host.ip|;
    assert s[1..1 + n] == source.host.ip;
    assert s[1 + n] == U16Be(source.port)[0] && s[2 + n] == U16Be(source.port)[1];
  }

  lemma PayloadIsRead(head: bytes, payload: bytes, tail: bytes, target: Target)
    requires |payload| < 0x1_0000
    ensures PacketAt(head + (U16Be(|payload|) + payload) + tail, |head|, target)
         == Some(Packet(target, payload, |head| + 2 + |payload|))
  {
    var s := head + (U16Be(|payload|) + payload) + tail;
    assert s[|head|] == U16Be(|payload|)[0] && s[|head| + 1] == U16Be(|payload|)[1];
    assert s[|head| + 2..|head| + 2 + |payload|] == payload;
  }

  ghost predicate ReadsBack(connectMode: bool, source: Target, payload: bytes, tail: bytes,
                            target: Target, utf8: Utf8)
    requires IsSocketAddr(source)
  {
    var output := PacketBytes(connectMode, source, payload);
    ParsePacket(output + tail, connectMode, Some(target), utf8)
    == Ok(Some(Packet(if connectMode then target else source, payload, |output|)))
  }

  /** A response is parsed back exactly when its payload fits a 16-bit length. */
  lemma PacketRoundTripExact(connectMode: bool, source: Target, payload: bytes, tail: bytes,
                             target: Target, utf8: Utf8)
    requires IsSocketAddr(source)
    ensures ReadsBack(connectMode, source, payload, tail, target, utf8) <==> |payload| <= 65535
  {
    hide PacketAt, UotAddr, SocksAddr, AddrBytes;
    var head := if connectMode then [] else AddrBytes(source);
    var low := payload[..|payload| % 0x1_0000];
    var rest := payload[|low|..] + tail;
    var s := PacketBytes(connectMode, source, payload) + tail;
    assert payload == low + payload[|low|..];
    assert s == head + (U16Be(|low|) + low) + rest;
    PayloadIsRead(head, low, rest, if connectMode then target else source);
    if !connectMode {
      assert s == AddrBytes(source) + (U16Be(|low|) + low + rest);
      AddrIsRead(source, U16Be(|low|) + low + rest, utf8);
    }
    assert ParsePacket(s, connectMode, Some(target), utf8)
        == Ok(Some(Packet(if connectMode then target else source, low, |head| + 2 + |low|)));
    if |payload| <= 65535 {
      assert low == payload;
    } else {
      assert |low| < |payload|;
    }
  }
}
