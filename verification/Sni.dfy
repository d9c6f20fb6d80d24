/**
 Reading the server name out of a TLS ClientHello (section 4.1.2 of RFC 8446, section 3 of
 RFC 6066): length-prefixed vectors nested five deep, walked with a bounded cursor. `decode`
 turns UTF-8 into text, or says that bytes are not UTF-8.
 */
module Sni {
  import opened Wrappers
  import opened Bytes
  import opened Arith

  type Utf8Decode = bytes -> Option<string>

  // ---------- Host names ----------

  /** Unicode White_Space, which trimming removes. */
  predicate IsWhitespace(c: char) {
    var n := c as int;
    || 0x09 <= n <= 0x0d || n == 0x20 || n == 0x85 || n == 0xa0 || n == 0x1680
    || 0x2000 <= n <= 0x200a || n == 0x2028 || n == 0x2029 || n == 0x202f || n == 0x205f || n == 0x3000
  }

  /** ASCII control, ASCII white space or a slash. */
  predicate IsForbidden(c: char) {
    var n := c as int;
    n < 0x20 || n == 0x7f || n == 0x20 || c == '/'
  }

  function Utf8Len(c: char): nat {
    var n := c as int;
    if n < 0x80 then 1 else if n < 0x800 then 2 else if n < 0x1_0000 then 3 else 4
  }

  function ByteLen(s: string): nat {
    if s == "" then 0 else Utf8Len(s[0]) + ByteLen(s[1..])
  }

  function TrimStart(s: string): string {
    if s != "" && IsWhitespace(s[0]) then TrimStart(s[1..]) else s
  }

  function TrimEnd(s: string): string {
    if s != "" && IsWhitespace(s[|s| - 1]) then TrimEnd(s[..|s| - 1]) else s
  }

  function TrimDots(s: string): string {
    if s != "" && s[|s| - 1] == '.' then TrimDots(s[..|s| - 1]) else s
  }

  function Sanitized(host: string): Option<string> {
    var h := TrimDots(TrimEnd(TrimStart(host)));
    if h == "" || ByteLen(h) > 253 || exists i | 0 <= i < |h| :: IsForbidden(h[i]) then None else Some(h)
  }

  lemma {:induction false} TrimEndIsPrefix(s: string)
    ensures TrimEnd(s) <= s && (TrimEnd(s) == "" || !IsWhitespace(TrimEnd(s)[|TrimEnd(s)| - 1]))
  {
    if s != "" && IsWhitespace(s[|s| - 1]) {
      TrimEndIsPrefix(s[..|s| - 1]);
    }
  }

  lemma {:induction false} TrimDotsIsPrefix(s: string)
    ensures TrimDots(s) <= s && (TrimDots(s) == "" || TrimDots(s)[|TrimDots(s)| - 1] != '.')
  {
    if s != "" && s[|s| - 1] == '.' {
      TrimDotsIsPrefix(s[..|s| - 1]);
    }
  }

  lemma {:induction false} TrimStartIsTrimmed(s: string)
    ensures TrimStart(s) == "" || !IsWhitespace(TrimStart(s)[0])
  {
    if s != "" && IsWhitespace(s[0]) {
      TrimStartIsTrimmed(s[1..]);
    }
  }

  /**
   Sanitizing a sanitized name changes nothing exactly when the name does not end in white
   space; it can, beyond ASCII, because dots are trimmed after white space is.
   */
  lemma SanitizedIdempotentExact(host: string, h: string)
    requires Sanitized(host) == Some(h)
    ensures h != "" && h[|h| - 1] != '.' && ByteLen(h) <= 253
    ensures Sanitized(h) == Some(h) <==> !IsWhitespace(h[|h| - 1])
  {
    var a := TrimStart(host);
    var b := TrimEnd(a);
    TrimStartIsTrimmed(host);
    TrimEndIsPrefix(a);
    TrimDotsIsPrefix(b);
    assert h[0] == b[0] == a[0];
    TrimEndIsPrefix(h);
    TrimDotsIsPrefix(TrimEnd(h));
  }

  /** Such names exist: an em space before the final dot survives the first pass only. */
  lemma SanitizingTwiceDiffers()
    ensures Sanitized("a\U{2003}.") == Some("a\U{2003}") && Sanitized("a\U{2003}") == Some("a")
  {
    var first := "a\U{2003}.";
    var second := "a\U{2003}";
    assert first[..2] == second && second[..1] == "a";
    assert TrimStart(first) == first && TrimEnd(first) == first && TrimDots(first) == TrimDots(second) == second;
    assert TrimStart(second) == second && TrimEnd(second) == TrimEnd("a") == "a" && TrimDots("a") == "a";
    assert ByteLen(second) == 4 && ByteLen("a") == 1 by {
      assert second[1..] == "\U{2003}" && second[1..][1..] == "" && "a"[1..] == "";
    }
  }

  // ---------- The cursor ----------

  class ByteCursor {
    const input: bytes
    var offset: nat

    constructor (input: bytes)
      ensures this.input == input && offset == 0
    {
      this.input := input;
      this.offset := 0;
    }

    function Remaining(): nat
      reads this
    {
      if offset <= |input| then |input| - offset else 0
    }

    method ReadU8() returns (r: Option<byte>)
      modifies this
      ensures if old(offset) < |input| then r == Some(input[old(offset)]) && offset == old(offset) + 1
              else r == None && offset == old(offset)
    {
      if offset >= |input| {
        return None;
      }
      r := Some(input[offset]);
      offset := offset + 1;
    }

    method ReadWord() returns (r: Option<u16>)
      modifies this
      ensures if old(offset) + 2 <= |input|
              then r == Some(ReadU16(input[old(offset)], input[old(offset) + 1])) && offset == old(offset) + 2
              else r == None && offset == old(offset)
    {
      if offset + 1 >= |input| {
        return None;
      }
      r := Some(ReadU16(input[offset], input[offset + 1]));
      offset := offset + 2;
    }

    method ReadSlice(len: nat) returns (r: Option<bytes>)
      modifies this
      ensures if old(offset) + len <= |input|
              then r == Some(input[old(offset)..old(offset) + len]) && offset == old(offset) + len
              else r == None && offset == old(offset)
    {
      var end := offset + len;
      if end > |input| {
        return None;
      }
      r := Some(input[offset..end]);
      offset := end;
    }

    /** A one-byte length and that many bytes. */
    method ReadVec8() returns (r: Option<bytes>)
      modifies this
      ensures match Vec8(input, old(offset))
              case None => r == None
              case Some(v) => r == Some(v.data) && offset == v.end
    {
      var len := ReadU8();
      if len.None? {
        return None;
      }
      r := ReadSlice(len.value);
    }

    /** A two-byte length and that many bytes. */
    method ReadVec16() returns (r: Option<bytes>)
      modifies this
      ensures match Vec16(input, old(offset))
              case None => r == None
              case Some(v) => r == Some(v.data) && offset == v.end
    {
      var len := ReadWord();
      if len.None? {
        return None;
      }
      r := ReadSlice(len.value);
    }
  }

  // ---------- What is read ----------

  /** The vector at an offset: its contents and the offset behind it. */
  datatype Vector = Vector(data: bytes, end: nat)

  function Vec8(input: bytes, offset: nat): Option<Vector> {
    if offset >= |input| then None
    else
      var end := offset + 1 + input[offset];
      if end > |input| then None else Some(Vector(input[offset + 1..end], end))
  }

  function Vec16(input: bytes, offset: nat): (r: Option<Vector>)
    ensures r.Some? ==> offset + 2 <= r.value.end <= |input|
  {
    if offset + 2 > |input| then None
    else
      var end := offset + 2 + ReadU16(input[offset], input[offset + 1]);
      if end > |input| then None else Some(Vector(input[offset + 2..end], end))
  }

  /** The first entry of type host_name in a server name list. */
  function HostName(list: bytes, offset: nat): Option<bytes>
    decreases |list| - offset
  {
    if offset >= |list| then None
    else
      match Vec16(list, offset + 1)
      case None => None
      case Some(v) => if list[offset] == 0 then Some(v.data) else HostName(list, v.end)
  }

  function SniHost(extension: bytes, decode: Utf8Decode): Option<string> {
    match Vec16(extension, 0)
    case None => None
    case Some(list) =>
      match HostName(list.data, 0)
      case None => None
      case Some(name) =>
        match decode(name)
        case None => None
        case Some(text) => Sanitized(text)
  }

  /** The first extension of type server_name decides. */
  function FindSni(extensions: bytes, offset: nat, decode: Utf8Decode): Option<string>
    decreases |extensions| - offset
  {
    if offset >= |extensions| || offset + 2 > |extensions| then None
    else
      match Vec16(extensions, offset + 2)
      case None => None
      case Some(v) =>
        if ReadU16(extensions[offset], extensions[offset + 1]) == 0 then SniHost(v.data, decode)
        else FindSni(extensions, v.end, decode)
  }

  /** Version and random, session id, cipher suites, compression methods, then the extensions. */
  function Extensions(hello: bytes): Option<bytes> {
    if |hello| < 34 then None
    else
      match Vec8(hello, 34)
      case None => None
      case Some(session) =>
        match Vec16(hello, session.end)
        case None => None
        case Some(suites) =>
          match Vec8(hello, suites.end)
          case None => None
          case Some(compression) =>
            match Vec16(hello, compression.end)
            case None => None
            case Some(extensions) => Some(extensions.data)
  }

  function U24(b0: byte, b1: byte, b2: byte): nat {
    b0 * 0x1_0000 + b1 * 256 + b2
  }

  /** The ClientHello inside one TLS record. */
  function Hello(payload: bytes): Option<bytes> {
    if |payload| < 5 || payload[0] != 0x16 then None
    else
      var recordLen := ReadU16(payload[3], payload[4]);
      if |payload| < 5 + recordLen then None
      else
        var body := payload[5..5 + recordLen];
        if |body| < 4 || body[0] != 0x01 then None
        else
          var len := U24(body[1], body[2], body[3]);
          if |body| < 4 + len then None else Some(body[4..4 + len])
  }

  function Sniffed(payload: bytes, decode: Utf8Decode): Option<string> {
    match Hello(payload)
    case None => None
    case Some(hello) =>
      match Extensions(hello)
      case None => None
      case Some(extensions) => FindSni(extensions, 0, decode)
  }

  method ParseSniExtension(input: bytes, decode: Utf8Decode) returns (r: Option<string>)
    ensures r == SniHost(input, decode)
  {
    hide Vec16, Sanitized;
    var cursor := new ByteCursor(input);
    var slice := cursor.ReadVec16();
    if slice.None? {
      return None;
    }
    var list := new ByteCursor(slice.value);
    while list.Remaining() > 0
      invariant list.input == slice.value
      invariant HostName(list.input, list.offset) == HostName(list.input, 0)
      decreases list.Remaining()
    {
      Vec16Advances(list.input, list.offset + 1);
      var nameType := list.ReadU8();
      var value := list.ReadVec16();
      if value.None? {
        return None;
      }
      if nameType.value == 0 {
        var host := decode(value.value);
        if host.None? {
          return None;
        }
        return Sanitized(host.value);
      }
    }
    return None;
  }

  lemma Vec16Advances(input: bytes, offset: nat)
    ensures var v := Vec16(input, offset); v.Some? ==> offset + 2 <= v.value.end <= |input|
  {
  }

  method ReadExtensions(hello: bytes) returns (r: Option<bytes>)
    ensures r == Extensions(hello)
  {
    hide Vec8, Vec16;
    var cursor := new ByteCursor(hello);
    var skipped := cursor.ReadSlice(2);
    if skipped.None? {
      return None;
    }
    skipped := cursor.ReadSlice(32);
    if skipped.None? {
      return None;
    }
    skipped := cursor.ReadVec8();
    if skipped.None? {
      return None;
    }
    skipped := cursor.ReadVec16();
    if skipped.None? {
      return None;
    }
    skipped := cursor.ReadVec8();
    if skipped.None? {
      return None;
    }
    r := cursor.ReadVec16();
  }

  /** Total on every input: each read is bounded, each pass of each loop moves on. */
  method SniffTlsSni(payload: bytes, decode: Utf8Decode) returns (r: Option<string>)
    ensures r == Sniffed(payload, decode)
  {
    hide Vec16, Hello, Extensions, SniHost;
    var hello := Hello(payload);
    if hello.None? {
      return None;
    }
    var block := ReadExtensions(hello.value);
    if block.None? {
      return None;
    }
    var extensions := new ByteCursor(block.value);
    while extensions.Remaining() > 0
      invariant extensions.input == block.value
      invariant FindSni(extensions.input, extensions.offset, decode) == FindSni(block.value, 0, decode)
      decreases extensions.Remaining()
    {
      Vec16Advances(extensions.input, extensions.offset + 2);
      var extType := extensions.ReadWord();
      if extType.None? {
        return None;
      }
      var ext := extensions.ReadVec16();
      if ext.None? {
        return None;
      }
      if extType.value == 0 {
        r := ParseSniExtension(ext.value, decode);
        return r;
      }
    }
    return None;
  }

  // ---------- The layout it inverts ----------

  type Bytes8 = b: bytes | |b| < 256

  type Bytes16 = b: bytes | |b| < 0x1_0000

  datatype Name = Name(kind: byte, value: Bytes16)

  datatype Extension = Extension(kind: u16, data: Bytes16)

  function Vec8Bytes(v: Bytes8): bytes {
    [|v|] + v
  }

  function Vec16Bytes(v: Bytes16): bytes {
    U16Be(|v|) + v
  }

  function NamesBytes(names: seq<Name>): bytes {
    if names == [] then [] else [names[0].kind] + (Vec16Bytes(names[0].value) + NamesBytes(names[1..]))
  }

  function ExtensionsBytes(es: seq<Extension>): bytes {
    if es == [] then [] else U16Be(es[0].kind) + (Vec16Bytes(es[0].data) + ExtensionsBytes(es[1..]))
  }

  lemma Vec8IsRead(input: bytes, offset: nat, v: Bytes8)
    requires At(input, offset, Vec8Bytes(v))
    ensures Vec8(input, offset) == Some(Vector(v, offset + 1 + |v|))
  {
    AtIndex(input, offset, Vec8Bytes(v), 0);
    AtSplit(input, offset, [|v|], v);
  }

  lemma Vec16IsRead(input: bytes, offset: nat, v: Bytes16)
    requires At(input, offset, Vec16Bytes(v))
    ensures Vec16(input, offset) == Some(Vector(v, offset + 2 + |v|))
  {
    AtIndex(input, offset, Vec16Bytes(v), 0);
    AtIndex(input, offset, Vec16Bytes(v), 1);
    AtSplit(input, offset, U16Be(|v|), v);
  }

  lemma {:induction false} HostNameIsFound(list: bytes, offset: nat, names: seq<Name>, host: Bytes16, rest: bytes)
    requires forall i | 0 <= i < |names| :: names[i].kind != 0
    requires At(list, offset, NamesBytes(names) + ([0] + (Vec16Bytes(host) + rest)))
    ensures HostName(list, offset) == Some(host)
    decreases |names|
  {
    hide At, Vec16, Vec16Bytes;
    var tail := [0] + (Vec16Bytes(host) + rest);
    if names == [] {
      assert NamesBytes(names) + tail == tail;
      FirstByte(list, offset, 0, Vec16Bytes(host) + rest);
      AtSplit(list, offset + 1, Vec16Bytes(host), rest);
      Vec16IsRead(list, offset + 1, host);
    } else {
      var n := names[0];
      var more := NamesBytes(names[1..]) + tail;
      assert NamesBytes(names) + tail == [n.kind] + (Vec16Bytes(n.value) + more);
      FirstByte(list, offset, n.kind, Vec16Bytes(n.value) + more);
      AtSplit(list, offset + 1, Vec16Bytes(n.value), more);
      Vec16IsRead(list, offset + 1, n.value);
      Vec16Length(n.value);
      HostNameIsFound(list, offset + 3 + |n.value|, names[1..], host, rest);
    }
  }

  lemma FirstByte(input: bytes, offset: nat, b: byte, rest: bytes)
    requires At(input, offset, [b] + rest)
    ensures offset < |input| && input[offset] == b && At(input, offset + 1, rest)
  {
    AtIndex(input, offset, [b] + rest, 0);
    AtSplit(input, offset, [b], rest);
  }

  lemma Vec16Length(v: Bytes16)
    ensures |Vec16Bytes(v)| == 2 + |v|
  {
  }

  lemma KindAt(input: bytes, offset: nat, kind: u16, rest: bytes)
    requires At(input, offset, U16Be(kind) + rest)
    ensures offset + 2 <= |input| && ReadU16(input[offset], input[offset + 1]) == kind
    ensures At(input, offset + 2, rest)
  {
    AtIndex(input, offset, U16Be(kind) + rest, 0);
    AtIndex(input, offset, U16Be(kind) + rest, 1);
    AtSplit(input, offset, U16Be(kind), rest);
  }

  lemma {:induction false} SniIsFound(input: bytes, offset: nat, es: seq<Extension>, sni: Bytes16, rest: bytes,
                                      decode: Utf8Decode)
    requires forall i | 0 <= i < |es| :: es[i].kind != 0
    requires At(input, offset, ExtensionsBytes(es) + (U16Be(0) + (Vec16Bytes(sni) + rest)))
    ensures FindSni(input, offset, decode) == SniHost(sni, decode)
    decreases |es|
  {
    hide At, Vec16, Vec16Bytes, SniHost, U16Be, ReadU16;
    var tail := U16Be(0) + (Vec16Bytes(sni) + rest);
    if es == [] {
      assert ExtensionsBytes(es) + tail == tail;
      KindAt(input, offset, 0, Vec16Bytes(sni) + rest);
      AtSplit(input, offset + 2, Vec16Bytes(sni), rest);
      Vec16IsRead(input, offset + 2, sni);
    } else {
      var e := es[0];
      var more := ExtensionsBytes(es[1..]) + tail;
      assert ExtensionsBytes(es) + tail == U16Be(e.kind) + (Vec16Bytes(e.data) + more);
      KindAt(input, offset, e.kind, Vec16Bytes(e.data) + more);
      AtSplit(input, offset + 2, Vec16Bytes(e.data), more);
      Vec16IsRead(input, offset + 2, e.data);
      Vec16Length(e.data);
      SniIsFound(input, offset + 4 + |e.data|, es[1..], sni, rest, decode);
    }
  }

  /** Everything in a ClientHello that a server name may stand between. */
  datatype ClientHello = ClientHello(
    fixed: Fixed, session: Bytes8, suites: Bytes16, compression: Bytes8,
    before: seq<Extension>, names: seq<Name>, host: Bytes16, laterNames: bytes, sniTail: bytes,
    after: bytes, helloTail: bytes)

  /** Protocol version and random. */
  type Fixed = b: bytes | |b| == 34
    witness [0, 0, 0, 0, 0, 0, 0, 0, 0, 0, 0, 0, 0, 0, 0, 0, 0, 0, 0, 0, 0, 0, 0, 0, 0, 0, 0, 0, 0, 0, 0, 0, 0, 0]

  function NameList(c: ClientHello): bytes {
    NamesBytes(c.names) + ([0] + (Vec16Bytes(c.host) + c.laterNames))
  }

  function SniData(c: ClientHello): bytes
    requires |NameList(c)| < 0x1_0000
  {
    Vec16Bytes(NameList(c)) + c.sniTail
  }

  function ExtensionBlock(c: ClientHello): bytes
    requires |NameList(c)| < 0x1_0000 && |SniData(c)| < 0x1_0000
  {
    ExtensionsBytes(c.before) + (U16Be(0) + (Vec16Bytes(SniData(c)) + c.after))
  }

  /** Host names and extensions other than the first count for nothing, and all lengths fit. */
  ghost predicate WellFormed(c: ClientHello) {
    && (forall i | 0 <= i < |c.names| :: c.names[i].kind != 0)
    && (forall i | 0 <= i < |c.before| :: c.before[i].kind != 0)
    && |NameList(c)| < 0x1_0000 && |SniData(c)| < 0x1_0000 && |ExtensionBlock(c)| < 0x1_0000
    && |HelloBytes(c)| < 0x100_0000
  }

  function HelloBytes(c: ClientHello): bytes
    requires |NameList(c)| < 0x1_0000 && |SniData(c)| < 0x1_0000 && |ExtensionBlock(c)| < 0x1_0000
  {
    c.fixed + (Vec8Bytes(c.session) + (Vec16Bytes(c.suites) + (Vec8Bytes(c.compression)
    + (Vec16Bytes(ExtensionBlock(c)) + c.helloTail))))
  }

  lemma ExtensionsAreRead(c: ClientHello)
    requires WellFormed(c)
    ensures Extensions(HelloBytes(c)) == Some(ExtensionBlock(c))
  {
    hide At, Vec8, Vec16, Vec8Bytes, Vec16Bytes, ExtensionBlock, NameList, SniData;
    var h := HelloBytes(c);
    var p4 := Vec16Bytes(ExtensionBlock(c)) + c.helloTail;
    var p3 := Vec8Bytes(c.compression) + p4;
    var p2 := Vec16Bytes(c.suites) + p3;
    var p1 := Vec8Bytes(c.session) + p2;
    WholeIsAt(c.fixed + p1);
    AtSplit(h, 0, c.fixed, p1);
    AtSplit(h, 34, Vec8Bytes(c.session), p2);
    Vec8IsRead(h, 34, c.session);
    Vec8Length(c.session);
    var o2 := 35 + |c.session|;
    AtSplit(h, o2, Vec16Bytes(c.suites), p3);
    Vec16IsRead(h, o2, c.suites);
    Vec16Length(c.suites);
    var o3 := o2 + 2 + |c.suites|;
    AtSplit(h, o3, Vec8Bytes(c.compression), p4);
    Vec8IsRead(h, o3, c.compression);
    Vec8Length(c.compression);
    var o4 := o3 + 1 + |c.compression|;
    AtSplit(h, o4, Vec16Bytes(ExtensionBlock(c)), c.helloTail);
    Vec16IsRead(h, o4, ExtensionBlock(c));
  }

  lemma Vec8Length(v: Bytes8)
    ensures |Vec8Bytes(v)| == 1 + |v|
  {
  }

  lemma WholeIsAt(b: bytes)
    ensures At(b, 0, b)
  {
    assert b[0..|b|] == b;
  }

  function U24Be(n: nat): (b: bytes)
    requires n < 0x100_0000
  {
    [n / 0x1_0000, n / 256 % 256, n % 256]
  }

  /** A handshake record: any record version, anything after the hello and after the record. */
  function RecordBody(c: ClientHello, bodyTail: bytes): bytes
    requires WellFormed(c)
  {
    [0x01] + U24Be(|HelloBytes(c)|) + HelloBytes(c) + bodyTail
  }

  function RecordBytes(v0: byte, v1: byte, body: Bytes16, tail: bytes): bytes {
    [0x16, v0, v1] + U16Be(|body|) + body + tail
  }

  lemma HelloIsRead(v0: byte, v1: byte, hello: bytes, bodyTail: bytes, tail: bytes)
    requires |hello| < 0x100_0000 && 4 + |hello| + |bodyTail| < 0x1_0000
    ensures Hello(RecordBytes(v0, v1, [0x01] + U24Be(|hello|) + hello + bodyTail, tail)) == Some(hello)
  {
    var body := [0x01] + U24Be(|hello|) + hello + bodyTail;
    var payload := RecordBytes(v0, v1, body, tail);
    assert payload[3] == U16Be(|body|)[0] && payload[4] == U16Be(|body|)[1];
    assert payload[5..5 + |body|] == body;
    assert body[1] == U24Be(|hello|)[0] && body[2] == U24Be(|hello|)[1] && body[3] == U24Be(|hello|)[2];
    U24RoundTrip(|hello|);
    assert body[4..4 + |hello|] == hello;
  }

  lemma U24RoundTrip(n: nat)
    requires n < 0x100_0000
    ensures var b := U24Be(n); U24(b[0], b[1], b[2]) == n
  {
    assert n / 0x1_0000 == n / 256 / 256;
  }

  /**
   For every well-formed ClientHello in one record, whatever surrounds the server name, the
   reader returns the sanitized first host_name, or nothing if that is not UTF-8.
   */
  lemma SniffInvertsLayout(c: ClientHello, v0: byte, v1: byte, bodyTail: bytes, tail: bytes, decode: Utf8Decode)
    requires WellFormed(c) && |RecordBody(c, bodyTail)| < 0x1_0000
    ensures Sniffed(RecordBytes(v0, v1, RecordBody(c, bodyTail), tail), decode)
         == match decode(c.host)
            case None => None
            case Some(text) => Sanitized(text)
  {
    hide Hello, Extensions, FindSni, HelloBytes, Sanitized, NamesBytes, ExtensionsBytes, Vec16Bytes, HostName, Vec16;
    HelloIsRead(v0, v1, HelloBytes(c), bodyTail, tail);
    ExtensionsAreRead(c);
    WholeIsAt(ExtensionBlock(c));
    SniIsFound(ExtensionBlock(c), 0, c.before, SniData(c), c.after, decode);
    WholeIsAt(SniData(c));
    AtSplit(SniData(c), 0, Vec16Bytes(NameList(c)), c.sniTail);
    Vec16IsRead(SniData(c), 0, NameList(c));
    WholeIsAt(NameList(c));
    HostNameIsFound(NameList(c), 0, c.names, c.host, c.laterNames);
  }

  // ---------- And nothing but that layout ----------

  lemma Vec16Stands(input: bytes, offset: nat)
    requires Vec16(input, offset).Some?
    ensures var v := Vec16(input, offset).value;
            && |v.data| < 0x1_0000 && v.end == offset + 2 + |v.data| <= |input|
            && input[offset..] == Vec16Bytes(v.data) + input[v.end..]
  {
    var v := Vec16(input, offset).value;
    assert U16Be(|v.data|) == input[offset..offset + 2];
  }

  lemma Vec8Stands(input: bytes, offset: nat)
    requires Vec8(input, offset).Some?
    ensures var v := Vec8(input, offset).value;
            && |v.data| < 256 && v.end == offset + 1 + |v.data| <= |input|
            && input[offset..] == Vec8Bytes(v.data) + input[v.end..]
  {
  }

  lemma {:induction false} NamesBefore(list: bytes, offset: nat) returns (names: seq<Name>, rest: bytes)
    requires HostName(list, offset).Some? && |list| < 0x1_0000
    ensures forall i | 0 <= i < |names| :: names[i].kind != 0
    ensures offset <= |list| && |HostName(list, offset).value| < 0x1_0000
    ensures list[offset..] == NamesBytes(names) + ([0] + (Vec16Bytes(HostName(list, offset).value) + rest))
    decreases |list| - offset
  {
    hide Vec16, Vec16Bytes;
    Vec16Stands(list, offset + 1);
    var v := Vec16(list, offset + 1).value;
    assert list[offset..] == [list[offset]] + list[offset + 1..];
    if list[offset] == 0 {
      names, rest := [], list[v.end..];
      assert NamesBytes([]) == [];
    } else {
      var more;
      more, rest := NamesBefore(list, v.end);
      names := [Name(list[offset], v.data)] + more;
      assert names[1..] == more;
    }
  }

  lemma {:induction false} ExtensionsBefore(input: bytes, offset: nat, decode: Utf8Decode)
    returns (es: seq<Extension>, sni: bytes, rest: bytes)
    requires FindSni(input, offset, decode).Some? && |input| < 0x1_0000
    ensures forall i | 0 <= i < |es| :: es[i].kind != 0
    ensures offset <= |input| && |sni| < 0x1_0000 && FindSni(input, offset, decode) == SniHost(sni, decode)
    ensures input[offset..] == ExtensionsBytes(es) + (U16Be(0) + (Vec16Bytes(sni) + rest))
    decreases |input| - offset
  {
    hide Vec16, Vec16Bytes, SniHost, U16Be, ReadU16;
    Vec16Stands(input, offset + 2);
    var v := Vec16(input, offset + 2).value;
    var kind := ReadU16(input[offset], input[offset + 1]);
    U16Surjective(input[offset], input[offset + 1]);
    assert input[offset..] == U16Be(kind) + input[offset + 2..];
    if kind == 0 {
      es, sni, rest := [], v.data, input[v.end..];
      assert ExtensionsBytes([]) == [];
    } else {
      var more;
      more, sni, rest := ExtensionsBefore(input, v.end, decode);
      es := [Extension(kind, v.data)] + more;
      assert es[1..] == more;
    }
  }

  lemma HelloStands(hello: bytes)
    returns (fixed: Fixed, session: Bytes8, suites: Bytes16, compression: Bytes8, tail: bytes)
    requires Extensions(hello).Some?
    ensures |Extensions(hello).value| < 0x1_0000
    ensures hello == fixed + (Vec8Bytes(session) + (Vec16Bytes(suites) + (Vec8Bytes(compression)
                     + (Vec16Bytes(Extensions(hello).value) + tail))))
  {
    hide Vec8, Vec16, Vec8Bytes, Vec16Bytes;
    fixed := hello[..34];
    Vec8Stands(hello, 34);
    var a := Vec8(hello, 34).value;
    Vec16Stands(hello, a.end);
    var b := Vec16(hello, a.end).value;
    Vec8Stands(hello, b.end);
    var c := Vec8(hello, b.end).value;
    Vec16Stands(hello, c.end);
    var d := Vec16(hello, c.end).value;
    session, suites, compression, tail := a.data, b.data, c.data, hello[d.end..];
    assert hello == hello[..34] + hello[34..];
  }

  lemma RecordStands(payload: bytes) returns (v0: byte, v1: byte, bodyTail: bytes, tail: bytes)
    requires Hello(payload).Some?
    ensures var hello := Hello(payload).value;
            && 4 + |hello| + |bodyTail| < 0x1_0000
            && payload == RecordBytes(v0, v1, [0x01] + U24Be(|hello|) + hello + bodyTail, tail)
  {
    hide U24, U24Be, ReadU16, U16Be;
    var n := ReadU16(payload[3], payload[4]);
    var body := payload[5..5 + n];
    var hello := Hello(payload).value;
    v0, v1, bodyTail, tail := payload[1], payload[2], body[4 + |hello|..], payload[5 + n..];
    U24Stands(body[1], body[2], body[3]);
    assert body == [0x01] + U24Be(|hello|) + hello + bodyTail by {
      assert body == body[..4] + body[4..4 + |hello|] + body[4 + |hello|..];
      assert body[..4] == [body[0], body[1], body[2], body[3]];
    }
    U16Surjective(payload[3], payload[4]);
    assert payload == payload[..5] + payload[5..5 + n] + payload[5 + n..];
    assert payload[..5] == [payload[0], payload[1], payload[2], payload[3], payload[4]];
  }

  lemma U24Stands(b0: byte, b1: byte, b2: byte)
    ensures U24(b0, b1, b2) < 0x100_0000 && U24Be(U24(b0, b1, b2)) == [b0, b1, b2]
  {
    var n := U24(b0, b1, b2);
    DivUnique(n, 256, b0 * 256 + b1, b2);
    DivUnique(n / 256, 256, b0, b1);
    DivUnique(n, 0x1_0000, b0, b1 * 256 + b2);
  }

  lemma SniStands(sni: bytes, decode: Utf8Decode) returns (names: seq<Name>, host: Bytes16, rest: bytes, tail: bytes)
    requires SniHost(sni, decode).Some? && |sni| < 0x1_0000
    ensures forall i | 0 <= i < |names| :: names[i].kind != 0
    ensures var list := NamesBytes(names) + ([0] + (Vec16Bytes(host) + rest));
            |list| < 0x1_0000 && sni == Vec16Bytes(list) + tail
  {
    hide Vec16, Vec16Bytes, NamesBytes, HostName, Sanitized;
    Vec16Stands(sni, 0);
    var v := Vec16(sni, 0).value;
    names, rest := NamesBefore(v.data, 0);
    host, tail := HostName(v.data, 0).value, sni[v.end..];
    assert v.data[0..] == v.data && sni[0..] == sni;
  }

  /** A server name is only ever returned for a payload that is such a ClientHello. */
  lemma SniffOnlyLayout(payload: bytes, decode: Utf8Decode)
    returns (c: ClientHello, v0: byte, v1: byte, bodyTail: bytes, tail: bytes)
    requires Sniffed(payload, decode).Some?
    ensures WellFormed(c) && |RecordBody(c, bodyTail)| < 0x1_0000
    ensures payload == RecordBytes(v0, v1, RecordBody(c, bodyTail), tail)
  {
    hide Hello, Extensions, FindSni, SniHost, NamesBytes, ExtensionsBytes, Vec16Bytes, Vec8Bytes, U24Be;
    v0, v1, bodyTail, tail := RecordStands(payload);
    var hello := Hello(payload).value;
    var fixed, session, suites, compression, helloTail := HelloStands(hello);
    var block := Extensions(hello).value;
    var before, sni, after := ExtensionsBefore(block, 0, decode);
    assert block[0..] == block;
    var names, host, laterNames, sniTail := SniStands(sni, decode);
    c := ClientHello(fixed, session, suites, compression, before, names, host, laterNames, sniTail, after, helloTail);
    assert SniData(c) == sni && ExtensionBlock(c) == block && HelloBytes(c) == hello;
    U24Length(|hello|);
  }

  lemma U24Length(n: nat)
    requires n < 0x100_0000
    ensures |U24Be(n)| == 3
  {
  }
}
