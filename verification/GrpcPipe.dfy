/**
 The gRPC tunnel: writes become length-prefixed messages, travel as HTTP/2 DATA cut by
 flow control, and come back through an incremental decoder and a buffered reader. The
 main result is that the whole of it is a FIFO byte pipe.
 */
module GrpcPipe {
  import opened Wrappers
  import opened Bytes
  import opened Hunk

  const MAX_GRPC_MESSAGE_SIZE: nat := 16 * 1024 * 1024

  // ---------- Length-prefixed messages ----------

  function FrameBytes(payload: bytes): bytes {
    var message := MessageBytes(payload);
    [0] + U32Be(|message| % 0x1_0000_0000) + message
  }

  function FramesBytes(payloads: seq<bytes>): bytes {
    if payloads == [] then [] else FrameBytes(payloads[0]) + FramesBytes(payloads[1..])
  }

  method EncodeGrpcHunk(payload: bytes) returns (output: bytes)
    ensures output == FrameBytes(payload)
  {
    var message := EncodeHunkMessage(payload);
    output := [0];
    output := output + U32Be(|message| % 0x1_0000_0000);
    output := output + message;
  }

  datatype Taken = Taken(message: bytes, rest: bytes)

  /** Cut one complete message off the front, if the buffer holds one. */
  function Take(buffer: bytes): (r: Result<Option<Taken>, ErrorKind>)
    ensures r.Ok? && r.value.Some? ==> |r.value.value.rest| < |buffer|
  {
    if |buffer| < 5 then Ok(None)
    else if buffer[0] != 0 then Err(Unsupported)
    else
      var len := ReadU32(buffer[1], buffer[2], buffer[3], buffer[4]);
      if len > MAX_GRPC_MESSAGE_SIZE then Err(InvalidData)
      else if |buffer| < 5 + len then Ok(None)
      else Ok(Some(Taken(buffer[5..5 + len], buffer[5 + len..])))
  }

  /** Drains the message from the buffer it is given; `rest` is that buffer afterwards. */
  method TakeGrpcMessage(buffer: bytes) returns (r: Result<Option<bytes>, ErrorKind>, rest: bytes)
    ensures match Take(buffer)
            case Err(e) => r == Err(e) && rest == buffer
            case Ok(None) => r == Ok(None) && rest == buffer
            case Ok(Some(t)) => r == Ok(Some(t.message)) && rest == t.rest
  {
    rest := buffer;
    if |buffer| < 5 {
      return Ok(None), rest;
    }
    if buffer[0] != 0 {
      return Err(Unsupported), rest;
    }
    var len := ReadU32(buffer[1], buffer[2], buffer[3], buffer[4]);
    if len > MAX_GRPC_MESSAGE_SIZE {
      return Err(InvalidData), rest;
    }
    if |buffer| < 5 + len {
      return Ok(None), rest;
    }
    var message := buffer[5..5 + len];
    rest := rest[5 + len..];
    return Ok(Some(message)), rest;
  }

  // ---------- The incremental decoder ----------

  datatype Drained = Drained(sent: seq<bytes>, rest: bytes, failure: Option<ErrorKind>)

  /** Decode every complete message at the front of the buffer. */
  function Drain(buffer: bytes): Drained
    decreases |buffer|
  {
    match Take(buffer)
    case Err(e) => Drained([], buffer, Some(e))
    case Ok(None) => Drained([], buffer, None)
    case Ok(Some(t)) =>
      match DecodeMessage(t.message)
      case Err(e) => Drained([], t.rest, Some(e))
      case Ok(data) =>
        var more := Drain(t.rest);
        more.(sent := [data] + more.sent)
  }

  function FeedAll(buffer: bytes, chunks: seq<bytes>): Drained
    decreases |chunks|
  {
    if chunks == [] then Drained([], buffer, None)
    else
      var d := Drain(buffer + chunks[0]);
      if d.failure.Some? then d
      else
        var more := FeedAll(d.rest, chunks[1..]);
        more.(sent := d.sent + more.sent)
  }

  /** What the loop has sent on when the receiver takes `room` more payloads and then is gone. */
  function Received(d: Drained, room: nat): seq<bytes> {
    if |d.sent| <= room then d.sent else d.sent[..room]
  }

  /** The inner loop: take, decode and send on while the buffer holds complete messages. */
  method DrainBuffer(buffer: bytes, room: nat) returns (d: Drained, hungUp: bool)
    ensures hungUp <==> |Drain(buffer).sent| > room
    ensures !hungUp ==> d == Drain(buffer)
    ensures hungUp ==> d.failure.None?
    ensures d.sent == Received(Drain(buffer), room)
  {
    hide Take, DecodeMessage, Drain;
    var left := buffer;
    var sent: seq<bytes> := [];
    while true
      invariant |sent| <= room
      invariant sent + Drain(left).sent == Drain(buffer).sent
      invariant Drain(left).rest == Drain(buffer).rest && Drain(left).failure == Drain(buffer).failure
      decreases |left|
    {
      TakeShrinks(left);
      DrainUnfolds(left);
      var r, rest := TakeGrpcMessage(left);
      if r.Err? {
        return Drained(sent, left, Some(r.error)), false;
      }
      if r.value.None? {
        return Drained(sent, left, None), false;
      }
      left := rest;
      var data := DecodeHunkMessage(r.value.value);
      if data.Err? {
        return Drained(sent, left, Some(data.error)), false;
      }
      if |sent| == room {
        assert sent <= Drain(buffer).sent;
        return Drained(sent, left, None), true;
      }
      assert sent + ([data.value] + Drain(left).sent) == (sent + [data.value]) + Drain(left).sent;
      sent := sent + [data.value];
    }
  }

  /**
   Chunks arrive one by one; what is sent on is the channel to the reader. A reader that is
   gone after `room` payloads ends the loop without an error.
   */
  method ReadGrpcHunks(chunks: seq<bytes>, room: nat) returns (d: Drained)
    ensures |FeedAll([], chunks).sent| <= room ==> d == FeedAll([], chunks)
    ensures |FeedAll([], chunks).sent| > room ==> d.failure.None?
    ensures d.sent == Received(FeedAll([], chunks), room)
  {
    hide Drain;
    var buffer: bytes, sent: seq<bytes> := [], [];
    for i := 0 to |chunks|
      invariant |sent| <= room
      invariant var more := FeedAll(buffer, chunks[i..]);
                FeedAll([], chunks) == more.(sent := sent + more.sent)
    {
      assert chunks[i..][0] == chunks[i] && chunks[i..][1..] == chunks[i + 1..];
      ghost var whole := Drain(buffer + chunks[i]);
      var hungUp;
      d, hungUp := DrainBuffer(buffer + chunks[i], room - |sent|);
      if hungUp || d.failure.Some? {
        assert whole.sent <= FeedAll(buffer, chunks[i..]).sent;
        return d.(sent := sent + d.sent);
      }
      ghost var after := FeedAll(d.rest, chunks[i + 1..]);
      assert sent + (d.sent + after.sent) == (sent + d.sent) + after.sent;
      buffer, sent := d.rest, sent + d.sent;
    }
    return Drained(sent, buffer, None);
  }

  lemma {:induction false} DrainUnfolds(buffer: bytes)
    ensures match Take(buffer)
            case Err(e) => Drain(buffer) == Drained([], buffer, Some(e))
            case Ok(None) => Drain(buffer) == Drained([], buffer, None)
            case Ok(Some(t)) =>
              match DecodeMessage(t.message)
              case Err(e) => Drain(buffer) == Drained([], t.rest, Some(e))
              case Ok(data) =>
                Drain(buffer) == Drain(t.rest).(sent := [data] + Drain(t.rest).sent)
  {
    hide DecodeMessage;
  }

  lemma TakeShrinks(buffer: bytes)
    ensures var r := Take(buffer); r.Ok? && r.value.Some? ==> |r.value.value.rest| < |buffer|
  {
  }

  lemma TakeIsStable(a: bytes, b: bytes)
    ensures match Take(a)
            case Err(e) => Take(a + b) == Err(e)
            case Ok(None) => true
            case Ok(Some(t)) => Take(a + b) == Ok(Some(Taken(t.message, t.rest + b)))
  {
    match Take(a)
    case Err(e) =>
    case Ok(None) =>
    case Ok(Some(t)) =>
      var len := ReadU32(a[1], a[2], a[3], a[4]);
      assert (a + b)[5..5 + len] == a[5..5 + len];
      assert (a + b)[5 + len..] == a[5 + len..] + b;
  }

  /** Bytes that come later never change what was decoded, nor an error already met. */
  lemma {:induction false} DrainExtends(a: bytes, b: bytes)
    ensures var d, e := Drain(a), Drain(a + b);
            if d.failure.Some? then e.sent == d.sent && e.failure == d.failure
            else
              var more := Drain(d.rest + b);
              e == more.(sent := d.sent + more.sent)
    decreases |a|
  {
    hide Take, DecodeMessage;
    TakeIsStable(a, b);
    TakeShrinks(a);
    match Take(a)
    case Err(e) =>
    case Ok(None) =>
      assert Drain(a).sent + Drain(a + b).sent == Drain(a + b).sent;
    case Ok(Some(t)) =>
      if DecodeMessage(t.message).Ok? {
        DrainExtends(t.rest, b);
        var data := DecodeMessage(t.message).value;
        var d, e := Drain(t.rest), Drain(t.rest + b);
        assert Drain(a) == d.(sent := [data] + d.sent);
        assert Drain(a + b) == e.(sent := [data] + e.sent);
      }
  }

  lemma {:induction false} DrainSettles(buffer: bytes)
    ensures var d := Drain(buffer); d.failure.None? ==> Take(d.rest) == Ok(None)
    decreases |buffer|
  {
    match Take(buffer)
    case Err(e) =>
    case Ok(None) =>
    case Ok(Some(t)) =>
      if DecodeMessage(t.message).Ok? {
        DrainSettles(t.rest);
      }
  }

  lemma NothingToDrain(buffer: bytes)
    requires Take(buffer) == Ok(None)
    ensures Drain(buffer) == Drained([], buffer, None)
  {
  }

  /** Two cuts of one byte stream agree: same payloads, same failure, same bytes pending. */
  ghost predicate Agree(d: Drained, e: Drained) {
    d.sent == e.sent && d.failure == e.failure && (d.failure.None? ==> d.rest == e.rest)
  }

  /** For every byte stream, valid or not, the cut into chunks does not matter. */
  lemma {:induction false} ChunkingIsInvisible(buffer: bytes, chunks: seq<bytes>)
    requires Take(buffer) == Ok(None)
    ensures Agree(FeedAll(buffer, chunks), Drain(buffer + Concat(chunks)))
    decreases |chunks|
  {
    hide Drain, Take;
    if chunks == [] {
      assert buffer + Concat(chunks) == buffer;
      NothingToDrain(buffer);
    } else {
      var first := buffer + chunks[0];
      DrainExtends(first, Concat(chunks[1..]));
      assert buffer + Concat(chunks) == first + Concat(chunks[1..]);
      if Drain(first).failure.None? {
        DrainSettles(first);
        ChunkingIsInvisible(Drain(first).rest, chunks[1..]);
      }
    }
  }

  lemma FrameLayout(message: bytes, rest: bytes)
    requires |message| < 0x1_0000_0000
    ensures var buffer := [0] + U32Be(|message|) + message + rest;
            && buffer[0] == 0 && |buffer| == 5 + |message| + |rest|
            && ReadU32(buffer[1], buffer[2], buffer[3], buffer[4]) == |message|
            && buffer[5..5 + |message|] == message && buffer[5 + |message|..] == rest
  {
    U32RoundTrip(|message|);
    var len := U32Be(|message|);
    var buffer := [0] + len + message + rest;
    assert buffer[1] == len[0] && buffer[2] == len[1] && buffer[3] == len[2] && buffer[4] == len[3];
  }

  lemma FrameIsTaken(payload: bytes, rest: bytes)
    requires |MessageBytes(payload)| <= MAX_GRPC_MESSAGE_SIZE
    ensures Take(FrameBytes(payload) + rest) == Ok(Some(Taken(MessageBytes(payload), rest)))
  {
    hide MessageBytes, U32Be, ReadU32;
    FrameLayout(MessageBytes(payload), rest);
  }

  lemma {:induction false} FramesAreDecoded(payloads: seq<bytes>)
    requires forall p | p in payloads :: |MessageBytes(p)| <= MAX_GRPC_MESSAGE_SIZE
    ensures Drain(FramesBytes(payloads)) == Drained(payloads, [], None)
    decreases |payloads|
  {
    if payloads != [] {
      FrameIsTaken(payloads[0], FramesBytes(payloads[1..]));
      MessageRoundTrip(payloads[0]);
      FramesAreDecoded(payloads[1..]);
    }
  }

  /** One byte more than the limit and the receiver refuses the message. */
  lemma OversizeIsRefused(payload: bytes, rest: bytes)
    requires MAX_GRPC_MESSAGE_SIZE < |MessageBytes(payload)| < 0x1_0000_0000
    ensures Drain(FrameBytes(payload) + rest)
         == Drained([], FrameBytes(payload) + rest, Some(InvalidData))
  {
    hide MessageBytes, U32Be, ReadU32, DecodeMessage;
    FrameLayout(MessageBytes(payload), rest);
    var buffer := FrameBytes(payload) + rest;
    assert Take(buffer) == Err(InvalidData);
    hide Take, FrameBytes, Drain;
    DrainUnfolds(buffer);
  }

  /** No payload delivered is longer than the limit, so a length that wrapped around shows. */
  lemma {:induction false} DeliveredIsSmall(buffer: bytes)
    ensures forall p | p in Drain(buffer).sent :: |p| <= MAX_GRPC_MESSAGE_SIZE
    decreases |buffer|
  {
    match Take(buffer)
    case Err(e) =>
    case Ok(None) =>
    case Ok(Some(t)) =>
      if DecodeMessage(t.message).Ok? {
        PayloadIsInMessage(t.message);
        DeliveredIsSmall(t.rest);
      }
  }

  lemma MessageIsShort(payload: bytes)
    ensures |MessageBytes(payload)| <= 2 * |payload| + 2
  {
    VarintIsShort(|payload|);
  }

  /** The size limit is exact: a payload is delivered if and only if its message fits. */
  lemma FrameDecodeExact(payload: bytes)
    ensures Drain(FrameBytes(payload)) == Drained([payload], [], None)
       <==> |MessageBytes(payload)| <= MAX_GRPC_MESSAGE_SIZE
  {
    hide MessageBytes, FrameBytes, Drain;
    if |MessageBytes(payload)| <= MAX_GRPC_MESSAGE_SIZE {
      FramesAreDecoded([payload]);
      assert FramesBytes([payload]) == FrameBytes(payload);
    } else if |MessageBytes(payload)| < 0x1_0000_0000 {
      OversizeIsRefused(payload, []);
      assert FrameBytes(payload) + [] == FrameBytes(payload);
    } else {
      DeliveredIsSmall(FrameBytes(payload));
      assert |MessageBytes(payload)| <= 2 * |payload| + 2 by { MessageIsShort(payload); }
      assert payload in [payload];
    }
  }

  /** A connection cut anywhere has delivered a prefix of the payloads, and no error. */
  lemma CutStreamDeliversPrefix(payloads: seq<bytes>, wire: bytes)
    requires forall p | p in payloads :: |MessageBytes(p)| <= MAX_GRPC_MESSAGE_SIZE
    requires wire <= FramesBytes(payloads)
    ensures Drain(wire).failure.None? && Drain(wire).sent <= payloads
  {
    var rest := FramesBytes(payloads)[|wire|..];
    assert wire + rest == FramesBytes(payloads);
    FramesAreDecoded(payloads);
    DrainExtends(wire, rest);
  }

  // ---------- Sending under flow control ----------

  /** One answer of the HTTP/2 library to "how much may I send". */
  datatype Poll = Capacity(n: nat) | PollError

  datatype Sent = Sent(chunks: seq<bytes>, result: Result<(), ErrorKind>)

  /** Non-empty data leaves in pieces no larger than the capacity just granted. */
  function Sends(data: bytes, polls: seq<Poll>): Sent
    decreases |polls|
  {
    if data == [] then Sent([], Ok(()))
    else if polls == [] then Sent([], Err(BrokenPipe))
    else
      match polls[0]
      case PollError => Sent([], Err(Other))
      case Capacity(n) =>
        if n == 0 then Sends(data, polls[1..])
        else
          var len := if n < |data| then n else |data|;
          var more := Sends(data[len..], polls[1..]);
          more.(chunks := [data[..len]] + more.chunks)
  }

  /** `ends[i]` is the end-of-stream flag of chunk i; an empty body is one empty chunk. */
  method SendGrpcData(data: bytes, endStream: bool, polls: seq<Poll>)
    returns (s: Sent, ends: seq<bool>)
    ensures data == [] ==> s == Sent([[]], Ok(())) && ends == [endStream]
    ensures data != [] ==> s == Sends(data, polls)
    ensures |ends| == |s.chunks|
    ensures forall i | 0 <= i < |ends| ::
              ends[i] == (endStream && s.result.Ok? && i == |ends| - 1)
  {
    if data == [] {
      return Sent([[]], Ok(())), [endStream];
    }
    var left, chunks: seq<bytes>, at := data, [], 0;
    ends := [];
    while left != []
      invariant 0 <= at <= |polls|
      invariant var more := Sends(left, polls[at..]);
                Sends(data, polls) == more.(chunks := chunks + more.chunks)
      invariant |ends| == |chunks|
      invariant left == [] ==> chunks != []
      invariant forall i | 0 <= i < |ends| :: ends[i] == (endStream && left == [] && i == |ends| - 1)
      decreases |polls| - at
    {
      if at == |polls| {
        return Sent(chunks, Err(BrokenPipe)), ends;
      }
      var poll := polls[at];
      assert polls[at..][0] == poll && polls[at..][1..] == polls[at + 1..];
      at := at + 1;
      match poll
      case PollError =>
        return Sent(chunks, Err(Other)), ends;
      case Capacity(n) =>
        if n > 0 {
          var len := if n < |left| then n else |left|;
          ghost var more := Sends(left[len..], polls[at..]).chunks;
          assert chunks + ([left[..len]] + more) == (chunks + [left[..len]]) + more;
          chunks := chunks + [left[..len]];
          left := left[len..];
          ends := ends + [endStream && left == []];
        }
    }
    return Sent(chunks, Ok(())), ends;
  }

  /** Whatever the capacities, all of the data leaves in order, or a proper part of it. */
  lemma {:induction false} CapacityKeepsBytes(data: bytes, polls: seq<Poll>)
    ensures var s := Sends(data, polls);
            Concat(s.chunks) <= data && (s.result.Ok? <==> Concat(s.chunks) == data)
    ensures forall c | c in Sends(data, polls).chunks :: c != []
    decreases |polls|
  {
    if data != [] && polls != [] && polls[0].Capacity? {
      var n := polls[0].n;
      if n == 0 {
        CapacityKeepsBytes(data, polls[1..]);
      } else {
        var len := if n < |data| then n else |data|;
        CapacityKeepsBytes(data[len..], polls[1..]);
        assert data == data[..len] + data[len..];
      }
    }
  }

  /** The writer task: every queued payload is framed and sent, until a send fails. */
  function SendsAll(payloads: seq<bytes>, polls: seq<seq<Poll>>): Sent
    requires |polls| == |payloads|
    decreases |payloads|
  {
    if payloads == [] then Sent([], Ok(()))
    else
      var first := Sends(FrameBytes(payloads[0]), polls[0]);
      if first.result.Err? then first
      else
        var more := SendsAll(payloads[1..], polls[1..]);
        more.(chunks := first.chunks + more.chunks)
  }

  /** Trailers close the stream after the last payload, and only then; they may fail too. */
  method WriteGrpcHunks(payloads: seq<bytes>, polls: seq<seq<Poll>>, trailersFail: bool)
    returns (s: Sent, trailers: bool)
    requires |polls| == |payloads|
    ensures var all := SendsAll(payloads, polls);
            && s.chunks == all.chunks && (trailers <==> all.result.Ok?)
            && s.result == if trailers && trailersFail then Err(Other) else all.result
  {
    hide FrameBytes, Sends;
    trailers := false;
    var chunks: seq<bytes> := [];
    for i := 0 to |payloads|
      invariant var more := SendsAll(payloads[i..], polls[i..]);
                SendsAll(payloads, polls) == more.(chunks := chunks + more.chunks)
    {
      assert payloads[i..][0] == payloads[i] && payloads[i..][1..] == payloads[i + 1..];
      assert polls[i..][0] == polls[i] && polls[i..][1..] == polls[i + 1..];
      var frame := EncodeGrpcHunk(payloads[i]);
      assert frame != [] by { FrameIsNonEmpty(payloads[i]); }
      var one, _ := SendGrpcData(frame, false, polls[i]);
      ghost var more := SendsAll(payloads[i + 1..], polls[i + 1..]);
      assert chunks + (one.chunks + more.chunks) == (chunks + one.chunks) + more.chunks;
      chunks := chunks + one.chunks;
      if one.result.Err? {
        return Sent(chunks, one.result), false;
      }
    }
    return Sent(chunks, if trailersFail then Err(Other) else Ok(())), true;
  }

  /** What leaves is a prefix of the frames, and all of them exactly when no send failed. */
  lemma {:induction false} WritesAreFrames(payloads: seq<bytes>, polls: seq<seq<Poll>>)
    requires |polls| == |payloads|
    ensures var s := SendsAll(payloads, polls);
            && Concat(s.chunks) <= FramesBytes(payloads)
            && (s.result.Ok? <==> Concat(s.chunks) == FramesBytes(payloads))
    decreases |payloads|
  {
    if payloads != [] {
      hide FrameBytes, Sends, Concat;
      var first := Sends(FrameBytes(payloads[0]), polls[0]);
      CapacityKeepsBytes(FrameBytes(payloads[0]), polls[0]);
      if first.result.Ok? {
        WritesAreFrames(payloads[1..], polls[1..]);
        ConcatAppend(first.chunks, SendsAll(payloads[1..], polls[1..]).chunks);
        SamePrefix(FrameBytes(payloads[0]), Concat(SendsAll(payloads[1..], polls[1..]).chunks),
                   FramesBytes(payloads[1..]));
      }
    }
  }

  lemma SamePrefix(a: bytes, b: bytes, c: bytes)
    ensures b <= c ==> a + b <= a + c
    ensures b == c <==> a + b == a + c
  {
    assert b == (a + b)[|a|..] && c == (a + c)[|a|..];
  }

  lemma FrameIsNonEmpty(payload: bytes)
    ensures FrameBytes(payload) != []
  {
  }

  // ---------- The two ends ----------

  /** Empty writes are not queued. */
  function Queue(writes: seq<bytes>): seq<bytes> {
    if writes == [] then []
    else (if writes[0] == [] then [] else [writes[0]]) + Queue(writes[1..])
  }

  class GrpcHunkWriter {
    var tx: seq<bytes>
    var closed: bool

    constructor ()
      ensures tx == [] && !closed
    {
      tx := [];
      closed := false;
    }

    method Write(input: bytes) returns (r: Result<nat, ErrorKind>)
      modifies this
      ensures closed == old(closed)
      ensures input != [] && closed ==> r == Err(BrokenPipe) && tx == old(tx)
      ensures input == [] || !closed ==> r == Ok(|input|) && tx == old(tx) + Queue([input])
    {
      if input == [] {
        return Ok(0);
      }
      if closed {
        return Err(BrokenPipe);
      }
      tx := tx + [input];
      return Ok(|input|);
    }
  }

  lemma {:induction false} QueueKeepsBytes(writes: seq<bytes>)
    ensures Concat(Queue(writes)) == Concat(writes)
    ensures forall p | p in Queue(writes) :: p in writes
  {
    if writes != [] {
      QueueKeepsBytes(writes[1..]);
      ConcatAppend(if writes[0] == [] then [] else [writes[0]], Queue(writes[1..]));
      assert Concat([writes[0]]) == writes[0];
    }
  }

  /** The messages still to come before the channel closes, and the partly read one. */
  datatype Reader = Reader(rx: seq<bytes>, buffer: bytes)

  function Pending(r: Reader): bytes {
    r.buffer + Concat(r.rx)
  }

  function Refill(r: Reader): Reader
    decreases |r.rx|
  {
    if r.buffer == [] && r.rx != [] then Refill(Reader(r.rx[1..], r.rx[0])) else r
  }

  function ReadOnce(r: Reader, size: nat): (bytes, Reader) {
    if size == 0 then ([], r)
    else
      var f := Refill(r);
      var len := if size < |f.buffer| then size else |f.buffer|;
      (f.buffer[..len], Reader(f.rx, f.buffer[len..]))
  }

  function ReadAll(r: Reader, sizes: seq<nat>): (bytes, Reader)
    decreases |sizes|
  {
    if sizes == [] then ([], r)
    else
      var (got, next) := ReadOnce(r, sizes[0]);
      var (more, last) := ReadAll(next, sizes[1..]);
      (got + more, last)
  }

  ghost predicate AllPositive(sizes: seq<nat>) {
    forall i | 0 <= i < |sizes| :: sizes[i] > 0
  }

  class GrpcHunkReader {
    var rx: seq<bytes>
    var buffer: bytes

    constructor (incoming: seq<bytes>)
      ensures rx == incoming && buffer == []
    {
      rx := incoming;
      buffer := [];
    }

    /** Fills a prefix of `output`; 0 means an empty `output` or the end of the stream. */
    method Read(output: array<byte>) returns (n: nat)
      modifies this, output
      ensures n <= output.Length && output[n..] == old(output[n..])
      ensures (output[..n], Reader(rx, buffer)) == ReadOnce(old(Reader(rx, buffer)), output.Length)
      ensures n == 0 <==> output.Length == 0 || Pending(old(Reader(rx, buffer))) == []
    {
      ghost var start := Reader(rx, buffer);
      ReadOnceIsFifo(start, output.Length);
      if output.Length == 0 {
        return 0;
      }
      while buffer == []
        invariant unchanged(output)
        invariant Refill(Reader(rx, buffer)) == Refill(start)
        decreases |rx|, |buffer| == 0
      {
        if rx == [] {
          return 0;
        }
        buffer := rx[0];
        rx := rx[1..];
      }
      n := if output.Length < |buffer| then output.Length else |buffer|;
      forall i | 0 <= i < n {
        output[i] := buffer[i];
      }
      assert output[..n] == buffer[..n];
      buffer := buffer[n..];
    }
  }

  lemma {:induction false} RefillKeepsPending(r: Reader)
    ensures Pending(Refill(r)) == Pending(r)
    ensures Refill(r).buffer == [] <==> Pending(r) == []
    decreases |r.rx|
  {
    if r.buffer == [] && r.rx != [] {
      RefillKeepsPending(Reader(r.rx[1..], r.rx[0]));
    }
  }

  lemma ReadOnceIsFifo(r: Reader, size: nat)
    ensures var (got, next) := ReadOnce(r, size);
            && got + Pending(next) == Pending(r) && |got| <= size
            && (got == [] <==> size == 0 || Pending(r) == [])
  {
    RefillKeepsPending(r);
    var f := Refill(r);
    var len := if size < |f.buffer| then size else |f.buffer|;
    assert f.buffer == f.buffer[..len] + f.buffer[len..];
  }

  /** Any sequence of reads returns the pending bytes in order, and enough reads all of them. */
  lemma {:induction false} ReadsAreFifo(r: Reader, sizes: seq<nat>)
    ensures var (got, last) := ReadAll(r, sizes); got + Pending(last) == Pending(r)
    ensures AllPositive(sizes) && |sizes| >= |Pending(r)|
            ==> ReadAll(r, sizes).0 == Pending(r)
    decreases |sizes|
  {
    if sizes != [] {
      var (got, next) := ReadOnce(r, sizes[0]);
      ReadOnceIsFifo(r, sizes[0]);
      ReadsAreFifo(next, sizes[1..]);
      assert Pending(r) != [] && sizes[0] > 0 ==> |Pending(next)| < |Pending(r)|;
    }
  }

  // ---------- End to end ----------

  /**
   The tunnel is a FIFO byte pipe: for any writes whose messages fit, any capacities, any
   part of the sent bytes received in any chunks, and any read sizes, the reader gets a prefix
   of the bytes written; once every send has succeeded and all has arrived, enough reads get
   exactly those bytes.
   */
  lemma TunnelIsFifo(writes: seq<bytes>, polls: seq<seq<Poll>>, chunks: seq<bytes>, sizes: seq<nat>)
    requires forall w | w in writes :: |MessageBytes(w)| <= MAX_GRPC_MESSAGE_SIZE
    requires |polls| == |Queue(writes)|
    requires Concat(chunks) <= Concat(SendsAll(Queue(writes), polls).chunks)
    ensures FeedAll([], chunks).failure.None?
    ensures ReadAll(Reader(FeedAll([], chunks).sent, []), sizes).0 <= Concat(writes)
    ensures SendsAll(Queue(writes), polls).result.Ok?
            && Concat(chunks) == Concat(SendsAll(Queue(writes), polls).chunks)
            && AllPositive(sizes) && |sizes| >= |Concat(writes)|
            ==> ReadAll(Reader(FeedAll([], chunks).sent, []), sizes).0 == Concat(writes)
  {
    hide MessageBytes, ReadAll, FeedAll, FramesBytes, Queue, Concat, AllPositive, Pending, SendsAll;
    QueueKeepsBytes(writes);
    WritesAreFrames(Queue(writes), polls);
    ChunksDeliverPrefix(Queue(writes), chunks);
    var sent := FeedAll([], chunks).sent;
    ConcatOfPrefix(sent, Queue(writes));
    ReadsAreFifo(Reader(sent, []), sizes);
    PendingOfQueue(sent);
    var (got, last) := ReadAll(Reader(sent, []), sizes);
    PrefixOfPrefix(got, Pending(last), Concat(writes));
  }

  lemma ConcatOfPrefix(a: seq<bytes>, b: seq<bytes>)
    requires a <= b
    ensures Concat(a) <= Concat(b)
  {
    assert b == a + b[|a|..];
    ConcatAppend(a, b[|a|..]);
  }

  lemma PrefixOfPrefix(a: bytes, b: bytes, c: bytes)
    requires a + b <= c
    ensures a <= c
  {
    assert a == (a + b)[..|a|] == c[..|a|];
  }

  /** In any chunks, a part of the wire is a prefix of the payloads, and all of it is all of them. */
  lemma ChunksDeliverPrefix(payloads: seq<bytes>, chunks: seq<bytes>)
    requires forall p | p in payloads :: |MessageBytes(p)| <= MAX_GRPC_MESSAGE_SIZE
    requires Concat(chunks) <= FramesBytes(payloads)
    ensures FeedAll([], chunks).failure.None? && FeedAll([], chunks).sent <= payloads
    ensures Concat(chunks) == FramesBytes(payloads) ==> FeedAll([], chunks).sent == payloads
  {
    hide MessageBytes, FeedAll, Drain, Take, FramesBytes, Concat;
    var wire := Concat(chunks);
    assert Take([]) == Ok(None) by { TakeOfNothing(); }
    ChunkingIsInvisible([], chunks);
    assert [] + wire == wire;
    CutStreamDeliversPrefix(payloads, wire);
    if wire == FramesBytes(payloads) {
      FramesAreDecoded(payloads);
    }
  }

  lemma PendingOfQueue(sent: seq<bytes>)
    ensures Pending(Reader(sent, [])) == Concat(sent)
  {
  }

  lemma TakeOfNothing()
    ensures Take([]) == Ok(None)
  {
  }
}
