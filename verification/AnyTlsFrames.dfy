/**
 The AnyTLS frame codec: a 7-byte header and a body, written under a lock through a
 vectored writer that may accept any part of what it is offered.
 */
module AnyTlsFrames {
  import opened Wrappers
  import opened Bytes

  const FRAME_HEADER_LEN: nat := 7
  const MAX_FRAME_PAYLOAD: nat := 0xffff

  type Body = b: bytes | |b| <= 0xffff

  datatype Frame = Frame(command: byte, streamId: u32, body: Body)

  function HeaderBytes(f: Frame): (h: bytes)
    ensures |h| == FRAME_HEADER_LEN
  {
    [f.command] + U32Be(f.streamId) + U16Be(|f.body|)
  }

  function FrameBytes(f: Frame): bytes {
    HeaderBytes(f) + f.body
  }

  function FramesBytes(fs: seq<Frame>): bytes {
    if fs == [] then [] else FrameBytes(fs[0]) + FramesBytes(fs[1..])
  }

  // ---------- Short writes ----------

  /** A socket that, at each call, accepts at most what its next grant allows, or fails. */
  class ShortWriter {
    var accepted: bytes
    var grants: seq<Option<nat>>

    constructor (grants: seq<Option<nat>>)
      ensures accepted == [] && this.grants == grants
    {
      this.accepted := [];
      this.grants := grants;
    }

    method Write(offered: bytes) returns (r: Result<nat, ErrorKind>)
      modifies this
      ensures r.Ok? ==> r.value <= |offered| && accepted == old(accepted) + offered[..r.value]
      ensures r.Err? ==> accepted == old(accepted)
      ensures old(grants) == [] ==> r.Err? && grants == []
      ensures old(grants) != [] ==>
                && grants == old(grants)[1..] && (r.Ok? <==> old(grants)[0].Some?)
                && (r.Ok? ==> r.value == Least(old(grants)[0].value, |offered|))
    {
      if grants == [] {
        return Err(BrokenPipe);
      }
      var grant := grants[0];
      grants := grants[1..];
      if grant.None? {
        return Err(BrokenPipe);
      }
      var n := if grant.value < |offered| then grant.value else |offered|;
      accepted := accepted + offered[..n];
      return Ok(n);
    }
  }

  function Least(a: nat, b: nat): nat {
    if a < b then a else b
  }

  /** How many of `len` bytes these grants let through before one fails or gives nothing. */
  function LetThrough(grants: seq<Option<nat>>, len: nat): (n: nat)
    ensures n <= len
    decreases |grants|
  {
    if len == 0 || grants == [] || grants[0].None? then 0
    else
      var n := Least(grants[0].value, len);
      if n == 0 then 0 else n + LetThrough(grants[1..], len - n)
  }

  lemma GrantUsed(grants: seq<Option<nat>>, len: nat)
    requires len > 0
    ensures LetThrough(grants, len)
         == if grants == [] || grants[0].None? || grants[0].value == 0 then 0
            else
              var n := Least(grants[0].value, len);
              n + LetThrough(grants[1..], len - n)
  {
  }

  lemma NothingToWrite(grants: seq<Option<nat>>)
    ensures LetThrough(grants, 0) == 0
  {
  }

  /** What is offered next is what has not been accepted yet. */
  lemma OfferedIsRest(header: bytes, payload: bytes, h: nat, p: nat)
    requires h <= |header| && p <= |payload| && (h < |header| ==> p == 0)
    ensures (if h < |header| then header[h..] + payload[p..] else payload[p..]) == (header + payload)[h + p..]
  {
  }

  lemma TakeMore(b: bytes, start: bytes, n: nat, k: nat)
    requires n + k <= |b|
    ensures start + b[..n] + b[n..n + k] == start + b[..n + k]
  {
    assert b[..n] + b[n..n + k] == b[..n + k];
  }

  /** One write: what is left of header and payload is offered, and a prefix of it accepted. */
  method WriteSome(writer: ShortWriter, header: bytes, payload: bytes, h: nat, p: nat)
    returns (w: Result<nat, ErrorKind>)
    requires h <= |header| && p <= |payload| && (h < |header| ==> p == 0)
    requires h + p < |header| + |payload|
    modifies writer
    ensures var whole, n := header + payload, if w.Ok? then w.value else 0;
            && n <= |whole| - h - p
            && writer.accepted == old(writer.accepted) + whole[h + p..h + p + n]
            && LetThrough(old(writer.grants), |whole| - h - p)
               == if n == 0 then 0 else n + LetThrough(writer.grants, |whole| - h - p - n)
  {
    hide LetThrough;
    OfferedIsRest(header, payload, h, p);
    var offered := if h < |header| then header[h..] + payload[p..] else payload[p..];
    GrantUsed(writer.grants, |offered|);
    w := writer.Write(offered);
    ghost var whole := header + payload;
    assert w.Ok? ==> offered[..w.value] == whole[h + p..h + p + w.value];
    assert whole[h + p..h + p] == [];
  }

  /**
   For any partial writes the socket receives exactly a prefix of header then payload, and
   all of it when the call succeeds. `sent` is the length of that prefix.
   */
  method WriteAllVectored(writer: ShortWriter, header: bytes, payload: bytes)
    returns (r: Result<(), ErrorKind>, ghost sent: nat)
    modifies writer
    ensures sent <= |header| + |payload|
    ensures writer.accepted == old(writer.accepted) + (header + payload)[..sent]
    ensures sent == LetThrough(old(writer.grants), |header| + |payload|)
    ensures r.Ok? <==> sent == |header| + |payload|
  {
    hide LetThrough;
    ghost var room := LetThrough(writer.grants, |header| + |payload|);
    var headerWritten: nat, payloadWritten: nat := 0, 0;
    ghost var whole, start := header + payload, writer.accepted;
    sent := 0;
    assert start + whole[..0] == start;
    while headerWritten < |header| || payloadWritten < |payload|
      invariant headerWritten <= |header| && payloadWritten <= |payload|
      invariant headerWritten < |header| ==> payloadWritten == 0
      invariant sent == headerWritten + payloadWritten
      invariant writer.accepted == start + whole[..sent]
      invariant sent + LetThrough(writer.grants, |whole| - sent) == room
      decreases |header| + |payload| - headerWritten - payloadWritten
    {
      var w := WriteSome(writer, header, payload, headerWritten, payloadWritten);
      ghost var n := if w.Ok? then w.value else 0;
      TakeMore(whole, start, sent, n);
      if w.Err? {
        return Err(w.error), sent;
      }
      var written := w.value;
      sent := sent + written;
      if written == 0 {
        return Err(WriteZero), sent;
      }
      if headerWritten < |header| {
        var headerRemaining := |header| - headerWritten;
        if written < headerRemaining {
          headerWritten := headerWritten + written;
        } else {
          headerWritten := |header|;
          payloadWritten := payloadWritten + written - headerRemaining;
        }
      } else {
        payloadWritten := payloadWritten + written;
      }
    }
    NothingToWrite(writer.grants);
    r := Ok(());
  }

  /**
   One locked write: a whole frame goes out, or the call reports an error and only the first
   `sent` bytes of the frame did.
   */
  method WriteFrame(writer: ShortWriter, command: byte, streamId: u32, payload: bytes)
    returns (r: Result<(), ErrorKind>, ghost sent: nat)
    modifies writer
    ensures |payload| > MAX_FRAME_PAYLOAD ==>
              r == Err(InvalidInput) && sent == 0 && writer.accepted == old(writer.accepted)
    ensures |payload| <= MAX_FRAME_PAYLOAD ==>
              var frame := FrameBytes(Frame(command, streamId, payload));
              && sent == LetThrough(old(writer.grants), |frame|)
              && sent <= |frame| && writer.accepted == old(writer.accepted) + frame[..sent]
              && (r.Ok? <==> sent == |frame|)
  {
    if |payload| > MAX_FRAME_PAYLOAD {
      return Err(InvalidInput), 0;
    }
    var frame := Frame(command, streamId, payload);
    var header := HeaderBytes(frame);
    r, sent := WriteAllVectored(writer, header, payload);
    assert FrameBytes(frame) == header + payload;
  }

  // ---------- Reading frames back ----------

  datatype Read = Read(frame: Frame, rest: bytes)

  /** One header, then one body; None when the stream ends inside either. */
  function ReadFrame(stream: bytes): (r: Option<Read>)
    ensures r.Some? ==> |r.value.rest| < |stream|
  {
    if |stream| < FRAME_HEADER_LEN then None
    else
      var len := ReadU16(stream[5], stream[6]);
      if |stream| < FRAME_HEADER_LEN + len then None
      else
        var id := ReadU32(stream[1], stream[2], stream[3], stream[4]);
        var frame := Frame(stream[0], id, stream[FRAME_HEADER_LEN..FRAME_HEADER_LEN + len]);
        Some(Read(frame, stream[FRAME_HEADER_LEN + len..]))
  }

  function SplitFrames(stream: bytes): (r: (seq<Frame>, bytes))
    decreases |stream|
  {
    match ReadFrame(stream)
    case None => ([], stream)
    case Some(read) =>
      var (more, rest) := SplitFrames(read.rest);
      ([read.frame] + more, rest)
  }

  /** `read_exact` on the bytes still to come: it consumes n of them or reports their end. */
  method ReadExact(stream: bytes, n: nat) returns (r: Result<bytes, ErrorKind>, rest: bytes)
    ensures if n <= |stream| then r == Ok(stream[..n]) && rest == stream[n..]
            else r == Err(UnexpectedEof) && rest == []
  {
    if n <= |stream| {
      return Ok(stream[..n]), stream[n..];
    }
    return Err(UnexpectedEof), [];
  }

  method ReadOneFrame(stream: bytes) returns (r: Option<Read>)
    ensures r == ReadFrame(stream)
  {
    hide ReadU16, ReadU32;
    var header, afterHeader := ReadExact(stream, FRAME_HEADER_LEN);
    if header.Err? {
      return None;
    }
    var h := header.value;
    var len := ReadU16(h[5], h[6]);
    var body, afterBody := ReadExact(afterHeader, len);
    if body.Err? {
      return None;
    }
    assert stream[FRAME_HEADER_LEN..][..len] == stream[FRAME_HEADER_LEN..FRAME_HEADER_LEN + len];
    assert stream[FRAME_HEADER_LEN..][len..] == stream[FRAME_HEADER_LEN + len..];
    return Some(Read(Frame(h[0], ReadU32(h[1], h[2], h[3], h[4]), body.value), afterBody));
  }

  /** The session's loop over frames, ending quietly where the stream ends. */
  method ReadFrames(stream: bytes) returns (frames: seq<Frame>)
    ensures frames == SplitFrames(stream).0
  {
    hide ReadFrame;
    var left := stream;
    frames := [];
    while true
      invariant frames + SplitFrames(left).0 == SplitFrames(stream).0
      decreases |left|
    {
      var next := ReadOneFrame(left);
      if next.None? {
        return;
      }
      ReadShrinks(left);
      frames := frames + [next.value.frame];
      left := next.value.rest;
    }
  }

  lemma ReadShrinks(stream: bytes)
    ensures var r := ReadFrame(stream); r.Some? ==> |r.value.rest| < |stream|
  {
  }

  lemma FrameIsRead(f: Frame, rest: bytes)
    ensures ReadFrame(FrameBytes(f) + rest) == Some(Read(f, rest))
  {
    var stream := FrameBytes(f) + rest;
    U32RoundTrip(f.streamId);
    var id, len := U32Be(f.streamId), U16Be(|f.body|);
    assert stream == [f.command] + id + len + f.body + rest;
    assert stream[1] == id[0] && stream[2] == id[1] && stream[3] == id[2] && stream[4] == id[3];
    assert stream[5] == len[0] && stream[6] == len[1];
    assert stream[7..7 + |f.body|] == f.body;
    assert stream[7 + |f.body|..] == rest;
  }

  /** Frames that stand one after another are read back as those frames. */
  lemma {:induction false} SplitInvertsFrames(fs: seq<Frame>, tail: bytes)
    ensures SplitFrames(FramesBytes(fs) + tail) == (fs + SplitFrames(tail).0, SplitFrames(tail).1)
  {
    hide ReadFrame, FrameBytes;
    if fs == [] {
      assert FramesBytes(fs) + tail == tail;
      assert fs + SplitFrames(tail).0 == SplitFrames(tail).0;
    } else {
      var more := FramesBytes(fs[1..]) + tail;
      assert FramesBytes(fs) + tail == FrameBytes(fs[0]) + more;
      FrameIsRead(fs[0], more);
      SplitInvertsFrames(fs[1..], tail);
      assert [fs[0]] + (fs[1..] + SplitFrames(tail).0) == fs + SplitFrames(tail).0;
    }
  }

  /** And every stream is exactly the frames read from it plus an incomplete remainder. */
  lemma {:induction false} FramesInvertSplit(stream: bytes)
    ensures var (fs, rest) := SplitFrames(stream);
            stream == FramesBytes(fs) + rest && ReadFrame(rest).None?
    decreases |stream|
  {
    match ReadFrame(stream)
    case None =>
    case Some(read) =>
      hide U32Be, ReadU32, U16Be, ReadU16, FrameBytes;
      ReadIsExact(stream);
      FramesInvertSplit(read.rest);
      assert ([read.frame] + SplitFrames(read.rest).0)[1..] == SplitFrames(read.rest).0;
  }

  lemma ReadIsExact(stream: bytes)
    requires ReadFrame(stream).Some?
    ensures var read := ReadFrame(stream).value; stream == FrameBytes(read.frame) + read.rest
  {
    var read := ReadFrame(stream).value;
    U32Surjective(stream[1], stream[2], stream[3], stream[4]);
    assert HeaderBytes(read.frame) == stream[..7];
  }

  // ---------- Many writers ----------

  /** A call that got the lock: its frame, and how many bytes of it the socket accepted. */
  datatype Attempt = Attempt(frame: Frame, sent: nat)

  ghost predicate Possible(attempts: seq<Attempt>) {
    forall i | 0 <= i < |attempts| :: attempts[i].sent <= |FrameBytes(attempts[i].frame)|
  }

  predicate Succeeded(a: Attempt) {
    a.sent == |FrameBytes(a.frame)|
  }

  /** What the socket has accepted, in lock order. */
  function Wire(attempts: seq<Attempt>): bytes
    requires Possible(attempts)
  {
    if attempts == [] then []
    else
      var last := attempts[|attempts| - 1];
      Wire(attempts[..|attempts| - 1]) + FrameBytes(last.frame)[..last.sent]
  }

  /** The frames whose calls succeeded, in lock order. */
  function Written(attempts: seq<Attempt>): seq<Frame> {
    if attempts == [] then []
    else
      var last := attempts[|attempts| - 1];
      Written(attempts[..|attempts| - 1]) + (if Succeeded(last) then [last.frame] else [])
  }

  /** No failed call left part of its frame behind. */
  ghost predicate Clean(attempts: seq<Attempt>) {
    forall i | 0 <= i < |attempts| :: Succeeded(attempts[i]) || attempts[i].sent == 0
  }

  datatype Call = Call(command: byte, streamId: u32, payload: bytes)

  lemma Appended(attempts: seq<Attempt>, a: Attempt)
    requires Possible(attempts) && a.sent <= |FrameBytes(a.frame)|
    ensures Possible(attempts + [a])
    ensures Wire(attempts + [a]) == Wire(attempts) + FrameBytes(a.frame)[..a.sent]
    ensures Written(attempts + [a]) == Written(attempts) + (if Succeeded(a) then [a.frame] else [])
  {
    hide FrameBytes;
    assert (attempts + [a])[..|attempts|] == attempts;
  }

  /** What calls in this order, with these results, have written. */
  function Accepted(calls: seq<Call>, results: seq<Result<(), ErrorKind>>): seq<Frame>
    requires |calls| == |results|
    requires forall i | 0 <= i < |calls| && results[i].Ok? :: |calls[i].payload| <= MAX_FRAME_PAYLOAD
  {
    if calls == [] then []
    else
      var i := |calls| - 1;
      Accepted(calls[..i], results[..i])
      + (if results[i].Ok? then [Frame(calls[i].command, calls[i].streamId, calls[i].payload)] else [])
  }

  lemma AcceptedSnoc(calls: seq<Call>, results: seq<Result<(), ErrorKind>>, c: Call, r: Result<(), ErrorKind>)
    requires |calls| == |results| && (r.Ok? ==> |c.payload| <= MAX_FRAME_PAYLOAD)
    requires forall i | 0 <= i < |calls| && results[i].Ok? :: |calls[i].payload| <= MAX_FRAME_PAYLOAD
    ensures Accepted(calls + [c], results + [r])
         == Accepted(calls, results) + (if r.Ok? then [Frame(c.command, c.streamId, c.payload)] else [])
  {
    assert (calls + [c])[..|calls|] == calls && (results + [r])[..|calls|] == results;
  }

  /**
   Calls of any writers, in the order in which they get the lock; a failed call does not stop
   the others. The socket has accepted what the attempts sent, and the frames written are those
   of the successful calls.
   */
  method WriteFrames(writer: ShortWriter, calls: seq<Call>)
    returns (results: seq<Result<(), ErrorKind>>, ghost attempts: seq<Attempt>)
    modifies writer
    ensures |results| == |calls| && Possible(attempts)
    ensures forall i | 0 <= i < |calls| && results[i].Ok? :: |calls[i].payload| <= MAX_FRAME_PAYLOAD
    ensures writer.accepted == old(writer.accepted) + Wire(attempts)
    ensures Written(attempts) == Accepted(calls, results)
    ensures (forall r | r in results :: r.Ok?) ==> Clean(attempts)
  {
    hide FrameBytes, Wire, Written, Accepted;
    results, attempts := [], [];
    assert writer.accepted + Wire([]) == writer.accepted by { NothingWritten(); }
    assert Written([]) == Accepted([], []) by { NothingWritten(); }
    for k := 0 to |calls|
      invariant |results| == k && Possible(attempts)
      invariant forall i | 0 <= i < k && results[i].Ok? :: |calls[..k][i].payload| <= MAX_FRAME_PAYLOAD
      invariant writer.accepted == old(writer.accepted) + Wire(attempts)
      invariant Written(attempts) == Accepted(calls[..k], results)
      invariant (forall r | r in results :: r.Ok?) ==> Clean(attempts)
    {
      var c := calls[k];
      var r;
      ghost var sent;
      r, sent := WriteFrame(writer, c.command, c.streamId, c.payload);
      AcceptedSnoc(calls[..k], results, c, r);
      assert calls[..k + 1] == calls[..k] + [c];
      if |c.payload| <= MAX_FRAME_PAYLOAD {
        var a := Attempt(Frame(c.command, c.streamId, c.payload), sent);
        Appended(attempts, a);
        attempts := attempts + [a];
      } else {
        assert Written(attempts) + [] == Written(attempts);
      }
      assert r in results + [r];
      results := results + [r];
      assert forall q | q in results[..k] :: q in results;
    }
    assert calls[..|calls|] == calls;
  }

  lemma NothingWritten()
    ensures Wire([]) == [] && Written([]) == Accepted([], []) == []
  {
  }

  lemma {:induction false} FramesSnoc(fs: seq<Frame>, f: Frame)
    ensures FramesBytes(fs + [f]) == FramesBytes(fs) + FrameBytes(f)
  {
    hide FrameBytes;
    if fs == [] {
      assert ([] + [f])[1..] == [];
    } else {
      assert (fs + [f])[1..] == fs[1..] + [f];
      FramesSnoc(fs[1..], f);
    }
  }

  /** The bytes on the wire are those of the frames written, and what failed calls left. */
  lemma {:induction false} WireLength(attempts: seq<Attempt>)
    requires Possible(attempts)
    ensures |Wire(attempts)| >= |FramesBytes(Written(attempts))|
    ensures |Wire(attempts)| == |FramesBytes(Written(attempts))| <==> Clean(attempts)
    ensures Clean(attempts) ==> Wire(attempts) == FramesBytes(Written(attempts))
    decreases |attempts|
  {
    if attempts != [] {
      hide FrameBytes;
      var front, last := attempts[..|attempts| - 1], attempts[|attempts| - 1];
      assert attempts == front + [last];
      WireLength(front);
      FramesSnoc(Written(front), last.frame);
      assert Clean(attempts) <==> Clean(front) && (Succeeded(last) || last.sent == 0);
      assert Written(front) + [] == Written(front);
      FrameIsNonEmpty(last.frame);
    }
  }

  lemma FrameIsNonEmpty(f: Frame)
    ensures |FrameBytes(f)| >= FRAME_HEADER_LEN
  {
  }

  /** Whatever is written next, the reader gets exactly the frames of the successful calls. */
  ghost predicate ReadsBack(attempts: seq<Attempt>)
    requires Possible(attempts)
  {
    forall later: seq<Frame> :: ReadsBackWith(attempts, later)
  }

  ghost predicate ReadsBackWith(attempts: seq<Attempt>, later: seq<Frame>)
    requires Possible(attempts)
  {
    SplitFrames(Wire(attempts) + FramesBytes(later)).0 == Written(attempts) + later
  }

  /** A remainder that is not empty turns the next frame into another one, or swallows it. */
  lemma RemainderMisleads(rest: bytes)
    requires rest != []
    ensures var f := Frame(if rest[0] == 0 then 1 else 0, 0, []);
            SplitFrames(rest + FrameBytes(f)).0 != [f]
  {
    hide FrameBytes, ReadU16, ReadU32;
    var f := Frame(if rest[0] == 0 then 1 else 0, 0, []);
    var s := rest + FrameBytes(f);
    assert s[0] == rest[0] != f.command;
    var fs := SplitFrames(s).0;
    assert fs != [] ==> fs[0].command == s[0];
    assert [f][0] == f;
  }

  /**
   Any sequence of calls, failed ones included, is split back into exactly the frames of the
   successful ones, whatever follows, if and only if no failed call left part of a frame behind.
   */
  lemma CallsReadBackExact(attempts: seq<Attempt>)
    requires Possible(attempts)
    ensures ReadsBack(attempts) <==> Clean(attempts)
  {
    hide FrameBytes, FramesBytes, SplitFrames, Wire, Written, Clean;
    WireLength(attempts);
    var wire, fs := Wire(attempts), Written(attempts);
    if Clean(attempts) {
      forall later: seq<Frame> ensures ReadsBackWith(attempts, later) {
        SplitInvertsFrames(fs, FramesBytes(later));
        SplitWhole(later);
      }
    } else if ReadsBackWith(attempts, []) {
      assert wire + FramesBytes([]) == wire by { NoFrames(); }
      FramesInvertSplit(wire);
      assert fs + [] == fs;
      var rest := SplitFrames(wire).1;
      assert wire == FramesBytes(fs) + rest && rest != [];
      var f := Frame(if rest[0] == 0 then 1 else 0, 0, []);
      OneFrame(f);
      assert wire + FramesBytes([f]) == FramesBytes(fs) + (rest + FrameBytes(f));
      SplitInvertsFrames(fs, rest + FrameBytes(f));
      RemainderMisleads(rest);
      SameTail(fs, SplitFrames(rest + FrameBytes(f)).0, [f]);
      assert !ReadsBackWith(attempts, [f]);
    }
  }

  lemma SameTail(fs: seq<Frame>, a: seq<Frame>, b: seq<Frame>)
    ensures fs + a == fs + b <==> a == b
  {
    assert (fs + a)[|fs|..] == a && (fs + b)[|fs|..] == b;
  }

  lemma NoFrames()
    ensures FramesBytes([]) == [] && SplitFrames([]) == ([], [])
  {
  }

  lemma OneFrame(f: Frame)
    ensures FramesBytes([f]) == FrameBytes(f)
  {
    hide FrameBytes;
    assert [f][1..] == [];
  }

  lemma SplitWhole(fs: seq<Frame>)
    ensures SplitFrames(FramesBytes(fs)) == (fs, [])
  {
    hide FramesBytes, SplitFrames;
    NoFrames();
    SplitInvertsFrames(fs, []);
    assert FramesBytes(fs) + [] == FramesBytes(fs) && fs + [] == fs;
  }

  /** With no failed call, any lock order is read back as exactly those calls. */
  method WriteAllFrames(writer: ShortWriter, calls: seq<Call>) returns (ok: bool, ghost frames: seq<Frame>)
    modifies writer
    ensures old(writer.accepted) <= writer.accepted
    ensures ok ==> |frames| == |calls|
                   && SplitFrames(writer.accepted[|old(writer.accepted)|..]) == (frames, [])
    ensures ok ==> forall i | 0 <= i < |calls| ::
              frames[i] == Frame(calls[i].command, calls[i].streamId, frames[i].body)
              && frames[i].body == calls[i].payload
  {
    hide FrameBytes, FramesBytes, SplitFrames, Wire, Written, Accepted;
    var results;
    ghost var attempts;
    results, attempts := WriteFrames(writer, calls);
    ok := forall r | r in results :: r.Ok?;
    frames := [];
    if ok {
      frames := Accepted(calls, results);
      AllAccepted(calls, results);
      WireLength(attempts);
      SplitWhole(frames);
      assert writer.accepted[|old(writer.accepted)|..] == Wire(attempts);
    }
  }

  lemma {:induction false} AllAccepted(calls: seq<Call>, results: seq<Result<(), ErrorKind>>)
    requires |calls| == |results| && forall r | r in results :: r.Ok?
    requires forall i | 0 <= i < |calls| && results[i].Ok? :: |calls[i].payload| <= MAX_FRAME_PAYLOAD
    ensures var fs := Accepted(calls, results);
            |fs| == |calls| && forall i | 0 <= i < |calls| ::
              fs[i] == Frame(calls[i].command, calls[i].streamId, fs[i].body) && fs[i].body == calls[i].payload
    decreases |calls|
  {
    if calls != [] {
      var n := |calls| - 1;
      assert forall r | r in results[..n] :: r in results;
      AllAccepted(calls[..n], results[..n]);
      assert results[n] in results;
    }
  }

  /**
   It can happen: for any frame and any proper part of it, a socket that takes that part and then
   fails leaves exactly that part behind, and what other writers send is then misread.
   */
  method FailPartway(frame: Frame, n: nat) returns (writer: ShortWriter, r: Result<(), ErrorKind>)
    requires 0 < n < |FrameBytes(frame)|
    ensures fresh(writer) && r.Err? && writer.accepted == FrameBytes(frame)[..n]
    ensures Possible([Attempt(frame, n)]) && Wire([Attempt(frame, n)]) == writer.accepted
    ensures !ReadsBack([Attempt(frame, n)])
  {
    hide FrameBytes, ReadsBack;
    writer := new ShortWriter([Some(n), None]);
    ghost var sent;
    r, sent := WriteFrame(writer, frame.command, frame.streamId, frame.body);
    assert LetThrough([Some(n), None], |FrameBytes(frame)|) == n by { OneGrant(n, |FrameBytes(frame)|); }
    ghost var a := Attempt(frame, n);
    Appended([], a);
    assert [] + [a] == [a];
    CallsReadBackExact([a]);
    assert !Clean([a]) by { assert [a][0] == a; }
    NothingWritten();
  }

  lemma OneGrant(n: nat, len: nat)
    requires 0 < n < len
    ensures LetThrough([Some(n), None], len) == n
  {
    assert [Some(n), None][1..] == [None];
    assert LetThrough([None], len - n) == 0;
  }
}
