/**
 The AnyTLS session: one table of remotes, driven by the frames of many streams. The main
 result is that, with connects and bandwidth granted, it is the product of independent
 per-stream automata, up to and including the frame that ends it with an error.
 */
module AnyTlsSession {
  import opened Wrappers
  import opened Bytes
  import opened AnyTlsFrames
  import opened Uot

  const CMD_WASTE: byte := 0
  const CMD_SYN: byte := 1
  const CMD_PSH: byte := 2
  const CMD_FIN: byte := 3
  const CMD_SETTINGS: byte := 4
  const CMD_HEART_REQUEST: byte := 8

  /** "udp-over-tcp.arpa" */
  const UOT_MAGIC_DOMAIN: bytes :=
    [117, 100, 112, 45, 111, 118, 101, 114, 45, 116, 99, 112, 46, 97, 114, 112, 97]

  function Lower(b: byte): byte {
    if 65 <= b <= 90 then b + 32 else b
  }

  predicate MagicAt(name: bytes, i: nat) {
    i + |UOT_MAGIC_DOMAIN| <= |name| &&
    forall j | 0 <= j < |UOT_MAGIC_DOMAIN| :: Lower(name[i + j]) == UOT_MAGIC_DOMAIN[j]
  }

  /** The name, lower-cased, contains the magic domain; the text of an address never does. */
  predicate IsMagic(t: Target) {
    t.host.Domain? && exists i | 0 <= i < |t.host.name| :: MagicAt(t.host.name, i)
  }

  datatype Remote = Tcp | UdpRemote(udp: Udp)

  /** What a stream does to the outside: connect, acknowledge, hand bytes or datagrams on. */
  datatype Event =
    | Connect(target: Target)
    | SynAck
    | Deliver(data: bytes)
    | Datagram(target: Target, payload: bytes)
    | ShutdownWrite

  function Datagrams(packets: seq<(Target, bytes)>): seq<Event> {
    seq(|packets|, i requires 0 <= i < |packets| => Datagram(packets[i].0, packets[i].1))
  }

  /** Bytes handed to a remote. */
  function UploadOf(e: Event): nat {
    match e
    case Deliver(data) => |data|
    case Datagram(_, payload) => |payload|
    case _ => 0
  }

  function Upload(es: seq<Event>): nat {
    if es == [] then 0 else Upload(es[..|es| - 1]) + UploadOf(es[|es| - 1])
  }

  // ---------- One stream on its own ----------

  /** Its remote, what it has done so far, and the error that ended it, if one did. */
  datatype Stream = Stream(remote: Option<Remote>, events: seq<Event>, failure: Option<ErrorKind>)

  const NewStream: Stream := Stream(None, [], None)

  /** A TCP stream is connected, acknowledged, and given what came with the request. */
  function TcpEvents(target: Target, initial: bytes): seq<Event> {
    [Connect(target), SynAck] + (if initial == [] then [] else [Deliver(initial)])
  }

  /**
   The first bytes of a stream name its target; the rest already belongs to it. Datagrams
   before a malformed one are forwarded, and `kept` is what stays when opening fails.
   */
  function OpenStream(kept: Option<Remote>, body: bytes, utf8: Utf8): Stream {
    match SocksAddr(body, utf8)
    case Err(e) => Stream(kept, [], Some(e))
    case Ok(p) =>
      var rest := body[p.consumed..];
      if IsMagic(p.target) then
        var d := Feed(NewUdp, rest, utf8);
        Stream(if d.failure.Some? then kept else Some(UdpRemote(d.udp)), [SynAck] + Datagrams(d.packets), d.failure)
      else Stream(Some(Tcp), TcpEvents(p.target, rest), None)
  }

  /** A remote is taken out of the table while its bytes are handled, so a failure loses it. */
  function StreamStep(remote: Option<Remote>, f: Frame, utf8: Utf8): Stream {
    if f.command == CMD_SYN then
      if f.body == [] then Stream(remote, [SynAck], None) else OpenStream(remote, f.body, utf8)
    else if f.command == CMD_PSH then
      if f.body == [] then Stream(remote, [], None)
      else
        match remote
        case None => OpenStream(None, f.body, utf8)
        case Some(Tcp) => Stream(remote, [Deliver(f.body)], None)
        case Some(UdpRemote(u)) =>
          var d := Feed(u, f.body, utf8);
          Stream(if d.failure.Some? then None else Some(UdpRemote(d.udp)), Datagrams(d.packets), d.failure)
    else if f.command == CMD_FIN then
      Stream(None, if remote == Some(Tcp) then [ShutdownWrite] else [], None)
    else if f.command == CMD_WASTE || f.command == CMD_SETTINGS || f.command == CMD_HEART_REQUEST then
      Stream(remote, [], None)
    else Stream(remote, [], Some(InvalidData))
  }

  function StreamRun(frames: seq<Frame>, utf8: Utf8): Stream {
    if frames == [] then NewStream
    else
      var before := StreamRun(frames[..|frames| - 1], utf8);
      if before.failure.Some? then before
      else
        var after := StreamStep(before.remote, frames[|frames| - 1], utf8);
        after.(events := before.events + after.events)
  }

  // ---------- The session ----------

  /**
   Two answers are the session's own and go out on stream 0, whichever stream asked:
   `settings` is the one settings frame that was answered, `heartbeats` counts heart responses.
   */
  datatype State = State(remotes: map<u32, Remote>, upload: nat, log: seq<(u32, Event)>,
                         settings: Option<Body>, heartbeats: nat, failure: Option<ErrorKind>)

  const NewSession: State := State(map[], 0, [], None, 0, None)

  function Lookup(m: map<u32, Remote>, id: u32): Option<Remote> {
    if id in m then Some(m[id]) else None
  }

  function Updated(m: map<u32, Remote>, id: u32, r: Option<Remote>): map<u32, Remote> {
    match r
    case None => m - {id}
    case Some(remote) => m[id := remote]
  }

  function Tagged(id: u32, es: seq<Event>): seq<(u32, Event)> {
    seq(|es|, i requires 0 <= i < |es| => (id, es[i]))
  }

  function Answered(settings: Option<Body>, f: Frame): Option<Body> {
    if f.command == CMD_SETTINGS && settings.None? then Some(f.body) else settings
  }

  /** One frame: exactly its own stream moves, by that stream's own rule. */
  function SessionStep(s: State, f: Frame, utf8: Utf8): State {
    var next := StreamStep(Lookup(s.remotes, f.streamId), f, utf8);
    State(Updated(s.remotes, f.streamId, next.remote), s.upload + Upload(next.events),
          s.log + Tagged(f.streamId, next.events), Answered(s.settings, f),
          s.heartbeats + (if f.command == CMD_HEART_REQUEST then 1 else 0), next.failure)
  }

  function SessionRun(frames: seq<Frame>, utf8: Utf8): State {
    if frames == [] then NewSession
    else
      var s := SessionRun(frames[..|frames| - 1], utf8);
      if s.failure.Some? then s else SessionStep(s, frames[|frames| - 1], utf8)
  }

  /** The frames up to and including the one that failed, if one did. */
  function Handled(frames: seq<Frame>, utf8: Utf8): seq<Frame> {
    if frames == [] then []
    else
      var front := frames[..|frames| - 1];
      if SessionRun(front, utf8).failure.Some? then Handled(front, utf8) else frames
  }

  class Session {
    var remotes: map<u32, Remote>
    var upload: nat
    var log: seq<(u32, Event)>
    var settings: Option<Body>
    var heartbeats: nat

    constructor ()
      ensures Abs(None) == NewSession
    {
      remotes := map[];
      upload := 0;
      log := [];
      settings := None;
      heartbeats := 0;
    }

    function Abs(failure: Option<ErrorKind>): State
      reads this
    {
      State(remotes, upload, log, settings, heartbeats, failure)
    }

    /** One frame, whether it fails or not. */
    method HandleFrame(f: Frame, utf8: Utf8) returns (failure: Option<ErrorKind>)
      modifies this
      ensures Abs(failure) == SessionStep(old(Abs(None)), f, utf8)
    {
      hide OpenStream, Feed, Upload;
      failure := None;
      if f.command == CMD_WASTE {
        IdleStep(Abs(None), f, utf8);
      } else if f.command == CMD_SETTINGS {
        IdleStep(Abs(None), f, utf8);
        if settings.None? {
          settings := Some(f.body);
        }
      } else if f.command == CMD_HEART_REQUEST {
        IdleStep(Abs(None), f, utf8);
        heartbeats := heartbeats + 1;
      } else if f.command == CMD_SYN {
        failure := HandleSyn(f.streamId, f.body, utf8);
      } else if f.command == CMD_PSH {
        failure := HandlePsh(f.streamId, f.body, utf8);
      } else if f.command == CMD_FIN {
        Close(f.streamId);
      } else {
        failure := Some(InvalidData);
        IdleStep(Abs(None), f, utf8);
      }
    }

    /** A whole connection: frames are read until the bytes end or one of them fails. */
    method ReadAndHandle(stream: bytes, utf8: Utf8) returns (failure: Option<ErrorKind>)
      requires Abs(None) == NewSession
      modifies this
      ensures Abs(failure) == SessionRun(SplitFrames(stream).0, utf8)
    {
      hide SessionStep;
      var frames := ReadFrames(stream);
      for i := 0 to |frames|
        invariant SessionRun(frames[..i], utf8) == Abs(None)
      {
        assert frames[..i + 1][..i] == frames[..i];
        failure := HandleFrame(frames[i], utf8);
        if failure.Some? {
          ErrorStops(frames, i + 1, utf8);
          return;
        }
      }
      assert frames[..|frames|] == frames;
      failure := None;
    }

    /** What a stream does to the outside; counting the bytes is up to the caller. */
    method Emit(id: u32, events: seq<Event>)
      modifies this`log
      ensures log == old(log) + Tagged(id, events)
    {
      log := log + Tagged(id, events);
    }

    /** Datagrams are sent on, and counted, one by one. */
    method ForwardDatagrams(id: u32, packets: seq<(Target, bytes)>)
      modifies this`upload, this`log
      ensures upload == old(upload) + Upload(Datagrams(packets))
      ensures log == old(log) + Tagged(id, Datagrams(packets))
    {
      ghost var all := Datagrams(packets);
      for i := 0 to |packets|
        invariant upload == old(upload) + Upload(all[..i])
        invariant log == old(log) + Tagged(id, all[..i])
      {
        Emit(id, [Datagram(packets[i].0, packets[i].1)]);
        upload := upload + |packets[i].1|;
        assert all[..i + 1][..i] == all[..i];
        assert Tagged(id, all[..i + 1]) == Tagged(id, all[..i]) + Tagged(id, [all[i]]);
      }
      assert all[..|packets|] == all;
    }

    method Close(id: u32)
      modifies this`remotes, this`log
      ensures remotes == old(remotes) - {id}
      ensures log == old(log) + Tagged(id, if Lookup(old(remotes), id) == Some(Tcp) then [ShutdownWrite] else [])
      ensures Upload([ShutdownWrite]) == Upload([]) == 0
    {
      OneEvent(ShutdownWrite);
      assert id !in remotes ==> remotes - {id} == remotes;
      if id in remotes {
        var remote := remotes[id];
        remotes := remotes - {id};
        if remote.Tcp? {
          Emit(id, [ShutdownWrite]);
        }
      }
    }

    method HandleSyn(id: u32, body: Body, utf8: Utf8) returns (failure: Option<ErrorKind>)
      modifies this`remotes, this`upload, this`log
      ensures Abs(failure) == SessionStep(old(Abs(None)), Frame(CMD_SYN, id, body), utf8)
    {
      hide OpenStream, Upload;
      if body == [] {
        OneEvent(SynAck);
        SameRemote(remotes, id);
        Emit(id, [SynAck]);
        return None;
      }
      failure := Open(id, body, utf8);
    }

    method HandlePsh(id: u32, body: Body, utf8: Utf8) returns (failure: Option<ErrorKind>)
      modifies this`remotes, this`upload, this`log
      ensures Abs(failure) == SessionStep(old(Abs(None)), Frame(CMD_PSH, id, body), utf8)
    {
      hide OpenStream, Feed, Upload;
      if body == [] {
        IdleStep(Abs(None), Frame(CMD_PSH, id, body), utf8);
        return None;
      }
      if id in remotes {
        failure := Continue(id, body, utf8);
        return;
      }
      failure := Open(id, body, utf8);
    }

    /** More bytes for a stream that is open. */
    method Continue(id: u32, body: Body, utf8: Utf8) returns (failure: Option<ErrorKind>)
      requires id in remotes && body != []
      modifies this`remotes, this`upload, this`log
      ensures var s := StreamStep(Some(old(remotes)[id]), Frame(CMD_PSH, id, body), utf8);
              && failure == s.failure && remotes == Updated(old(remotes), id, s.remote)
              && upload == old(upload) + Upload(s.events) && log == old(log) + Tagged(id, s.events)
    {
      hide Feed, Upload;
      var remote := remotes[id];
      remotes := remotes - {id};
      match remote {
        case Tcp =>
          Emit(id, [Deliver(body)]);
          OneEvent(Deliver(body));
          upload := upload + |body|;
          remotes := remotes[id := Tcp];
          return None;
        case UdpRemote(u) =>
          var stream := new AnyTlsUdpStream(u);
          var packets;
          packets, failure := stream.HandleUdpPsh(body, utf8);
          ForwardDatagrams(id, packets);
          if failure.Some? {
            return;
          }
          remotes := remotes[id := UdpRemote(stream.State())];
      }
    }

    method Open(id: u32, body: Body, utf8: Utf8) returns (failure: Option<ErrorKind>)
      modifies this`remotes, this`upload, this`log
      ensures var s := OpenStream(Lookup(old(remotes), id), body, utf8);
              && failure == s.failure && remotes == Updated(old(remotes), id, s.remote)
              && upload == old(upload) + Upload(s.events) && log == old(log) + Tagged(id, s.events)
    {
      hide Upload, Address, IsMagic, TcpEvents, Feed;
      SameRemote(remotes, id);
      NoEvents();
      var p := SocksAddr(body, utf8);
      if p.Err? {
        return Some(p.error);
      }
      var rest := body[p.value.consumed..];
      if IsMagic(p.value.target) {
        failure := OpenUdpRemote(id, rest, utf8);
      } else {
        OpenTcpRemote(id, p.value.target, rest);
        failure := None;
      }
    }

    method OpenUdpRemote(id: u32, rest: bytes, utf8: Utf8) returns (failure: Option<ErrorKind>)
      modifies this`remotes, this`upload, this`log
      ensures var d := Feed(NewUdp, rest, utf8);
              && failure == d.failure
              && remotes == (if d.failure.Some? then old(remotes) else old(remotes)[id := UdpRemote(d.udp)])
              && upload == old(upload) + Upload([SynAck] + Datagrams(d.packets))
              && log == old(log) + Tagged(id, [SynAck] + Datagrams(d.packets))
    {
      hide Feed, Upload;
      var stream := new AnyTlsUdpStream(NewUdp);
      Emit(id, [SynAck]);
      OneEvent(SynAck);
      var packets: seq<(Target, bytes)> := [];
      failure := None;
      if rest != [] {
        packets, failure := stream.HandleUdpPsh(rest, utf8);
      } else {
        FeedNothing(utf8);
      }
      ForwardDatagrams(id, packets);
      EmittedInTurn(id, [SynAck], Datagrams(packets));
      if failure.None? {
        remotes := remotes[id := UdpRemote(stream.State())];
      }
    }

    method OpenTcpRemote(id: u32, target: Target, initial: bytes)
      modifies this`remotes, this`upload, this`log
      ensures remotes == old(remotes)[id := Tcp]
      ensures upload == old(upload) + Upload(TcpEvents(target, initial))
      ensures log == old(log) + Tagged(id, TcpEvents(target, initial))
    {
      hide Upload;
      Emit(id, [Connect(target)]);
      remotes := remotes[id := Tcp];
      Emit(id, [SynAck]);
      EmittedInTurn(id, [Connect(target)], [SynAck]);
      OneEvent(Connect(target));
      OneEvent(SynAck);
      assert [Connect(target)] + [SynAck] == [Connect(target), SynAck];
      assert initial == [] ==> TcpEvents(target, initial) == [Connect(target), SynAck];
      if initial != [] {
        Emit(id, [Deliver(initial)]);
        upload := upload + |initial|;
        EmittedInTurn(id, [Connect(target), SynAck], [Deliver(initial)]);
        OneEvent(Deliver(initial));
      }
    }
  }

  lemma OneEvent(e: Event)
    ensures Upload([e]) == UploadOf(e)
  {
    assert [e][..0] == [];
  }

  lemma NoEvents()
    ensures Upload([]) == 0
  {
  }

  lemma SameRemote(m: map<u32, Remote>, id: u32)
    ensures Updated(m, id, Lookup(m, id)) == m
  {
  }

  lemma FeedNothing(utf8: Utf8)
    ensures Feed(NewUdp, [], utf8) == Fed(NewUdp, [], None)
  {
    FeedSettles(NewUdp, [], utf8);
  }

  lemma EmittedInTurn(id: u32, a: seq<Event>, b: seq<Event>)
    ensures Tagged(id, a + b) == Tagged(id, a) + Tagged(id, b)
    ensures Upload(a + b) == Upload(a) + Upload(b)
  {
    UploadAppends(a, b);
  }

  lemma IdleStep(s: State, f: Frame, utf8: Utf8)
    requires var next := StreamStep(Lookup(s.remotes, f.streamId), f, utf8);
             next.remote == Lookup(s.remotes, f.streamId) && next.events == []
    ensures var next := SessionStep(s, f, utf8);
            next.remotes == s.remotes && next.upload == s.upload && next.log == s.log
  {
    SameRemote(s.remotes, f.streamId);
    assert s.log + Tagged(f.streamId, []) == s.log;
  }

  lemma {:induction false} ErrorStops(frames: seq<Frame>, n: nat, utf8: Utf8)
    requires n <= |frames| && SessionRun(frames[..n], utf8).failure.Some?
    ensures SessionRun(frames, utf8) == SessionRun(frames[..n], utf8)
    decreases |frames| - n
  {
    hide SessionStep;
    if n == |frames| {
      assert frames[..n] == frames;
    } else {
      assert frames[..n + 1][..n] == frames[..n];
      ErrorStops(frames, n + 1, utf8);
    }
  }

  /** A run is the run of the frames it handled, all but the last without an error. */
  lemma {:induction false} HandledRun(frames: seq<Frame>, utf8: Utf8)
    ensures var h := Handled(frames, utf8);
            && SessionRun(h, utf8) == SessionRun(frames, utf8) && |h| <= |frames| && h == frames[..|h|]
            && (h != [] ==> SessionRun(h[..|h| - 1], utf8).failure.None?)
            && (SessionRun(frames, utf8).failure.None? ==> h == frames)
    decreases |frames|
  {
    hide SessionRun, Handled;
    if frames == [] {
      NothingHandled(utf8);
    } else {
      RunUnfolds(frames, utf8);
      var front := frames[..|frames| - 1];
      if SessionRun(front, utf8).failure.Some? {
        HandledRun(front, utf8);
        var h := Handled(front, utf8);
        assert front[..|h|] == frames[..|h|];
      } else {
        assert frames == frames[..|frames|];
      }
    }
  }

  lemma NothingHandled(utf8: Utf8)
    ensures Handled([], utf8) == []
  {
  }

  lemma RunUnfolds(frames: seq<Frame>, utf8: Utf8)
    requires frames != []
    ensures var front := frames[..|frames| - 1];
            if SessionRun(front, utf8).failure.Some?
            then SessionRun(frames, utf8) == SessionRun(front, utf8) && Handled(frames, utf8) == Handled(front, utf8)
            else Handled(frames, utf8) == frames
  {
    hide SessionStep;
  }

  // ---------- The session is the product of its streams ----------

  function FramesFor(frames: seq<Frame>, id: u32): seq<Frame> {
    if frames == [] then []
    else
      var last := frames[|frames| - 1];
      FramesFor(frames[..|frames| - 1], id) + (if last.streamId == id then [last] else [])
  }

  function EventsFor(log: seq<(u32, Event)>, id: u32): seq<Event> {
    if log == [] then []
    else
      var last := log[|log| - 1];
      EventsFor(log[..|log| - 1], id) + (if last.0 == id then [last.1] else [])
  }

  function Untagged(log: seq<(u32, Event)>): seq<Event> {
    seq(|log|, i requires 0 <= i < |log| => log[i].1)
  }

  lemma {:induction false} EventsForTagged(log: seq<(u32, Event)>, tag: u32, es: seq<Event>, id: u32)
    ensures EventsFor(log + Tagged(tag, es), id) == EventsFor(log, id) + (if tag == id then es else [])
    decreases |es|
  {
    if es == [] {
      assert log + Tagged(tag, es) == log;
    } else {
      var front := es[..|es| - 1];
      var whole := log + Tagged(tag, es);
      assert whole[..|whole| - 1] == log + Tagged(tag, front);
      EventsForTagged(log, tag, front, id);
      assert es == front + [es[|es| - 1]];
    }
  }

  lemma {:induction false} UploadAppends(a: seq<Event>, b: seq<Event>)
    ensures Upload(a + b) == Upload(a) + Upload(b)
    decreases |b|
  {
    if b == [] {
      assert a + b == a;
    } else {
      assert (a + b)[..|a + b| - 1] == a + b[..|b| - 1];
      UploadAppends(a, b[..|b| - 1]);
    }
  }

  /** Stream `id` of this session is where its own frames, alone, would have brought it. */
  ghost predicate Projects(s: State, frames: seq<Frame>, id: u32, utf8: Utf8) {
    var alone := StreamRun(FramesFor(frames, id), utf8);
    alone.remote == Lookup(s.remotes, id) && alone.events == EventsFor(s.log, id)
  }

  lemma FramesForSnoc(frames: seq<Frame>, f: Frame, id: u32)
    ensures FramesFor(frames + [f], id) == FramesFor(frames, id) + (if f.streamId == id then [f] else [])
  {
    assert (frames + [f])[..|frames|] == frames;
  }

  lemma StreamRunSnoc(frames: seq<Frame>, f: Frame, utf8: Utf8)
    requires StreamRun(frames, utf8).failure.None?
    ensures var before := StreamRun(frames, utf8);
            var after := StreamStep(before.remote, f, utf8);
            StreamRun(frames + [f], utf8) == after.(events := before.events + after.events)
  {
    hide StreamStep;
    assert (frames + [f])[..|frames|] == frames;
  }

  /** One step, failing or not, moves the stream of its frame as if alone and no other. */
  lemma StepProjects(s: State, frames: seq<Frame>, f: Frame, id: u32, utf8: Utf8)
    requires Projects(s, frames, id, utf8) && StreamRun(FramesFor(frames, id), utf8).failure.None?
    ensures Projects(SessionStep(s, f, utf8), frames + [f], id, utf8)
    ensures StreamRun(FramesFor(frames + [f], id), utf8).failure
         == if f.streamId == id then SessionStep(s, f, utf8).failure else None
  {
    hide StreamStep, StreamRun, FramesFor, EventsFor, Upload;
    var step := StreamStep(Lookup(s.remotes, f.streamId), f, utf8);
    EventsForTagged(s.log, f.streamId, step.events, id);
    FramesForSnoc(frames, f, id);
    StreamRunSnoc(FramesFor(frames, id), f, utf8);
    assert FramesFor(frames, id) + [] == FramesFor(frames, id);
    assert EventsFor(s.log, id) + [] == EventsFor(s.log, id);
  }

  lemma NewProjects(id: u32, utf8: Utf8)
    ensures Projects(NewSession, [], id, utf8) && StreamRun(FramesFor([], id), utf8).failure.None?
  {
  }

  /** Without an error before the last frame, and for the last frame too. */
  lemma {:induction false} RunProjects(frames: seq<Frame>, id: u32, utf8: Utf8)
    requires frames != [] ==> SessionRun(frames[..|frames| - 1], utf8).failure.None?
    ensures Projects(SessionRun(frames, utf8), frames, id, utf8)
    ensures StreamRun(FramesFor(frames, id), utf8).failure
         == if frames != [] && frames[|frames| - 1].streamId == id then SessionRun(frames, utf8).failure else None
    decreases |frames|
  {
    hide SessionStep, Projects, StreamRun, FramesFor;
    if frames == [] {
      NewProjects(id, utf8);
    } else {
      var front, last := frames[..|frames| - 1], frames[|frames| - 1];
      assert frames == front + [last];
      NoFailureBefore(front, utf8);
      RunProjects(front, id, utf8);
      StepProjects(SessionRun(front, utf8), front, last, id, utf8);
    }
  }

  lemma NoFailureBefore(frames: seq<Frame>, utf8: Utf8)
    requires SessionRun(frames, utf8).failure.None?
    ensures frames != [] ==> SessionRun(frames[..|frames| - 1], utf8).failure.None?
  {
    hide SessionStep;
  }

  /**
   On every run, whether or not it ends in an error, each stream's remote and everything it
   sent out are a function of the handled frames carrying its own id, in their own order.
   */
  lemma SessionIsProduct(frames: seq<Frame>, id: u32, utf8: Utf8)
    ensures Projects(SessionRun(frames, utf8), Handled(frames, utf8), id, utf8)
  {
    hide SessionRun, Projects;
    HandledRun(frames, utf8);
    RunProjects(Handled(frames, utf8), id, utf8);
  }

  /** Whatever other streams do, a stream of which the same frames were handled did the same things. */
  lemma StreamsDoNotInterfere(frames: seq<Frame>, frames': seq<Frame>, id: u32, utf8: Utf8)
    requires FramesFor(Handled(frames, utf8), id) == FramesFor(Handled(frames', utf8), id)
    ensures var s, s' := SessionRun(frames, utf8), SessionRun(frames', utf8);
            Lookup(s.remotes, id) == Lookup(s'.remotes, id) && EventsFor(s.log, id) == EventsFor(s'.log, id)
  {
    hide SessionRun, StreamRun, FramesFor, Handled;
    SessionIsProduct(frames, id, utf8);
    SessionIsProduct(frames', id, utf8);
  }

  ghost predicate StreamsRun(frames: seq<Frame>, utf8: Utf8) {
    forall id: u32 :: StreamRun(FramesFor(frames, id), utf8).failure.None?
  }

  /** A failed stream stays failed. */
  lemma {:induction false} FailureStays(frames: seq<Frame>, n: nat, id: u32, utf8: Utf8)
    requires n <= |frames| && StreamRun(FramesFor(frames[..n], id), utf8).failure.Some?
    ensures StreamRun(FramesFor(frames, id), utf8) == StreamRun(FramesFor(frames[..n], id), utf8)
    decreases |frames| - n
  {
    hide StreamRun, FramesFor;
    if n == |frames| {
      assert frames[..n] == frames;
    } else {
      var own := FramesFor(frames[..n], id);
      assert frames[..n + 1] == frames[..n] + [frames[n]];
      FramesForSnoc(frames[..n], frames[n], id);
      FailedStops(own, frames[n], utf8);
      assert own + [] == own;
      FailureStays(frames, n + 1, id, utf8);
    }
  }

  lemma FailedStops(frames: seq<Frame>, f: Frame, utf8: Utf8)
    requires StreamRun(frames, utf8).failure.Some?
    ensures StreamRun(frames + [f], utf8) == StreamRun(frames, utf8)
  {
    hide StreamStep;
    assert (frames + [f])[..|frames|] == frames;
  }

  /** The session fails exactly when one of its streams, run alone, fails, and then with its error. */
  lemma SessionFailsWithAStream(frames: seq<Frame>, utf8: Utf8)
    ensures SessionRun(frames, utf8).failure.None? <==> StreamsRun(frames, utf8)
    ensures SessionRun(frames, utf8).failure.Some? ==>
              exists id: u32 :: StreamRun(FramesFor(frames, id), utf8).failure == SessionRun(frames, utf8).failure
  {
    hide StreamRun, FramesFor, SessionRun, Projects;
    var h := Handled(frames, utf8);
    HandledRun(frames, utf8);
    if SessionRun(frames, utf8).failure.None? {
      forall id: u32 ensures StreamRun(FramesFor(frames, id), utf8).failure.None? {
        RunProjects(frames, id, utf8);
      }
    } else {
      NewIsFine(utf8);
      var id: u32 := h[|h| - 1].streamId;
      RunProjects(h, id, utf8);
      assert h == frames[..|h|];
      FailureStays(frames, |h|, id, utf8);
      assert StreamRun(FramesFor(frames, id), utf8).failure == SessionRun(frames, utf8).failure;
    }
  }

  lemma NewIsFine(utf8: Utf8)
    ensures SessionRun([], utf8).failure.None?
  {
  }

  /** On every run the upload counter is the number of bytes handed to all remotes together. */
  lemma {:induction false} UploadIsConserved(frames: seq<Frame>, utf8: Utf8)
    ensures var s := SessionRun(frames, utf8); s.upload == Upload(Untagged(s.log))
    decreases |frames|
  {
    hide SessionStep;
    if frames != [] {
      UploadIsConserved(frames[..|frames| - 1], utf8);
      StepConserves(SessionRun(frames[..|frames| - 1], utf8), frames[|frames| - 1], utf8);
    }
  }

  lemma StepConserves(s: State, f: Frame, utf8: Utf8)
    requires s.upload == Upload(Untagged(s.log))
    ensures var t := SessionStep(s, f, utf8); t.upload == Upload(Untagged(t.log))
  {
    hide StreamStep, Upload;
    var es := StreamStep(Lookup(s.remotes, f.streamId), f, utf8).events;
    assert Untagged(s.log + Tagged(f.streamId, es)) == Untagged(s.log) + es;
    UploadAppends(Untagged(s.log), es);
  }

  function HeartRequests(frames: seq<Frame>): nat {
    if frames == [] then 0
    else
      HeartRequests(frames[..|frames| - 1])
      + (if frames[|frames| - 1].command == CMD_HEART_REQUEST then 1 else 0)
  }

  /** On every run each heart request that was handled, on whatever stream, got one response. */
  lemma {:induction false} HeartbeatsAreAnswered(frames: seq<Frame>, utf8: Utf8)
    ensures SessionRun(frames, utf8).heartbeats == HeartRequests(Handled(frames, utf8))
    decreases |frames|
  {
    hide StreamStep, Upload;
    if frames != [] {
      HeartbeatsAreAnswered(frames[..|frames| - 1], utf8);
      HandledRun(frames[..|frames| - 1], utf8);
    }
  }

  /** The settings frame answered is the first one handled, on whatever stream, and no other. */
  lemma {:induction false} FirstSettingsAnswered(frames: seq<Frame>, i: nat, utf8: Utf8)
    requires SessionRun(frames, utf8).failure.None? && i < |frames| && frames[i].command == CMD_SETTINGS
    requires forall j | 0 <= j < i :: frames[j].command != CMD_SETTINGS
    ensures SessionRun(frames, utf8).settings == Some(frames[i].body)
    decreases |frames|
  {
    hide StreamStep, Upload;
    var front := frames[..|frames| - 1];
    if i < |front| {
      FirstSettingsAnswered(front, i, utf8);
    } else {
      NoSettingsYet(front, utf8);
    }
  }

  lemma {:induction false} NoSettingsYet(frames: seq<Frame>, utf8: Utf8)
    requires forall j | 0 <= j < |frames| :: frames[j].command != CMD_SETTINGS
    ensures SessionRun(frames, utf8).settings == None
    decreases |frames|
  {
    hide StreamStep, Upload;
    if frames != [] {
      NoSettingsYet(frames[..|frames| - 1], utf8);
    }
  }

  // ---------- Responses ----------

  /** The longest response payload whose packet still fits one frame. */
  function MaxResponse(connectMode: bool, source: Target): nat {
    if connectMode then 65533 else if source.host.V4? then 65526 else 65514
  }

  lemma ResponseFits(connectMode: bool, source: Target, payload: bytes)
    requires IsSocketAddr(source)
    ensures |PacketBytes(connectMode, source, payload)| <= MAX_FRAME_PAYLOAD
       <==> |payload| <= MaxResponse(connectMode, source)
  {
  }

  /**
   A response is encoded and written as one frame of its stream. It goes out whole and parses
   back to the payload exactly when the call succeeds; one that does not fit a frame is refused
   and nothing is written.
   */
  method SendResponse(writer: ShortWriter, id: u32, connectMode: bool, source: Target, payload: bytes,
                      ghost target: Target, ghost utf8: Utf8)
    returns (r: Result<(), ErrorKind>, ghost sent: nat)
    requires IsSocketAddr(source)
    modifies writer
    ensures |payload| > MaxResponse(connectMode, source) ==>
              r == Err(InvalidInput) && writer.accepted == old(writer.accepted)
    ensures |payload| <= MaxResponse(connectMode, source) ==>
              && |PacketBytes(connectMode, source, payload)| <= MAX_FRAME_PAYLOAD
              && var frame := FrameBytes(Frame(CMD_PSH, id, PacketBytes(connectMode, source, payload)));
                 && sent <= |frame| && writer.accepted == old(writer.accepted) + frame[..sent]
                 && (r.Ok? <==> sent == |frame|)
                 && Uot.ReadsBack(connectMode, source, payload, [], target, utf8)
  {
    hide PacketBytes, FrameBytes, Uot.ReadsBack, IsSocketAddr, MaxResponse;
    ResponseFits(connectMode, source, payload);
    var packet := EncodeUotPacket(connectMode, source, payload);
    if |payload| <= MaxResponse(connectMode, source) {
      MaxIsSmall(connectMode, source);
      PacketRoundTripExact(connectMode, source, payload, [], target, utf8);
    }
    r, sent := WriteFrame(writer, CMD_PSH, id, packet);
  }

  lemma MaxIsSmall(connectMode: bool, source: Target)
    ensures MaxResponse(connectMode, source) <= 65535
  {
  }

  /** A frame that carries a response is read as that frame, and its body as the response. */
  ghost predicate Arrives(id: u32, connectMode: bool, source: Target, payload: bytes, tail: bytes,
                          target: Target, utf8: Utf8)
    requires IsSocketAddr(source)
  {
    var body := PacketBytes(connectMode, source, payload);
    && |body| <= MAX_FRAME_PAYLOAD
    && ReadFrame(FrameBytes(Frame(CMD_PSH, id, body)) + tail) == Some(Read(Frame(CMD_PSH, id, body), tail))
    && ParsePacket(body, connectMode, Some(target), utf8)
       == Ok(Some(Packet(if connectMode then target else source, payload, |body|)))
  }

  /**
   End to end the bound is exact: a response fits a frame, and is then read back whatever
   follows, if and only if its payload has at most 65533 bytes in connect mode, and otherwise
   65526 from an IPv4 and 65514 from an IPv6 peer.
   */
  lemma ResponseArrivesExact(id: u32, connectMode: bool, source: Target, payload: bytes, tail: bytes,
                             target: Target, utf8: Utf8)
    requires IsSocketAddr(source)
    ensures Arrives(id, connectMode, source, payload, tail, target, utf8)
       <==> |payload| <= MaxResponse(connectMode, source)
  {
    hide PacketBytes, FrameBytes, ReadFrame, ParsePacket, MaxResponse, IsSocketAddr;
    ResponseFits(connectMode, source, payload);
    var body := PacketBytes(connectMode, source, payload);
    if |payload| <= MaxResponse(connectMode, source) {
      MaxIsSmall(connectMode, source);
      FrameIsRead(Frame(CMD_PSH, id, body), tail);
      PacketRoundTripExact(connectMode, source, payload, [], target, utf8);
      assert body + [] == body;
    }
  }
}
