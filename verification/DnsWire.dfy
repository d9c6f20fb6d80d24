/**
 The DNS message codec: a query is written for a host name, and a response is read back,
 following compression pointers with a bound of 128 steps per name.
 */
module DnsWire {
  import opened Wrappers
  import opened Bytes

  const DOT: byte := 46
  const MAX_NAME_STEPS: nat := 128

  datatype Ip = V4(octets: bytes) | V6(octets: bytes)

  type Label = l: bytes | |l| <= 63

  // ---------- Writing a query ----------

  function TrimDots(host: bytes): bytes {
    if host != [] && host[|host| - 1] == DOT then TrimDots(host[..|host| - 1]) else host
  }

  function SplitDots(host: bytes): (labels: seq<bytes>)
    ensures labels != []
  {
    if host == [] then [[]]
    else
      var rest := SplitDots(host[1..]);
      if host[0] == DOT then [[]] + rest else [[host[0]] + rest[0]] + rest[1..]
  }

  function JoinDots(labels: seq<bytes>): bytes {
    if labels == [] then []
    else if |labels| == 1 then labels[0]
    else labels[0] + [DOT] + JoinDots(labels[1..])
  }

  /** Splitting loses nothing and leaves no dot inside a label. */
  lemma {:induction false} SplitRoundTrip(host: bytes)
    ensures JoinDots(SplitDots(host)) == host
    ensures forall l | l in SplitDots(host) :: DOT !in l
  {
    if host != [] {
      SplitRoundTrip(host[1..]);
      var rest := SplitDots(host[1..]);
      assert host == [host[0]] + host[1..];
      hide SplitDots, JoinDots;
      SplitUnfolds(host);
      if host[0] == DOT {
        JoinBlank(rest);
      } else {
        JoinLonger(host[0], rest);
        assert rest[0] in rest && forall l | l in rest[1..] :: l in rest;
      }
    }
  }

  lemma SplitUnfolds(host: bytes)
    requires host != []
    ensures var rest := SplitDots(host[1..]);
            SplitDots(host) == if host[0] == DOT then [[]] + rest else [[host[0]] + rest[0]] + rest[1..]
  {
  }

  lemma JoinBlank(labels: seq<bytes>)
    requires labels != []
    ensures JoinDots([[]] + labels) == [DOT] + JoinDots(labels)
  {
    assert ([[]] + labels)[1..] == labels;
  }

  lemma JoinLonger(b: byte, labels: seq<bytes>)
    requires labels != []
    ensures JoinDots([[b] + labels[0]] + labels[1..]) == [b] + JoinDots(labels)
  {
    assert ([[b] + labels[0]] + labels[1..])[1..] == labels[1..];
  }

  predicate IsLabel(l: bytes) {
    1 <= |l| <= 63
  }

  predicate AreLabels(labels: seq<bytes>) {
    forall i | 0 <= i < |labels| :: IsLabel(labels[i])
  }

  function NameBytes(labels: seq<Label>): (b: bytes)
    ensures |b| >= 1
  {
    if labels == [] then [0] else [|labels[0]|] + (labels[0] + NameBytes(labels[1..]))
  }

  function QuestionBytes(labels: seq<Label>, qtype: u16): bytes {
    NameBytes(labels) + (U16Be(qtype) + U16Be(1))
  }

  function HeaderBytes(id: u16, flags: u16, questions: u16, answers: u16): (h: bytes)
    ensures |h| == 12
  {
    U16Be(id) + U16Be(flags) + U16Be(questions) + U16Be(answers) + U16Be(0) + U16Be(0)
  }

  lemma {:induction false} NameBytesSnoc(labels: seq<Label>, l: Label)
    ensures var n := NameBytes(labels);
            NameBytes(labels + [l]) == n[..|n| - 1] + [|l|] + l + [0]
  {
    if labels == [] {
      assert (labels + [l])[1..] == [];
    } else {
      assert (labels + [l])[1..] == labels[1..] + [l];
      NameBytesSnoc(labels[1..], l);
    }
  }

  /** A host whose labels are all 1 to 63 bytes gets a query; any other gets an error. */
  method EncodeQuery(id: u16, host: bytes, qtype: u16) returns (r: Result<bytes, ErrorKind>)
    ensures var labels := SplitDots(TrimDots(host));
            if AreLabels(labels) then r == Ok(HeaderBytes(id, 0x0100, 1, 0) + QuestionBytes(labels, qtype))
            else r == Err(InvalidInput)
  {
    hide NameBytes, SplitDots, TrimDots, U16Be;
    var output := U16Be(id);
    output := output + U16Be(0x0100);
    output := output + U16Be(1);
    output := output + U16Be(0);
    output := output + U16Be(0);
    output := output + U16Be(0);
    ghost var header := HeaderBytes(id, 0x0100, 1, 0);
    assert output == header;
    NoLabels();
    var labels := SplitDots(TrimDots(host));
    ghost var n := NameBytes([]);
    assert output == header + n[..|n| - 1];
    for i := 0 to |labels|
      invariant AreLabels(labels[..i])
      invariant n == NameBytes(labels[..i]) && output == header + n[..|n| - 1]
    {
      if !IsLabel(labels[i]) {
        return Err(InvalidInput);
      }
      NameBytesSnoc(labels[..i], labels[i]);
      assert labels[..i + 1] == labels[..i] + [labels[i]];
      n := NameBytes(labels[..i + 1]);
      output := output + [|labels[i]|];
      output := output + labels[i];
    }
    assert labels[..|labels|] == labels;
    NameEndsInZero(labels);
    output := output + [0];
    output := output + U16Be(qtype);
    output := output + U16Be(1);
    assert output == header + QuestionBytes(labels, qtype);
    return Ok(output);
  }

  lemma NoLabels()
    ensures |NameBytes([])| == 1
  {
  }

  lemma {:induction false} NameEndsInZero(labels: seq<Label>)
    ensures var n := NameBytes(labels); n == n[..|n| - 1] + [0]
  {
    if labels != [] {
      NameEndsInZero(labels[1..]);
    }
  }

  // ---------- Reading a name ----------

  /** The 14-bit offset of a compression pointer. */
  function Pointer(hi: byte, lo: byte): nat
    requires hi >= 0xc0
  {
    (hi as int - 0xc0) * 256 + lo
  }

  /** The offset after the name at `cursor`, with at most `steps` lengths or pointers read. */
  function NameFrom(input: bytes, cursor: nat, jumped: bool, offset: nat, steps: nat)
    : Result<nat, ErrorKind>
    decreases steps
  {
    if steps == 0 then Err(InvalidData)
    else if cursor >= |input| then Err(UnexpectedEof)
    else if input[cursor] >= 0xc0 then
      if cursor + 1 >= |input| then Err(UnexpectedEof)
      else
        NameFrom(input, Pointer(input[cursor], input[cursor + 1]), true,
                 if jumped then offset else cursor + 2, steps - 1)
    else if input[cursor] == 0 then Ok(if jumped then offset else cursor + 1)
    else
      var next := cursor + 1 + input[cursor];
      if next > |input| then Err(UnexpectedEof)
      else NameFrom(input, next, jumped, if jumped then offset else next, steps - 1)
  }

  function NameAt(input: bytes, offset: nat): Result<nat, ErrorKind> {
    NameFrom(input, offset, false, offset, MAX_NAME_STEPS)
  }

  method ReadName(input: bytes, offset: nat) returns (r: Result<nat, ErrorKind>)
    ensures r == NameAt(input, offset)
  {
    var cursor: nat, jumped, after: nat := offset, false, offset;
    for i := 0 to MAX_NAME_STEPS
      invariant NameFrom(input, cursor, jumped, after, MAX_NAME_STEPS - i) == NameAt(input, offset)
    {
      if cursor >= |input| {
        return Err(UnexpectedEof);
      }
      var len := input[cursor];
      if len >= 0xc0 {
        if cursor + 1 >= |input| {
          return Err(UnexpectedEof);
        }
        if !jumped {
          after := cursor + 2;
        }
        cursor := Pointer(len, input[cursor + 1]);
        jumped := true;
      } else if len == 0 {
        if !jumped {
          after := cursor + 1;
        }
        return Ok(after);
      } else {
        cursor := cursor + 1 + len;
        if cursor > |input| {
          return Err(UnexpectedEof);
        }
        if !jumped {
          after := cursor;
        }
      }
    }
    return Err(InvalidData);
  }

  /** Wherever pointers lead, a name that is read ends after it began and inside the input. */
  lemma {:induction false} NameAdvances(input: bytes, cursor: nat, jumped: bool, offset: nat, steps: nat)
    ensures match NameFrom(input, cursor, jumped, offset, steps)
            case Err(_) => true
            case Ok(end) => if jumped then end == offset else cursor < end <= |input|
    decreases steps
  {
    if steps > 0 && cursor < |input| {
      if input[cursor] >= 0xc0 {
        if cursor + 1 < |input| {
          NameAdvances(input, Pointer(input[cursor], input[cursor + 1]), true,
                       if jumped then offset else cursor + 2, steps - 1);
        }
      } else if input[cursor] != 0 {
        var next := cursor + 1 + input[cursor];
        NameAdvances(input, next, jumped, if jumped then offset else next, steps - 1);
      }
    }
  }

  /** A length byte below 0xc0 announces that many bytes, also where RFC 1035 allows at most 63. */
  type Piece = l: bytes | |l| < 0xc0

  /** One step of a name: a label, or a jump to another place in the message. */
  datatype Hop = Part(text: Piece) | Jump(target: nat)

  predicate IsHop(h: Hop) {
    match h
    case Part(l) => l != []
    case Jump(target) => target < 0x4000
  }

  ghost predicate AreHops(path: seq<Hop>) {
    forall i | 0 <= i < |path| :: IsHop(path[i])
  }

  lemma HopsTail(path: seq<Hop>)
    requires path != []
    ensures AreHops(path) <==> IsHop(path[0]) && AreHops(path[1..])
  {
    if IsHop(path[0]) && AreHops(path[1..]) {
      forall i | 0 <= i < |path| ensures IsHop(path[i]) {
        assert i > 0 ==> path[1..][i - 1] == path[i];
      }
    }
  }

  function HopBytes(h: Hop): (b: bytes)
    requires IsHop(h)
    ensures |b| >= 2
  {
    match h
    case Part(l) => [|l|] + l
    case Jump(target) => [0xc0 + target / 256, target % 256]
  }

  /** Where the name goes on. */
  function Next(cursor: nat, h: Hop): nat
    requires IsHop(h)
  {
    if h.Jump? then h.target else cursor + |HopBytes(h)|
  }

  /** The steps of the name at `cursor`, up to the zero byte that ends it, wherever jumps lead. */
  ghost predicate Stands(input: bytes, cursor: nat, path: seq<Hop>)
    decreases |path|
  {
    if path == [] then At(input, cursor, [0])
    else
      && IsHop(path[0]) && At(input, cursor, HopBytes(path[0]))
      && Stands(input, Next(cursor, path[0]), path[1..])
  }

  /** Where reading goes on: after the zero byte, or after the first jump. */
  function PathEnd(cursor: nat, path: seq<Hop>): nat
    requires AreHops(path)
    decreases |path|
  {
    if path == [] then cursor + 1
    else if path[0].Jump? then cursor + 2
    else PathEnd(cursor + |HopBytes(path[0])|, path[1..])
  }

  lemma {:induction false} StandsHops(input: bytes, cursor: nat, path: seq<Hop>)
    requires Stands(input, cursor, path)
    ensures AreHops(path)
    decreases |path|
  {
    if path != [] {
      hide At, HopBytes, AreHops;
      StandsHops(input, Next(cursor, path[0]), path[1..]);
      HopsTail(path);
    }
  }

  /** One hop costs one step. */
  lemma HopIsRead(input: bytes, cursor: nat, h: Hop, jumped: bool, offset: nat, steps: nat)
    requires IsHop(h) && At(input, cursor, HopBytes(h)) && steps > 0
    ensures NameFrom(input, cursor, jumped, offset, steps)
         == match h
            case Part(l) =>
              var next := cursor + |HopBytes(h)|;
              NameFrom(input, next, jumped, if jumped then offset else next, steps - 1)
            case Jump(target) => NameFrom(input, target, true, if jumped then offset else cursor + 2, steps - 1)
  {
    AtIndex(input, cursor, HopBytes(h), 0);
    AtIndex(input, cursor, HopBytes(h), 1);
  }

  lemma EndIsRead(input: bytes, cursor: nat, jumped: bool, offset: nat, steps: nat)
    requires At(input, cursor, [0]) && steps > 0
    ensures NameFrom(input, cursor, jumped, offset, steps) == Ok(if jumped then offset else cursor + 1)
  {
    AtIndex(input, cursor, [0], 0);
  }

  lemma {:induction false} PathIsRead(input: bytes, cursor: nat, path: seq<Hop>,
                                      jumped: bool, offset: nat, steps: nat)
    requires Stands(input, cursor, path) && AreHops(path)
    ensures NameFrom(input, cursor, jumped, offset, steps)
         == if |path| < steps then Ok(if jumped then offset else PathEnd(cursor, path)) else Err(InvalidData)
    decreases |path|
  {
    hide NameFrom, HopBytes, At, Stands, PathEnd, AreHops, IsHop;
    if steps == 0 {
      NoSteps(input, cursor, jumped, offset);
    } else if path == [] {
      PathEnds(input, cursor);
      EndIsRead(input, cursor, jumped, offset, steps);
    } else {
      HopsTail(path);
      PathUnfolds(input, cursor, path);
      HopIsRead(input, cursor, path[0], jumped, offset, steps);
      var next := Next(cursor, path[0]);
      var after := if jumped then offset else if path[0].Jump? then cursor + 2 else next;
      PathIsRead(input, next, path[1..], jumped || path[0].Jump?, after, steps - 1);
    }
  }

  lemma NoSteps(input: bytes, cursor: nat, jumped: bool, offset: nat)
    ensures NameFrom(input, cursor, jumped, offset, 0) == Err(InvalidData)
  {
  }

  lemma PathEnds(input: bytes, cursor: nat)
    ensures Stands(input, cursor, []) <==> At(input, cursor, [0])
    ensures PathEnd(cursor, []) == cursor + 1
  {
    hide At;
  }

  lemma PathUnfolds(input: bytes, cursor: nat, path: seq<Hop>)
    requires path != [] && Stands(input, cursor, path) && AreHops(path)
    ensures At(input, cursor, HopBytes(path[0])) && Stands(input, Next(cursor, path[0]), path[1..])
    ensures PathEnd(cursor, path)
         == if path[0].Jump? then cursor + 2 else PathEnd(Next(cursor, path[0]), path[1..])
  {
    hide At, HopBytes;
  }

  /** The hop that the reader sees at a place. */
  lemma HopIsThere(input: bytes, cursor: nat) returns (h: Hop)
    requires cursor < |input| && input[cursor] != 0
    requires if input[cursor] >= 0xc0 then cursor + 1 < |input| else cursor + 1 + input[cursor] <= |input|
    ensures IsHop(h) && At(input, cursor, HopBytes(h)) && (h.Jump? <==> input[cursor] >= 0xc0)
    ensures if h.Jump? then h.target == Pointer(input[cursor], input[cursor + 1])
            else |HopBytes(h)| == 1 + input[cursor]
  {
    if input[cursor] >= 0xc0 {
      var hi, lo := input[cursor], input[cursor + 1];
      h := Jump(Pointer(hi, lo));
      assert input[cursor..cursor + 2] == [hi, lo];
    } else {
      h := Part(input[cursor + 1..cursor + 1 + input[cursor]]);
      assert input[cursor..cursor + 1 + input[cursor]] == HopBytes(h);
    }
  }

  lemma StandsFrom(input: bytes, cursor: nat, h: Hop, rest: seq<Hop>)
    requires IsHop(h) && At(input, cursor, HopBytes(h)) && Stands(input, Next(cursor, h), rest)
    ensures Stands(input, cursor, [h] + rest)
  {
    hide At, HopBytes;
    assert ([h] + rest)[1..] == rest;
  }

  /** A name that is read ends here, or begins with a hop and goes on. */
  lemma FirstHop(input: bytes, cursor: nat, jumped: bool, offset: nat, steps: nat)
    returns (h: Hop, jumped': bool, offset': nat)
    requires NameFrom(input, cursor, jumped, offset, steps).Ok? && input[cursor] != 0
    ensures steps > 0 && IsHop(h) && At(input, cursor, HopBytes(h))
    ensures NameFrom(input, Next(cursor, h), jumped', offset', steps - 1).Ok?
  {
    h := HopIsThere(input, cursor);
    hide At, HopBytes;
    jumped' := jumped || h.Jump?;
    offset' := if jumped then offset else if h.Jump? then cursor + 2 else Next(cursor, h);
  }

  lemma ReadIsInside(input: bytes, cursor: nat, jumped: bool, offset: nat, steps: nat)
    requires NameFrom(input, cursor, jumped, offset, steps).Ok?
    ensures steps > 0 && cursor < |input| && (input[cursor] == 0 ==> At(input, cursor, [0]))
  {
  }

  /** Whatever is read as a name is such a path, short enough. */
  lemma {:induction false} ReadHasPath(input: bytes, cursor: nat, jumped: bool, offset: nat, steps: nat)
    returns (path: seq<Hop>)
    requires NameFrom(input, cursor, jumped, offset, steps).Ok?
    ensures Stands(input, cursor, path) && |path| < steps
    decreases steps
  {
    hide NameFrom, HopBytes, At;
    ReadIsInside(input, cursor, jumped, offset, steps);
    if input[cursor] == 0 {
      path := [];
    } else {
      var h, jumped', offset' := FirstHop(input, cursor, jumped, offset, steps);
      var rest := ReadHasPath(input, Next(cursor, h), jumped', offset', steps - 1);
      hide Stands;
      StandsFrom(input, cursor, h, rest);
      path := [h] + rest;
    }
  }

  /** Some name of at most 127 labels and jumps stands here. */
  ghost predicate HasName(input: bytes, offset: nat) {
    exists path: seq<Hop> :: Stands(input, offset, path) && |path| <= 127
  }

  /**
   The bound is exact, on every input: a name is read if and only if labels and jumps that end
   in a zero byte stand there, at most 127 together. Reading then goes on after the zero byte or
   the first jump; with more of them, InvalidData.
   */
  lemma NameReadExact(input: bytes, offset: nat)
    ensures NameAt(input, offset).Ok? <==> HasName(input, offset)
  {
    if NameAt(input, offset).Ok? {
      var path := ReadHasPath(input, offset, false, offset, MAX_NAME_STEPS);
    }
    if HasName(input, offset) {
      var path :| Stands(input, offset, path) && |path| <= 127;
      NameIsRead(input, offset, path);
    }
  }

  lemma NameIsRead(input: bytes, offset: nat, path: seq<Hop>)
    requires Stands(input, offset, path)
    ensures AreHops(path)
    ensures NameAt(input, offset) == if |path| <= 127 then Ok(PathEnd(offset, path)) else Err(InvalidData)
  {
    hide NameFrom, Stands;
    StandsHops(input, offset, path);
    PathIsRead(input, offset, path, false, offset, MAX_NAME_STEPS);
  }

  // ---------- Writing names with jumps ----------

  /** The name as it is written at its own place: up to the end, or to the first jump. */
  function NameFormBytes(path: seq<Hop>): (b: bytes)
    requires AreHops(path)
    ensures |b| >= 1
  {
    if path == [] then [0]
    else if path[0].Jump? then HopBytes(path[0])
    else HopBytes(path[0]) + NameFormBytes(path[1..])
  }

  /** The name is made of hops, and what follows its first jump stands where that leads. */
  ghost predicate Resolves(input: bytes, path: seq<Hop>) {
    path == [] ||
    (IsHop(path[0]) && if path[0].Jump? then Stands(input, path[0].target, path[1..]) else Resolves(input, path[1..]))
  }

  /** Written at its place, a name that resolves stands there and ends there. */
  lemma {:induction false} WrittenStands(input: bytes, cursor: nat, path: seq<Hop>)
    requires Resolves(input, path) && AreHops(path)
    requires At(input, cursor, NameFormBytes(path))
    ensures Stands(input, cursor, path) && PathEnd(cursor, path) == cursor + |NameFormBytes(path)|
    decreases |path|
  {
    hide At, HopBytes, Stands, PathEnd, AreHops, IsHop;
    if path == [] {
      PathEnds(input, cursor);
    } else {
      HopsTail(path);
      assert path == [path[0]] + path[1..];
      if path[0].Part? {
        AtSplit(input, cursor, HopBytes(path[0]), NameFormBytes(path[1..]));
        WrittenStands(input, cursor + |HopBytes(path[0])|, path[1..]);
      } else {
        JumpLength(path[0]);
      }
      StandsFrom(input, cursor, path[0], path[1..]);
      PathUnfolds(input, cursor, path);
    }
  }

  lemma JumpLength(h: Hop)
    requires IsHop(h) && h.Jump?
    ensures |HopBytes(h)| == 2
  {
  }

  /** A name without jumps. */
  function Spelled(labels: seq<Label>): (path: seq<Hop>)
    ensures |path| == |labels|
  {
    seq(|labels|, i requires 0 <= i < |labels| => Part(labels[i]))
  }

  lemma {:induction false} SpelledIsInline(input: bytes, labels: seq<Label>)
    requires AreLabels(labels)
    ensures Resolves(input, Spelled(labels)) && AreHops(Spelled(labels))
    ensures NameFormBytes(Spelled(labels)) == NameBytes(labels)
    decreases |labels|
  {
    assert forall i | 0 <= i < |labels| :: IsLabel(labels[i]);
    if labels != [] {
      assert Spelled(labels)[1..] == Spelled(labels[1..]);
      SpelledIsInline(input, labels[1..]);
      assert ([|labels[0]|] + labels[0]) + NameBytes(labels[1..]) == NameBytes(labels);
    }
  }

  /** The usual answer name, a pointer to the question, resolves; it costs one step more. */
  lemma PointerToQuestion(input: bytes, question: seq<Label>)
    requires AreLabels(question) && At(input, 12, NameBytes(question))
    ensures Resolves(input, [Jump(12)] + Spelled(question))
  {
    SpelledIsInline(input, question);
    WrittenStands(input, 12, Spelled(question));
    assert ([Jump(12)] + Spelled(question))[1..] == Spelled(question);
  }

  // ---------- Reading a response ----------

  function Questions(input: bytes, offset: nat, count: nat): Result<nat, ErrorKind>
    decreases count
  {
    if count == 0 then Ok(offset)
    else
      match NameAt(input, offset)
      case Err(e) => Err(e)
      case Ok(end) =>
        if |input| < end + 4 then Err(UnexpectedEof) else Questions(input, end + 4, count - 1)
  }

  /** The address a record of this type, class and data carries, if it answers the query. */
  function Address(rtype: u16, rclass: u16, data: bytes, qtype: u16): seq<Ip> {
    if rclass != 1 || rtype != qtype then []
    else if rtype == 1 && |data| == 4 then [V4(data)]
    else if rtype == 28 && |data| == 16 then [V6(data)]
    else []
  }

  datatype Answer = Answer(ips: seq<Ip>, end: nat)

  /** One record: its name, ten bytes of fields, then the data they announce. */
  function AnswerAt(input: bytes, offset: nat, qtype: u16): Result<Answer, ErrorKind> {
    match NameAt(input, offset)
    case Err(e) => Err(e)
    case Ok(at) =>
      if |input| < at + 10 then Err(UnexpectedEof)
      else
        var end := at + 10 + ReadU16(input[at + 8], input[at + 9]);
        if |input| < end then Err(UnexpectedEof)
        else
          var ips := Address(ReadU16(input[at], input[at + 1]), ReadU16(input[at + 2], input[at + 3]),
                             input[at + 10..end], qtype);
          Ok(Answer(ips, end))
  }

  function Answers(input: bytes, offset: nat, count: nat, qtype: u16): Result<seq<Ip>, ErrorKind>
    decreases count
  {
    if count == 0 then Ok([])
    else
      match AnswerAt(input, offset, qtype)
      case Err(e) => Err(e)
      case Ok(a) =>
        match Answers(input, a.end, count - 1, qtype)
        case Err(e) => Err(e)
        case Ok(more) => Ok(a.ips + more)
  }

  /** The response bit is set and the response code is zero. */
  predicate IsSuccess(flags: u16) {
    flags >= 0x8000 && flags % 16 == 0
  }

  function Response(input: bytes, id: u16, qtype: u16): Result<seq<Ip>, ErrorKind> {
    if |input| < 12 then Err(UnexpectedEof)
    else if ReadU16(input[0], input[1]) != id then Err(InvalidData)
    else if !IsSuccess(ReadU16(input[2], input[3])) then Err(InvalidData)
    else
      match Questions(input, 12, ReadU16(input[4], input[5]))
      case Err(e) => Err(e)
      case Ok(offset) => Answers(input, offset, ReadU16(input[6], input[7]), qtype)
  }

  method ReadAnswer(input: bytes, offset: nat, qtype: u16) returns (r: Result<Answer, ErrorKind>)
    ensures r == AnswerAt(input, offset, qtype)
  {
    var name := ReadName(input, offset);
    if name.Err? {
      return Err(name.error);
    }
    var at := name.value;
    if |input| < at + 10 {
      return Err(UnexpectedEof);
    }
    var rtype := ReadU16(input[at], input[at + 1]);
    var rclass := ReadU16(input[at + 2], input[at + 3]);
    var dataLen := ReadU16(input[at + 8], input[at + 9]);
    at := at + 10;
    if |input| < at + dataLen {
      return Err(UnexpectedEof);
    }
    var ips: seq<Ip> := [];
    if rclass == 1 && rtype == qtype {
      if rtype == 1 && dataLen == 4 {
        ips := [V4(input[at..at + 4])];
      } else if rtype == 28 && dataLen == 16 {
        ips := [V6(input[at..at + 16])];
      }
    }
    return Ok(Answer(ips, at + dataLen));
  }

  method ParseResponse(input: bytes, id: u16, qtype: u16) returns (r: Result<seq<Ip>, ErrorKind>)
    ensures r == Response(input, id, qtype)
  {
    hide NameAt, AnswerAt;
    if |input| < 12 {
      return Err(UnexpectedEof);
    }
    if ReadU16(input[0], input[1]) != id {
      return Err(InvalidData);
    }
    var flags := ReadU16(input[2], input[3]);
    if flags < 0x8000 || flags % 16 != 0 {
      return Err(InvalidData);
    }
    var questionCount := ReadU16(input[4], input[5]);
    var answerCount := ReadU16(input[6], input[7]);
    var offset: nat := 12;
    for i := 0 to questionCount
      invariant Questions(input, offset, questionCount - i) == Questions(input, 12, questionCount)
    {
      var end := ReadName(input, offset);
      if end.Err? {
        return Err(end.error);
      }
      if |input| < end.value + 4 {
        return Err(UnexpectedEof);
      }
      offset := end.value + 4;
    }
    var ips: seq<Ip> := [];
    ghost var whole := Answers(input, offset, answerCount, qtype);
    assert whole.Ok? ==> ips + whole.value == whole.value;
    for i := 0 to answerCount
      invariant match Answers(input, offset, answerCount - i, qtype)
                case Err(e) => whole == Err(e)
                case Ok(more) => whole == Ok(ips + more)
    {
      var answer := ReadAnswer(input, offset, qtype);
      if answer.Err? {
        return Err(answer.error);
      }
      ghost var rest := Answers(input, answer.value.end, answerCount - i - 1, qtype);
      assert rest.Ok? ==> ips + (answer.value.ips + rest.value) == (ips + answer.value.ips) + rest.value;
      ips := ips + answer.value.ips;
      offset := answer.value.end;
    }
    assert ips + [] == ips;
    return Ok(ips);
  }

  // ---------- A response means its records ----------

  type Data = d: bytes | |d| < 0x1_0000

  datatype Record = Record(name: seq<Hop>, rtype: u16, rclass: u16, ttl: u32, data: Data)

  function RecordFields(r: Record): (b: bytes)
    ensures |b| == 10
  {
    U16Be(r.rtype) + U16Be(r.rclass) + U32Be(r.ttl) + U16Be(|r.data|)
  }

  ghost predicate Writable(r: Record) {
    AreHops(r.name)
  }

  ghost predicate AllWritable(rs: seq<Record>) {
    forall i | 0 <= i < |rs| :: Writable(rs[i])
  }

  ghost function RecordBytes(r: Record): bytes
    requires Writable(r)
  {
    NameFormBytes(r.name) + (RecordFields(r) + r.data)
  }

  ghost function RecordsBytes(rs: seq<Record>): bytes
    requires AllWritable(rs)
  {
    if rs == [] then [] else RecordBytes(rs[0]) + RecordsBytes(rs[1..])
  }

  /** The addresses that answer the query, in record order. */
  function Addresses(rs: seq<Record>, qtype: u16): seq<Ip> {
    if rs == [] then []
    else Address(rs[0].rtype, rs[0].rclass, rs[0].data, qtype) + Addresses(rs[1..], qtype)
  }

  /** A record is read if its name is short enough, and otherwise refused. */
  lemma RecordIsRead(input: bytes, offset: nat, r: Record, qtype: u16)
    requires Writable(r) && Resolves(input, r.name) && At(input, offset, RecordBytes(r))
    ensures AnswerAt(input, offset, qtype)
         == if |r.name| <= 127
            then Ok(Answer(Address(r.rtype, r.rclass, r.data, qtype), offset + |RecordBytes(r)|))
            else Err(InvalidData)
  {
    hide NameAt, NameFormBytes, RecordFields, Address, ReadU16, Resolves, Stands, PathEnd;
    AtSplit(input, offset, NameFormBytes(r.name), RecordFields(r) + r.data);
    WrittenStands(input, offset, r.name);
    NameIsRead(input, offset, r.name);
    var at := offset + |NameFormBytes(r.name)|;
    AtSplit(input, at, RecordFields(r), r.data);
    FieldsAreRead(input, at, r);
  }

  lemma FieldsAreRead(input: bytes, at: nat, r: Record)
    requires At(input, at, RecordFields(r))
    ensures ReadU16(input[at], input[at + 1]) == r.rtype
    ensures ReadU16(input[at + 2], input[at + 3]) == r.rclass
    ensures ReadU16(input[at + 8], input[at + 9]) == |r.data|
  {
    var b := RecordFields(r);
    AtIndex(input, at, b, 0);
    AtIndex(input, at, b, 1);
    AtIndex(input, at, b, 2);
    AtIndex(input, at, b, 3);
    AtIndex(input, at, b, 8);
    AtIndex(input, at, b, 9);
  }

  ghost predicate AllResolve(input: bytes, rs: seq<Record>) {
    forall i | 0 <= i < |rs| :: Resolves(input, rs[i].name)
  }

  /** No name takes more than 127 labels and jumps. */
  ghost predicate AllShort(rs: seq<Record>) {
    forall i | 0 <= i < |rs| :: |rs[i].name| <= 127
  }

  lemma {:induction false} RecordsAreRead(input: bytes, offset: nat, rs: seq<Record>, qtype: u16)
    requires AllWritable(rs) && AllResolve(input, rs) && At(input, offset, RecordsBytes(rs))
    ensures Answers(input, offset, |rs|, qtype)
         == if AllShort(rs) then Ok(Addresses(rs, qtype)) else Err(InvalidData)
    decreases |rs|
  {
    hide At, RecordBytes, Address, Resolves, AnswerAt;
    if rs != [] {
      assert Writable(rs[0]) && Resolves(input, rs[0].name);
      AtSplit(input, offset, RecordBytes(rs[0]), RecordsBytes(rs[1..]));
      RecordIsRead(input, offset, rs[0], qtype);
      RecordsAreRead(input, offset + |RecordBytes(rs[0])|, rs[1..], qtype);
      assert AllShort(rs) <==> |rs[0].name| <= 127 && AllShort(rs[1..]) by { ShortFromFront(rs); }
    }
  }

  lemma ShortFromFront(rs: seq<Record>)
    requires rs != []
    ensures AllShort(rs) <==> |rs[0].name| <= 127 && AllShort(rs[1..])
  {
    if AllShort(rs[1..]) {
      forall i | 1 <= i < |rs| ensures |rs[i].name| <= 127 {
        assert rs[1..][i - 1] == rs[i];
      }
    }
  }

  ghost function ResponseBytes(id: u16, flags: u16, question: seq<Label>, qtype: u16, rs: seq<Record>): bytes
    requires |rs| < 0x1_0000 && AllWritable(rs)
  {
    HeaderBytes(id, flags, 1, |rs|) + (QuestionBytes(question, qtype) + RecordsBytes(rs))
  }

  /** The question part of our own query is skipped exactly, up to 127 labels. */
  lemma QuestionIsSkipped(input: bytes, labels: seq<Label>, qtype: u16)
    requires AreLabels(labels) && At(input, 12, QuestionBytes(labels, qtype))
    ensures Questions(input, 12, 1)
         == if |labels| <= 127 then Ok(12 + |QuestionBytes(labels, qtype)|) else Err(InvalidData)
  {
    hide NameAt, NameBytes, AreLabels, NameFormBytes, Resolves, Stands, PathEnd;
    AtSplit(input, 12, NameBytes(labels), U16Be(qtype) + U16Be(1));
    SpelledIsInline(input, labels);
    WrittenStands(input, 12, Spelled(labels));
    NameIsRead(input, 12, Spelled(labels));
    assert Questions(input, 12 + |NameBytes(labels)| + 4, 0) == Ok(12 + |NameBytes(labels)| + 4);
  }

  /**
   A successful response to the question, with any records whose names resolve in it, by
   pointers or without, and any trailing bytes, yields exactly the addresses of the asked type
   and class 1, in order, if no name takes more than 127 labels and jumps, and otherwise
   InvalidData.
   */
  lemma ResponseIsRead(id: u16, flags: u16, question: seq<Label>, qtype: u16, rs: seq<Record>, tail: bytes)
    requires IsSuccess(flags) && AreLabels(question)
    requires |rs| < 0x1_0000 && AllWritable(rs)
    requires AllResolve(ResponseBytes(id, flags, question, qtype, rs) + tail, rs)
    ensures Response(ResponseBytes(id, flags, question, qtype, rs) + tail, id, qtype)
         == if |question| <= 127 && AllShort(rs) then Ok(Addresses(rs, qtype)) else Err(InvalidData)
  {
    hide NameBytes, AreLabels, AllResolve, AllWritable, AllShort, Questions, Answers, RecordsBytes, Addresses;
    var q := QuestionBytes(question, qtype);
    var header := HeaderBytes(id, flags, 1, |rs|);
    var input := ResponseBytes(id, flags, question, qtype, rs) + tail;
    assert input == header + (q + RecordsBytes(rs)) + tail;
    assert At(input, 12, q + RecordsBytes(rs)) by {
      assert input[12..12 + |q + RecordsBytes(rs)|] == q + RecordsBytes(rs);
    }
    AtSplit(input, 12, q, RecordsBytes(rs));
    QuestionIsSkipped(input, question, qtype);
    RecordsAreRead(input, 12 + |q|, rs, qtype);
    HeaderIsRead(input, id, flags, |rs|);
  }

  lemma HeaderIsRead(input: bytes, id: u16, flags: u16, answers: u16)
    requires |input| >= 12 && input[..12] == HeaderBytes(id, flags, 1, answers)
    ensures ReadU16(input[0], input[1]) == id && ReadU16(input[2], input[3]) == flags
    ensures ReadU16(input[4], input[5]) == 1 && ReadU16(input[6], input[7]) == answers
  {
    var h := HeaderBytes(id, flags, 1, answers);
    assert forall i | 0 <= i < 12 :: input[i] == h[i] by {
      assert forall i | 0 <= i < 12 :: input[..12][i] == input[i];
    }
  }
}
