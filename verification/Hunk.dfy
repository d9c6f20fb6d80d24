/**
 The protobuf "hunk" inside a gRPC message: base-128 varints and a message whose
 field 1 carries the tunnelled bytes.
 */
module Hunk {
  import opened Wrappers
  import opened Bytes

  const U64: nat := 0x1_0000_0000_0000_0000

  function Pow2(n: nat): nat {
    if n == 0 then 1 else 2 * Pow2(n - 1)
  }

  // ---------- Varints ----------

  /** Base 128, least significant group first, the top bit set on all but the last. */
  function VarintBytes(v: nat): (b: bytes)
    ensures |b| >= 1
  {
    if v < 128 then [v] else [v % 128 + 128] + VarintBytes(v / 128)
  }

  method EncodeVarint(value: nat, output: bytes) returns (out: bytes)
    ensures out == output + VarintBytes(value)
  {
    var v := value;
    out := output;
    while v >= 0x80
      invariant out + VarintBytes(v) == output + VarintBytes(value)
    {
      out := out + [v % 128 + 128];
      v := v / 128;
    }
    out := out + [v];
  }

  method VarintLen(value: nat) returns (len: nat)
    ensures len == |VarintBytes(value)|
  {
    len := 1;
    var v := value;
    while v >= 0x80
      invariant len - 1 + |VarintBytes(v)| == |VarintBytes(value)|
    {
      len := len + 1;
      v := v / 128;
    }
  }

  datatype Varint = Varint(value: nat, next: nat)

  /**
   Accumulate 7-bit groups from `cursor`, at most while the shift is below 64. Groups do
   not overlap, so the bitwise or is a sum; bits shifted past bit 63 are lost.
   */
  function VarintFrom(input: bytes, cursor: nat, shift: nat, acc: nat): (r: Option<Varint>)
    ensures r.Some? ==> cursor < r.value.next <= |input|
    decreases |input| - cursor
  {
    if cursor < |input| && shift < 64 then
      var value := acc + input[cursor] % 128 * Pow2(shift) % U64;
      if input[cursor] < 128 then Some(Varint(value, cursor + 1))
      else VarintFrom(input, cursor + 1, shift + 7, value)
    else None
  }

  method DecodeVarint(input: bytes, cursor: nat) returns (r: Option<Varint>)
    ensures r == VarintFrom(input, cursor, 0, 0)
  {
    var value: nat, shift: nat, at: nat := 0, 0, cursor;
    while at < |input| && shift < 64
      invariant VarintFrom(input, at, shift, value) == VarintFrom(input, cursor, 0, 0)
      decreases |input| - at
    {
      var b := input[at];
      at := at + 1;
      value := value + b % 128 * Pow2(shift) % U64;
      if b < 128 {
        return Some(Varint(value, at));
      }
      shift := shift + 7;
    }
    return None;
  }

  lemma VarintFits(input: bytes, cursor: nat)
    ensures var r := VarintFrom(input, cursor, 0, 0); r.Some? ==> cursor < r.value.next <= |input|
  {
  }

  lemma Pow2Step7(n: nat)
    ensures Pow2(n + 7) == 128 * Pow2(n)
  {
    assert Pow2(n + 7) == 2 * Pow2(n + 6) == 4 * Pow2(n + 5) == 8 * Pow2(n + 4);
    assert Pow2(n + 4) == 2 * Pow2(n + 3) == 4 * Pow2(n + 2) == 8 * Pow2(n + 1);
  }

  lemma {:induction false} Pow2Beyond(n: nat)
    requires n >= 64
    ensures Pow2(n) >= U64
  {
    if n == 64 {
      Pow2Of64();
    } else {
      Pow2Beyond(n - 1);
    }
  }

  lemma Pow2Of64()
    ensures Pow2(64) == U64
  {
    Pow2Starts();
    hide Pow2;
    Pow2Step7(1);
    Pow2Step7(8);
    Pow2Step7(15);
    Pow2Step7(22);
    Pow2Step7(29);
    Pow2Step7(36);
    Pow2Step7(43);
    Pow2Step7(50);
    Pow2Step7(57);
  }

  lemma Pow2Starts()
    ensures Pow2(1) == 2
  {
    assert Pow2(0) == 1;
  }

  /** The low group of v, at weight p, and what the remaining groups stand for. */
  lemma LowGroup(v: nat, p: nat)
    requires v * p < U64
    ensures v * p == v / 128 * (128 * p) + v % 128 * p
    ensures v % 128 * p % U64 == v % 128 * p
    ensures v >= 128 ==> 128 * p <= v / 128 * (128 * p) < U64
  {
    Distribute(v / 128, v % 128, p);
  }

  lemma Distribute(q: nat, r: nat, p: nat)
    ensures (128 * q + r) * p == q * (128 * p) + r * p
    ensures q >= 1 ==> 128 * p <= q * (128 * p)
  {
    assert 128 * q * p == q * (128 * p);
  }

  lemma {:induction false} VarintStep(input: bytes, cursor: nat, shift: nat, acc: nat)
    requires cursor < |input| && shift < 64
    ensures var value := acc + input[cursor] % 128 * Pow2(shift) % U64;
            VarintFrom(input, cursor, shift, acc)
            == if input[cursor] < 128 then Some(Varint(value, cursor + 1))
               else VarintFrom(input, cursor + 1, shift + 7, value)
  {
    hide Pow2;
  }

  /** Wherever an encoded 64-bit value stands, it is read back and exactly it is consumed. */
  lemma {:induction false} VarintGroups(input: bytes, cursor: nat, v: nat, shift: nat, acc: nat)
    requires At(input, cursor, VarintBytes(v))
    requires shift < 64 && v * Pow2(shift) < U64
    ensures VarintFrom(input, cursor, shift, acc)
         == Some(Varint(acc + v * Pow2(shift), cursor + |VarintBytes(v)|))
    decreases v
  {
    hide Pow2, At, VarintFrom;
    var p := Pow2(shift);
    AtIndex(input, cursor, VarintBytes(v), 0);
    LowGroup(v, p);
    VarintStep(input, cursor, shift, acc);
    assert input[cursor] % 128 == v % 128;
    if v >= 128 {
      AtSplit(input, cursor, [v % 128 + 128], VarintBytes(v / 128));
      Pow2Step7(shift);
      if shift + 7 >= 64 { Pow2Beyond(shift + 7); }
      VarintGroups(input, cursor + 1, v / 128, shift + 7, acc + v % 128 * p);
    }
  }

  lemma VarintRoundTrip(input: bytes, cursor: nat, v: nat)
    requires At(input, cursor, VarintBytes(v)) && v < U64
    ensures VarintFrom(input, cursor, 0, 0) == Some(Varint(v, cursor + |VarintBytes(v)|))
  {
    VarintGroups(input, cursor, v, 0, 0);
  }

  // ---------- Messages ----------

  /** The whole message an outgoing payload becomes: key 0x0a, length, payload. */
  function MessageBytes(payload: bytes): bytes {
    [0x0a] + VarintBytes(|payload|) + payload
  }

  /** Read fields from `cursor`; the last length-delimited field 1 wins. */
  function HunkFrom(message: bytes, cursor: nat, data: bytes): Result<bytes, ErrorKind>
    decreases |message| - cursor
  {
    if cursor >= |message| then Ok(data)
    else
      var key := VarintFrom(message, cursor, 0, 0);
      if key.None? then Err(InvalidData)
      else
        var wire := key.value.value % 8;
        if wire != 0 && wire != 2 then Err(InvalidData)
        else
          var v := VarintFrom(message, key.value.next, 0, 0);
          if v.None? then Err(InvalidData)
          else if wire == 0 then HunkFrom(message, v.value.next, data)
          else
            var end := v.value.next + v.value.value;
            if end > |message| then Err(UnexpectedEof)
            else
              HunkFrom(message, end,
                       if key.value.value / 8 == 1 then message[v.value.next..end] else data)
  }

  function DecodeMessage(message: bytes): Result<bytes, ErrorKind> {
    HunkFrom(message, 0, [])
  }

  method DecodeHunkMessage(message: bytes) returns (r: Result<bytes, ErrorKind>)
    ensures r == DecodeMessage(message)
  {
    hide VarintFrom;
    var cursor := 0;
    var data: bytes := [];
    while cursor < |message|
      invariant HunkFrom(message, cursor, data) == DecodeMessage(message)
      decreases |message| - cursor
    {
      var key := DecodeVarint(message, cursor);
      VarintFits(message, cursor);
      if key.None? {
        return Err(InvalidData);
      }
      VarintFits(message, key.value.next);
      var field, wire := key.value.value / 8, key.value.value % 8;
      if field == 1 && wire == 2 {
        var len := DecodeVarint(message, key.value.next);
        if len.None? {
          return Err(InvalidData);
        }
        if len.value.next + len.value.value > |message| {
          return Err(UnexpectedEof);
        }
        data := message[len.value.next..len.value.next + len.value.value];
        cursor := len.value.next + len.value.value;
      } else if wire == 0 {
        var skipped := DecodeVarint(message, key.value.next);
        if skipped.None? {
          return Err(InvalidData);
        }
        cursor := skipped.value.next;
      } else if wire == 2 {
        var len := DecodeVarint(message, key.value.next);
        if len.None? {
          return Err(InvalidData);
        }
        if len.value.next + len.value.value > |message| {
          return Err(UnexpectedEof);
        }
        cursor := len.value.next + len.value.value;
      } else {
        return Err(InvalidData);
      }
    }
    return Ok(data);
  }

  method EncodeHunkMessage(payload: bytes) returns (output: bytes)
    ensures output == MessageBytes(payload)
  {
    output := [0x0a];
    output := EncodeVarint(|payload|, output);
    output := output + payload;
  }

  /** A decoded payload is a part of its message. */
  lemma PayloadIsInMessage(message: bytes)
    ensures DecodeMessage(message).Ok? ==> |DecodeMessage(message).value| <= |message|
  {
    DataIsInMessage(message, 0, []);
  }

  lemma {:induction false} DataIsInMessage(message: bytes, cursor: nat, data: bytes)
    requires |data| <= |message|
    ensures var r := HunkFrom(message, cursor, data); r.Ok? ==> |r.value| <= |message|
    decreases |message| - cursor
  {
    hide VarintFrom;
    if cursor < |message| {
      var key := VarintFrom(message, cursor, 0, 0);
      VarintFits(message, cursor);
      if key.Some? {
        var v := VarintFrom(message, key.value.next, 0, 0);
        VarintFits(message, key.value.next);
        if v.Some? {
          DataIsInMessage(message, v.value.next, data);
          var end := v.value.next + v.value.value;
          if end <= |message| {
            DataIsInMessage(message, end, data);
            DataIsInMessage(message, end, message[v.value.next..end]);
          }
        }
      }
    }
  }

  lemma {:induction false} VarintIsShort(v: nat)
    ensures |VarintBytes(v)| <= v + 1
  {
    if v >= 128 {
      VarintIsShort(v / 128);
    }
  }

  // ---------- What the reader makes of any message ----------

  datatype Field =
    | Number(field: nat, value: nat)
    | Blob(field: nat, data: bytes)

  ghost predicate Encodable(f: Field) {
    && f.field * 8 + 2 < U64
    && (if f.Number? then f.value < U64 else |f.data| < U64)
  }

  function FieldBytes(f: Field): bytes {
    match f
    case Number(n, v) => VarintBytes(n * 8) + VarintBytes(v)
    case Blob(n, data) => VarintBytes(n * 8 + 2) + (VarintBytes(|data|) + data)
  }

  function FieldsBytes(fs: seq<Field>): bytes {
    if fs == [] then [] else FieldBytes(fs[0]) + FieldsBytes(fs[1..])
  }

  /** The data of the last length-delimited field 1, if there is one. */
  function LastBlob(fs: seq<Field>, default: bytes): bytes {
    if fs == [] then default
    else
      var last := fs[|fs| - 1];
      if last.Blob? && last.field == 1 then last.data else LastBlob(fs[..|fs| - 1], default)
  }

  lemma {:induction false} LastBlobFromFront(fs: seq<Field>, default: bytes)
    requires fs != []
    ensures LastBlob(fs, default)
         == LastBlob(fs[1..], if fs[0].Blob? && fs[0].field == 1 then fs[0].data else default)
  {
    if |fs| > 1 {
      LastBlobFromFront(fs[..|fs| - 1], default);
      assert fs[..|fs| - 1][1..] == fs[1..][..|fs[1..]| - 1];
    }
  }

  lemma LastBlobOfNone(default: bytes)
    ensures LastBlob([], default) == default
  {
  }

  lemma FieldIsRead(message: bytes, cursor: nat, f: Field, data: bytes)
    requires Encodable(f) && At(message, cursor, FieldBytes(f))
    ensures HunkFrom(message, cursor, data)
         == HunkFrom(message, cursor + |FieldBytes(f)|,
                     if f.Blob? && f.field == 1 then f.data else data)
  {
    hide At, VarintBytes, VarintFrom, HunkFrom;
    if f.Blob? {
      var key := f.field * 8 + 2;
      AtSplit(message, cursor, VarintBytes(key), VarintBytes(|f.data|) + f.data);
      var at := cursor + |VarintBytes(key)|;
      AtSplit(message, at, VarintBytes(|f.data|), f.data);
      BlobIsRead(message, cursor, f.field, f.data, data);
    } else {
      AtSplit(message, cursor, VarintBytes(f.field * 8), VarintBytes(f.value));
      NumberIsRead(message, cursor, f.field, f.value, data);
    }
  }

  lemma NumberIsRead(message: bytes, cursor: nat, field: nat, value: nat, data: bytes)
    requires Encodable(Number(field, value))
    requires At(message, cursor, VarintBytes(field * 8))
    requires At(message, cursor + |VarintBytes(field * 8)|, VarintBytes(value))
    ensures HunkFrom(message, cursor, data) == HunkFrom(message, cursor + |FieldBytes(Number(field, value))|, data)
  {
    hide VarintBytes, VarintFrom;
    VarintRoundTrip(message, cursor, field * 8);
    VarintRoundTrip(message, cursor + |VarintBytes(field * 8)|, value);
  }

  lemma BlobIsRead(message: bytes, cursor: nat, field: nat, blob: bytes, data: bytes)
    requires Encodable(Blob(field, blob))
    requires At(message, cursor, VarintBytes(field * 8 + 2))
    requires At(message, cursor + |VarintBytes(field * 8 + 2)|, VarintBytes(|blob|))
    requires At(message, cursor + |VarintBytes(field * 8 + 2)| + |VarintBytes(|blob|)|, blob)
    ensures HunkFrom(message, cursor, data)
         == HunkFrom(message, cursor + |FieldBytes(Blob(field, blob))|,
                     if field == 1 then blob else data)
  {
    hide VarintBytes, VarintFrom;
    VarintRoundTrip(message, cursor, field * 8 + 2);
    VarintRoundTrip(message, cursor + |VarintBytes(field * 8 + 2)|, |blob|);
  }

  /** Any sequence of varint and length-delimited fields decodes to its last field 1. */
  lemma {:induction false} FieldsAreRead(message: bytes, cursor: nat, fs: seq<Field>, data: bytes)
    requires forall f | f in fs :: Encodable(f)
    requires At(message, cursor, FieldsBytes(fs)) && cursor + |FieldsBytes(fs)| == |message|
    ensures HunkFrom(message, cursor, data) == Ok(LastBlob(fs, data))
    decreases |fs|
  {
    hide At, FieldBytes, LastBlob, Encodable;
    if fs == [] {
      LastBlobOfNone(data);
    } else {
      AtSplit(message, cursor, FieldBytes(fs[0]), FieldsBytes(fs[1..]));
      FieldIsRead(message, cursor, fs[0], data);
      LastBlobFromFront(fs, data);
      FieldsAreRead(message, cursor + |FieldBytes(fs[0])|, fs[1..],
                    if fs[0].Blob? && fs[0].field == 1 then fs[0].data else data);
    }
  }

  lemma DecodeFields(fs: seq<Field>)
    requires forall f | f in fs :: Encodable(f)
    ensures DecodeMessage(FieldsBytes(fs)) == Ok(LastBlob(fs, []))
  {
    var message := FieldsBytes(fs);
    assert message[0..|message|] == message;
    FieldsAreRead(message, 0, fs, []);
  }

  /** An outgoing message is read back as its payload. */
  lemma MessageRoundTrip(payload: bytes)
    requires |payload| < U64
    ensures DecodeMessage(MessageBytes(payload)) == Ok(payload)
  {
    var fs := [Blob(1, payload)];
    assert VarintBytes(10) == [0x0a];
    assert FieldsBytes(fs) == FieldBytes(fs[0]) + FieldsBytes(fs[1..]) == FieldBytes(fs[0]);
    assert MessageBytes(payload) == FieldsBytes(fs);
    DecodeFields(fs);
  }
}
