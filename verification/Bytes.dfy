/** Byte strings: big-endian integers, concatenation, and "these bytes stand here". */
module Bytes {
  import opened Arith

  type byte = x: int | 0 <= x < 256

  type bytes = seq<byte>

  type u16 = x: int | 0 <= x < 0x1_0000

  type u32 = x: int | 0 <= x < 0x1_0000_0000

  function U16Be(n: u16): bytes {
    [n / 256, n % 256]
  }

  function U32Be(n: u32): bytes {
    [n / 0x100_0000, n / 0x1_0000 % 256, n / 256 % 256, n % 256]
  }

  function ReadU16(hi: byte, lo: byte): u16 {
    hi * 256 + lo
  }

  function ReadU32(b0: byte, b1: byte, b2: byte, b3: byte): u32 {
    b0 * 0x100_0000 + b1 * 0x1_0000 + b2 * 256 + b3
  }

  lemma U32RoundTrip(n: u32)
    ensures var b := U32Be(n); ReadU32(b[0], b[1], b[2], b[3]) == n
  {
    assert n / 0x1_0000 == n / 256 / 256;
    assert n / 0x100_0000 == n / 256 / 256 / 256;
  }

  lemma U16Surjective(hi: byte, lo: byte)
    ensures U16Be(ReadU16(hi, lo)) == [hi, lo]
  {
  }

  lemma U32Surjective(b0: byte, b1: byte, b2: byte, b3: byte)
    ensures U32Be(ReadU32(b0, b1, b2, b3)) == [b0, b1, b2, b3]
  {
    var n := ReadU32(b0, b1, b2, b3);
    DivUnique(n, 256, b0 * 0x1_0000 + b1 * 256 + b2, b3);
    DivUnique(n / 256, 256, b0 * 256 + b1, b2);
    DivUnique(n, 0x1_0000, b0 * 256 + b1, b2 * 256 + b3);
    DivUnique(n / 0x1_0000, 256, b0, b1);
    DivUnique(n, 0x100_0000, b0, b1 * 0x1_0000 + b2 * 256 + b3);
  }

  // ---------- Concatenation ----------

  function Concat<T>(parts: seq<seq<T>>): seq<T> {
    if parts == [] then [] else parts[0] + Concat(parts[1..])
  }

  lemma {:induction false} ConcatAppend<T>(a: seq<seq<T>>, b: seq<seq<T>>)
    ensures Concat(a + b) == Concat(a) + Concat(b)
  {
    if a == [] {
      assert a + b == b;
    } else {
      assert (a + b)[1..] == a[1..] + b;
      ConcatAppend(a[1..], b);
    }
  }

  // ---------- Occurrence at an offset ----------

  ghost predicate At(input: bytes, off: nat, part: bytes) {
    off + |part| <= |input| && input[off..off + |part|] == part
  }

  lemma AtSplit(input: bytes, off: nat, a: bytes, b: bytes)
    requires At(input, off, a + b)
    ensures At(input, off, a) && At(input, off + |a|, b)
  {
    var w := input[off..off + |a| + |b|];
    assert w == a + b;
    assert input[off..off + |a|] == w[..|a|];
    assert input[off + |a|..off + |a| + |b|] == w[|a|..];
  }

  lemma AtIndex(input: bytes, off: nat, part: bytes, k: nat)
    requires At(input, off, part) && k < |part|
    ensures off + k < |input| && input[off + k] == part[k]
  {
    assert input[off..off + |part|][k] == part[k];
  }
}
