/**
 The byte-level vocabulary shared by the codecs and the storage: Rust's `u8`
 and `u32`, the 4-byte big-endian integer layout written by `write_u32` and
 read by `next_u32`, and the read cursor (`next_u32`, `next_bytes`) that the
 decoders advance over a byte buffer.
 */
module Bytes {
  import opened Wrappers

  const U32_LIMIT: int := 0x1_0000_0000

  /** Rust's `u8`. */
  type byte = x: int | 0 <= x < 0x100

  /** Rust's `u32`. */
  type u32 = x: int | 0 <= x < 0x1_0000_0000

  /** The four bytes `write_u32` appends for `x`, most significant first. */
  function U32ToBytes(x: u32): (r: seq<byte>)
    ensures |r| == 4
  {
    [x / 0x100_0000, (x / 0x1_0000) % 0x100, (x / 0x100) % 0x100, x % 0x100]
  }

  /** The value `next_u32` reads from four big-endian bytes. */
  function BytesToU32(b: seq<byte>): (x: u32)
    requires |b| == 4
  {
    var b0: int, b1: int, b2: int, b3: int := b[0], b[1], b[2], b[3];
    ((b0 * 0x100 + b1) * 0x100 + b2) * 0x100 + b3
  }

  /** Reading back what the writer wrote yields the same integer. */
  lemma U32RoundTrip(x: u32)
    ensures BytesToU32(U32ToBytes(x)) == x
  {
    var b := U32ToBytes(x);
    var q1 := x / 0x100;
    var q2 := q1 / 0x100;
    var b0: int, b1: int, b2: int, b3: int := b[0], b[1], b[2], b[3];
    assert x == q1 * 0x100 + b3;
    assert q1 == q2 * 0x100 + b2;
    assert q2 == b0 * 0x100 + b1;
  }

  /** Every 4-byte group is the encoding of exactly one integer. */
  lemma BytesRoundTrip(b: seq<byte>)
    requires |b| == 4
    ensures U32ToBytes(BytesToU32(b)) == b
  {
    var x := BytesToU32(b);
    var b0: int, b1: int, b2: int, b3: int := b[0], b[1], b[2], b[3];
    var q2 := b0 * 0x100 + b1;
    var q1 := q2 * 0x100 + b2;
    assert x == q1 * 0x100 + b3;
    assert x / 0x100 == q1 && x % 0x100 == b3;
    assert q1 / 0x100 == q2 && q1 % 0x100 == b2;
    assert q2 / 0x100 == b0 && q2 % 0x100 == b1;
    assert x / 0x1_0000 == q2 by {
      assert x == q2 * 0x1_0000 + (b2 * 0x100 + b3);
    }
    assert x / 0x100_0000 == b0 by {
      assert x == b0 * 0x100_0000 + (b1 * 0x1_0000 + b2 * 0x100 + b3);
    }
  }

  /**
   `next_u32` on the unread bytes `s`: the integer and the bytes still
   unread after it, or `None` if fewer than four bytes remain.
   */
  function NextU32(s: seq<byte>): (r: Option<(u32, seq<byte>)>)
    ensures r.Some? <==> 4 <= |s|
    ensures r.Some? ==> r.value.1 == s[4..]
  {
    if 4 <= |s| then Some((BytesToU32(s[..4]), s[4..])) else None
  }

  /** `next_bytes(n)` on the unread bytes `s`: the next `n` bytes and the rest, or `None` if fewer remain. */
  function NextBytes(s: seq<byte>, n: nat): (r: Option<(seq<byte>, seq<byte>)>)
    ensures r.Some? <==> n <= |s|
    ensures r.Some? ==> |r.value.0| == n && r.value.0 + r.value.1 == s
  {
    if n <= |s| then Some((s[..n], s[n..])) else None
  }

  /** `next_u32` reads back what `write_u32` wrote, whatever follows it. */
  lemma NextU32OfWritten(x: u32, rest: seq<byte>)
    ensures NextU32(U32ToBytes(x) + rest) == Some((x, rest))
  {
    var s := U32ToBytes(x) + rest;
    assert s[..4] == U32ToBytes(x);
    assert s[4..] == rest;
    U32RoundTrip(x);
  }
}
