/**
 The check `String::from_utf8` makes before the decoders accept a string
 field: the bytes must be well-formed UTF-8 in the sense of the Unicode
 Standard, Table 3-7 (no overlong forms, no surrogates, nothing above
 U+10FFFF). A Rust `String` is modelled by its UTF-8 bytes, `Str`.
 */
module Utf8 {
  import opened Bytes

  /** True when `s[j]` exists and lies in `lo..hi`. */
  predicate ByteIn(s: seq<byte>, j: nat, lo: byte, hi: byte)
  {
    j < |s| && lo <= s[j] <= hi
  }

  /** The length of the well-formed sequence that starts at `s[i]`, or 0 when none does. */
  function SequenceLength(s: seq<byte>, i: nat): (n: nat)
    requires i < |s|
    ensures n <= 4 && (n > 0 ==> i + n <= |s|)
    ensures n == 1 <==> s[i] < 0x80
  {
    var b := s[i];
    if b < 0x80 then 1
    else if 0xC2 <= b <= 0xDF then
      if ByteIn(s, i + 1, 0x80, 0xBF) then 2 else 0
    else if b == 0xE0 then
      if ByteIn(s, i + 1, 0xA0, 0xBF) && ByteIn(s, i + 2, 0x80, 0xBF) then 3 else 0
    else if 0xE1 <= b <= 0xEC || 0xEE <= b <= 0xEF then
      if ByteIn(s, i + 1, 0x80, 0xBF) && ByteIn(s, i + 2, 0x80, 0xBF) then 3 else 0
    else if b == 0xED then
      if ByteIn(s, i + 1, 0x80, 0x9F) && ByteIn(s, i + 2, 0x80, 0xBF) then 3 else 0
    else if b == 0xF0 then
      if ByteIn(s, i + 1, 0x90, 0xBF) && ByteIn(s, i + 2, 0x80, 0xBF) && ByteIn(s, i + 3, 0x80, 0xBF) then 4 else 0
    else if 0xF1 <= b <= 0xF3 then
      if ByteIn(s, i + 1, 0x80, 0xBF) && ByteIn(s, i + 2, 0x80, 0xBF) && ByteIn(s, i + 3, 0x80, 0xBF) then 4 else 0
    else if b == 0xF4 then
      if ByteIn(s, i + 1, 0x80, 0x8F) && ByteIn(s, i + 2, 0x80, 0xBF) && ByteIn(s, i + 3, 0x80, 0xBF) then 4 else 0
    else 0
  }

  /** `s[i..]` splits into well-formed sequences. */
  predicate ValidFrom(s: seq<byte>, i: nat)
    requires i <= |s|
    decreases |s| - i
  {
    i == |s| || (var n := SequenceLength(s, i); n > 0 && ValidFrom(s, i + n))
  }

  /** `String::from_utf8(s)` succeeds. */
  predicate ValidUtf8(s: seq<byte>)
  {
    ValidFrom(s, 0)
  }

  /** The contents of a Rust `String`: its UTF-8 bytes. */
  type Str = s: seq<byte> | ValidUtf8(s) witness []

  /** Every ASCII byte string is a valid `String`. */
  lemma {:induction false} AsciiIsValid(s: seq<byte>, i: nat)
    requires i <= |s|
    requires forall j :: i <= j < |s| ==> s[j] < 0x80
    ensures ValidFrom(s, i)
    decreases |s| - i
  {
    if i < |s| {
      AsciiIsValid(s, i + 1);
    }
  }
}
