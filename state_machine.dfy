/**
 The key/value application state machine and its binary codec: a map from
 strings to strings that `apply_command` updates, the snapshot layout
 `u32 count` followed by `u32 |key| key u32 |value| value` per pair, and the
 `SetValueCommand` layout `key`, `value`, `mid`, each u32-length-prefixed.
 The decoders consume a byte slice from the front, as `ReadBytes` does.
 */
module StateMachine {
  import opened Bytes
  import opened Utf8
  import opened RaftTypes

  /**
   What `try_from_bytes` does with a buffer: `Success` is `Some`, `NoValue`
   is `None` (a length field or byte run runs past the end), and `Panic`
   is the `unwrap` that aborts when a well-framed string field is not UTF-8.
   */
  datatype Decoding<+T> = Success(value: T) | NoValue | Panic
  {
    predicate IsFailure()
    {
      !Success?
    }

    function PropagateFailure<U>(): Decoding<U>
      requires IsFailure()
    {
      if NoValue? then NoValue else Panic
    }

    function Extract(): T
      requires Success?
    {
      value
    }
  }

  datatype SetValueCommand = SetValueCommand(key: Str, value: Str, mid: Str)

  type Pair = (Str, Str)

  /** A string field the decoders read, and the bytes left unread after it. */
  datatype Field = Field(text: Str, rest: seq<byte>)

  // ---------------------------------------------------------------- strings

  /** `write_u32(s.len() as u32)` then `write(s.as_bytes())`. */
  function EncodeString(s: Str): (r: seq<byte>)
    requires |s| < U32_LIMIT
    ensures |r| == 4 + |s|
  {
    U32ToBytes(|s|) + s
  }

  /** `String::from_utf8(bytes.next_bytes(bytes.next_u32()? as usize)?.to_vec()).unwrap()`. */
  function ReadString(s: seq<byte>): (r: Decoding<Field>)
    ensures r.Success? ==> |r.value.rest| + 4 + |r.value.text| == |s|
  {
    match NextU32(s)
    case None => NoValue
    case Some((n, afterLength)) =>
      match NextBytes(afterLength, n)
      case None => NoValue
      case Some((b, rest)) => if ValidUtf8(b) then Success(Field(b, rest)) else Panic
  }

  /** A string field is read back, whatever follows it. */
  lemma ReadEncodedString(t: Str, rest: seq<byte>)
    requires |t| < U32_LIMIT
    ensures ReadString(EncodeString(t) + rest) == Success(Field(t, rest))
  {
    assert EncodeString(t) + rest == U32ToBytes(|t|) + (t + rest);
    NextU32OfWritten(|t|, t + rest);
    assert (t + rest)[..|t|] == t && (t + rest)[|t|..] == rest;
  }

  /** A string field cut off anywhere before its last byte reads as `None`. */
  lemma ReadTruncatedString(t: Str, n: nat)
    requires |t| < U32_LIMIT && n < 4 + |t|
    ensures ReadString(EncodeString(t)[..n]) == NoValue
  {
    var w := EncodeString(t)[..n];
    if 4 <= n {
      assert w == U32ToBytes(|t|) + t[..n - 4];
      NextU32OfWritten(|t|, t[..n - 4]);
    }
  }

  /** A well-framed string field whose bytes are not UTF-8 aborts the decoder. */
  lemma ReadInvalidString(b: seq<byte>, rest: seq<byte>)
    requires |b| < U32_LIMIT && !ValidUtf8(b)
    ensures ReadString(U32ToBytes(|b|) + b + rest) == Panic
  {
    assert U32ToBytes(|b|) + b + rest == U32ToBytes(|b|) + (b + rest);
    NextU32OfWritten(|b|, b + rest);
    assert (b + rest)[..|b|] == b;
  }

  /** A prefix of `a + b` that is at least as long as `a`. */
  lemma PrefixOfAppend(a: seq<byte>, b: seq<byte>, n: nat)
    requires |a| <= n <= |a| + |b|
    ensures (a + b)[..n] == a + b[..n - |a|]
  {
  }

  /** A string field is read only from bytes that begin with its encoding. */
  lemma ReadStringIsEncoded(s: seq<byte>, f: Field)
    requires ReadString(s) == Success(f)
    ensures |f.text| < U32_LIMIT && s == EncodeString(f.text) + f.rest
  {
    BytesRoundTrip(s[..4]);
    assert s == s[..4] + s[4..];
  }

  /** A cut-off input whose first field is whole reads that field, leaving the cut-off rest. */
  lemma ReadEncodedPrefix(t: Str, after: seq<byte>, n: nat)
    requires |t| < U32_LIMIT && |EncodeString(t)| <= n <= |EncodeString(t)| + |after|
    ensures ReadString((EncodeString(t) + after)[..n]) == Success(Field(t, after[..n - |EncodeString(t)|]))
  {
    PrefixOfAppend(EncodeString(t), after, n);
    ReadEncodedString(t, after[..n - |EncodeString(t)|]);
  }

  /** A cut-off input that ends inside its first field reads as `None`. */
  lemma ReadTruncatedPrefix(t: Str, after: seq<byte>, n: nat)
    requires |t| < U32_LIMIT && n < |EncodeString(t)|
    ensures ReadString((EncodeString(t) + after)[..n]) == NoValue
  {
    assert (EncodeString(t) + after)[..n] == EncodeString(t)[..n];
    ReadTruncatedString(t, n);
  }

  // ---------------------------------------------------------------- SetValueCommand

  predicate CommandEncodable(c: SetValueCommand)
  {
    |c.key| < U32_LIMIT && |c.value| < U32_LIMIT && |c.mid| < U32_LIMIT
  }

  /** `SetValueCommand::write_bytes`: key, value and mid, each length-prefixed, in that order. */
  function EncodeCommand(c: SetValueCommand): (r: seq<byte>)
    requires CommandEncodable(c)
    ensures |r| == 12 + |c.key| + |c.value| + |c.mid|
  {
    EncodeString(c.key) + EncodeString(c.value) + EncodeString(c.mid)
  }

  /** `SetValueCommand::try_from_bytes`. */
  function DecodeCommand(s: seq<byte>): Decoding<SetValueCommand>
  {
    var key :- ReadString(s);
    var value :- ReadString(key.rest);
    var mid :- ReadString(value.rest);
    Success(SetValueCommand(key.text, value.text, mid.text))
  }

  /** Decoding an encoded command, followed by anything, yields the same three strings. */
  lemma CommandRoundTrip(c: SetValueCommand, extra: seq<byte>)
    requires CommandEncodable(c)
    ensures DecodeCommand(EncodeCommand(c) + extra) == Success(c)
  {
    var ek, ev, em := EncodeString(c.key), EncodeString(c.value), EncodeString(c.mid);
    assert EncodeCommand(c) + extra == ek + (ev + (em + extra));
    ReadEncodedString(c.key, ev + (em + extra));
    ReadEncodedString(c.value, em + extra);
    ReadEncodedString(c.mid, extra);
  }

  /** Every strict prefix of an encoded command decodes to `None`. */
  lemma CommandTruncated(c: SetValueCommand, n: nat)
    requires CommandEncodable(c)
    requires n < |EncodeCommand(c)|
    ensures DecodeCommand(EncodeCommand(c)[..n]) == NoValue
  {
    var ek, ev, em := EncodeString(c.key), EncodeString(c.value), EncodeString(c.mid);
    assert EncodeCommand(c) == ek + (ev + em);
    var w := EncodeCommand(c)[..n];
    if n < |ek| {
      ReadTruncatedPrefix(c.key, ev + em, n);
      DecodeCommandStop(w);
    } else {
      var m := n - |ek|;
      ReadEncodedPrefix(c.key, ev + em, n);
      if m < |ev| {
        ReadTruncatedPrefix(c.value, em, m);
        DecodeCommandStop(w);
      } else {
        ReadEncodedPrefix(c.value, em, m);
        ReadTruncatedString(c.mid, m - |ev|);
        DecodeCommandStop(w);
      }
    }
  }

  /** The command decoder gives `None` as soon as one of its three fields is cut off. */
  lemma DecodeCommandStop(s: seq<byte>)
    requires || ReadString(s).NoValue?
             || (ReadString(s).Success? && ReadString(ReadString(s).value.rest).NoValue?)
             || (&& ReadString(s).Success? && ReadString(ReadString(s).value.rest).Success?
                 && ReadString(ReadString(ReadString(s).value.rest).value.rest).NoValue?)
    ensures DecodeCommand(s) == NoValue
  {
  }

  /** A framed key that is not UTF-8 aborts the command decoder instead of yielding `None`. */
  lemma CommandInvalidKeyPanics(key: seq<byte>, rest: seq<byte>)
    requires |key| < U32_LIMIT && !ValidUtf8(key)
    ensures DecodeCommand(U32ToBytes(|key|) + key + rest) == Panic
  {
    ReadInvalidString(key, rest);
  }

  /** Three fields that read in turn are the encoding of the command they make up. */
  lemma DecodedCommandIsEncoded(s: seq<byte>, key: Field, value: Field, mid: Field)
    requires ReadString(s) == Success(key) && ReadString(key.rest) == Success(value)
    requires ReadString(value.rest) == Success(mid)
    ensures CommandEncodable(SetValueCommand(key.text, value.text, mid.text))
    ensures s == EncodeCommand(SetValueCommand(key.text, value.text, mid.text)) + mid.rest
  {
    ReadStringIsEncoded(s, key);
    ReadStringIsEncoded(key.rest, value);
    ReadStringIsEncoded(value.rest, mid);
    ThreeFields(s, EncodeString(key.text), key.rest, EncodeString(value.text), value.rest,
                EncodeString(mid.text), mid.rest);
  }

  /** Bytes split into three heads in turn are the three heads followed by the last rest. */
  lemma ThreeFields(s: seq<byte>, a: seq<byte>, r1: seq<byte>, b: seq<byte>, r2: seq<byte>,
                    c: seq<byte>, r3: seq<byte>)
    requires s == a + r1 && r1 == b + r2 && r2 == c + r3
    ensures s == a + b + c + r3
  {
    assert a + b + c + r3 == a + (b + (c + r3));
  }

  /** The command decoder yields `c` exactly on the bytes that begin with the encoding of `c`. */
  lemma CommandDecodesExactly(s: seq<byte>, c: SetValueCommand)
    ensures DecodeCommand(s) == Success(c) <==> CommandEncodable(c) && EncodeCommand(c) <= s
  {
    if DecodeCommand(s) == Success(c) {
      var key := ReadString(s).value;
      var value := ReadString(key.rest).value;
      var mid := ReadString(value.rest).value;
      assert c == SetValueCommand(key.text, value.text, mid.text);
      DecodedCommandIsEncoded(s, key, value, mid);
    }
    if CommandEncodable(c) && EncodeCommand(c) <= s {
      var extra := s[|EncodeCommand(c)|..];
      assert s == EncodeCommand(c) + extra;
      CommandRoundTrip(c, extra);
    }
  }

  // ---------------------------------------------------------------- KvStateMachine

  /** Every key and value fits the u32 length field. */
  predicate FieldsFit(ps: seq<Pair>)
  {
    forall i :: 0 <= i < |ps| ==> |ps[i].0| < U32_LIMIT && |ps[i].1| < U32_LIMIT
  }

  predicate PairsEncodable(ps: seq<Pair>)
  {
    |ps| < U32_LIMIT && FieldsFit(ps)
  }

  predicate MapEncodable(m: map<Str, Str>)
  {
    |m| < U32_LIMIT && forall k :: k in m ==> |k| < U32_LIMIT && |m[k]| < U32_LIMIT
  }

  /** The pair records, in the order the map was iterated. */
  function EncodePairs(ps: seq<Pair>): seq<byte>
    requires FieldsFit(ps)
  {
    if ps == [] then [] else EncodeString(ps[0].0) + EncodeString(ps[0].1) + EncodePairs(ps[1..])
  }

  /** `KvStateMachine::write_bytes`, for the iteration order `ps`. */
  function EncodeKv(ps: seq<Pair>): seq<byte>
    requires PairsEncodable(ps)
  {
    U32ToBytes(|ps|) + EncodePairs(ps)
  }

  /** Σ (8 + |key| + |value|) over the pairs. */
  function PairsSize(ps: seq<Pair>): nat
  {
    if ps == [] then 0 else 8 + |ps[0].0| + |ps[0].1| + PairsSize(ps[1..])
  }

  /** `map.insert` of each pair in turn: a later pair overrides an earlier one with the same key. */
  function InsertAll(acc: map<Str, Str>, ps: seq<Pair>): map<Str, Str>
    decreases |ps|
  {
    if ps == [] then acc else InsertAll(acc[ps[0].0 := ps[0].1], ps[1..])
  }

  /** The map a sequence of pairs denotes. */
  function MapOf(ps: seq<Pair>): map<Str, Str>
  {
    InsertAll(map[], ps)
  }

  ghost function KeysOf(ps: seq<Pair>): set<Str>
  {
    set i | 0 <= i < |ps| :: ps[i].0
  }

  ghost predicate NoDupKeys(ps: seq<Pair>)
  {
    forall i, j :: 0 <= i < j < |ps| ==> ps[i].0 != ps[j].0
  }

  /** The remaining `count` iterations of the `for _ in 0..len` loop of `KvStateMachine::try_from_bytes`. */
  function DecodePairs(s: seq<byte>, count: nat, acc: map<Str, Str>): Decoding<map<Str, Str>>
    decreases count
  {
    if count == 0 then Success(acc)
    else
      var key :- ReadString(s);
      var value :- ReadString(key.rest);
      DecodePairs(value.rest, count - 1, acc[key.text := value.text])
  }

  /** `KvStateMachine::try_from_bytes`. */
  function DecodeKv(s: seq<byte>): Decoding<map<Str, Str>>
  {
    match NextU32(s)
    case None => NoValue
    case Some((n, rest)) => DecodePairs(rest, n, map[])
  }

  lemma {:induction false} EncodePairsAppend(ps: seq<Pair>, p: Pair)
    requires FieldsFit(ps + [p])
    ensures FieldsFit(ps) && |p.0| < U32_LIMIT && |p.1| < U32_LIMIT
    ensures EncodePairs(ps + [p]) == EncodePairs(ps) + EncodeString(p.0) + EncodeString(p.1)
    decreases |ps|
  {
    assert p == (ps + [p])[|ps|];
    assert FieldsFit(ps) by {
      forall i | 0 <= i < |ps| ensures |ps[i].0| < U32_LIMIT && |ps[i].1| < U32_LIMIT {
        assert ps[i] == (ps + [p])[i];
      }
    }
    if ps == [] {
      assert [p][1..] == [];
    } else {
      assert (ps + [p])[1..] == ps[1..] + [p];
      EncodePairsAppend(ps[1..], p);
    }
  }

  lemma {:induction false} EncodePairsLength(ps: seq<Pair>)
    requires FieldsFit(ps)
    ensures |EncodePairs(ps)| == PairsSize(ps)
    decreases |ps|
  {
    if ps != [] {
      EncodePairsLength(ps[1..]);
    }
  }

  /** The encoding is `4 + Σ (8 + |key| + |value|)` bytes long. */
  lemma EncodeKvLength(ps: seq<Pair>)
    requires PairsEncodable(ps)
    ensures |EncodeKv(ps)| == 4 + PairsSize(ps)
  {
    EncodePairsLength(ps);
  }

  /** Decoding pair records followed by anything inserts the pairs in order into `acc` and leaves the rest. */
  lemma {:induction false} DecodeEncodedPairs(ps: seq<Pair>, rest: seq<byte>, acc: map<Str, Str>)
    requires FieldsFit(ps)
    ensures DecodePairs(EncodePairs(ps) + rest, |ps|, acc) == Success(InsertAll(acc, ps))
    decreases |ps|
  {
    if ps != [] {
      var k, v := ps[0].0, ps[0].1;
      var tail := EncodePairs(ps[1..]) + rest;
      assert EncodePairs(ps) + rest == EncodeString(k) + (EncodeString(v) + tail);
      ReadEncodedString(k, EncodeString(v) + tail);
      ReadEncodedString(v, tail);
      DecodePairsStep(EncodePairs(ps) + rest, |ps| - 1, acc, Field(k, EncodeString(v) + tail), Field(v, tail));
      DecodeEncodedPairs(ps[1..], rest, acc[k := v]);
    }
  }

  /**
   Round trip: decoding the encoding of the pairs, followed by any trailing
   bytes, yields the map they denote.
   */
  lemma KvRoundTrip(ps: seq<Pair>, extra: seq<byte>)
    requires PairsEncodable(ps)
    ensures DecodeKv(EncodeKv(ps) + extra) == Success(MapOf(ps))
  {
    assert EncodeKv(ps) + extra == U32ToBytes(|ps|) + (EncodePairs(ps) + extra);
    NextU32OfWritten(|ps|, EncodePairs(ps) + extra);
    DecodeEncodedPairs(ps, extra, map[]);
  }

  /** Records are decoded only from bytes that begin with the records of some pairs, whose insertion gives the result. */
  lemma {:induction false} DecodedPairsAreEncoded(s: seq<byte>, count: nat, acc: map<Str, Str>)
    returns (ps: seq<Pair>)
    requires DecodePairs(s, count, acc).Success?
    ensures IsDecodedPairs(ps, s, count, acc, DecodePairs(s, count, acc).value)
    decreases count
  {
    if count == 0 {
      ps := [];
      NoDecodedPairs(s, acc);
    } else {
      var key, value := PairsStepReads(s, count, acc);
      var remaining: nat := count - 1;
      var acc' := acc[key.text := value.text];
      PairsStepGoesOn(s, count, remaining, acc, key, value);
      var tail := DecodedPairsAreEncoded(value.rest, remaining, acc');
      ps := [(key.text, value.text)] + tail;
      ConsDecodedPairs(s, key, value, tail, count, remaining, acc);
    }
  }

  /** No pairs are the records of no iterations. */
  lemma NoDecodedPairs(s: seq<byte>, acc: map<Str, Str>)
    ensures IsDecodedPairs([], s, 0, acc, acc)
  {
    assert EncodePairs([]) == [];
  }

  /** An iteration of a successful pair loop reads both fields. */
  lemma PairsStepReads(s: seq<byte>, count: nat, acc: map<Str, Str>) returns (key: Field, value: Field)
    requires count > 0 && DecodePairs(s, count, acc).Success?
    ensures ReadString(s) == Success(key) && ReadString(key.rest) == Success(value)
  {
    key := ReadString(s).value;
    value := ReadString(key.rest).value;
  }

  /** After an iteration of a successful pair loop, the rest of the loop succeeds too. */
  lemma PairsStepGoesOn(s: seq<byte>, count: nat, remaining: nat, acc: map<Str, Str>, key: Field, value: Field)
    requires count == remaining + 1 && ReadString(s) == Success(key) && ReadString(key.rest) == Success(value)
    requires DecodePairs(s, count, acc).Success?
    ensures DecodePairs(value.rest, remaining, acc[key.text := value.text]).Success?
  {
    DecodePairsStep(s, remaining, acc, key, value);
  }

  /** `ps` are `count` pairs whose records begin `s` and whose insertion into `acc` gives `m`. */
  ghost predicate IsDecodedPairs(ps: seq<Pair>, s: seq<byte>, count: nat, acc: map<Str, Str>, m: map<Str, Str>)
  {
    |ps| == count && FieldsFit(ps) && EncodePairs(ps) <= s && InsertAll(acc, ps) == m
  }

  /** A pair read from the front of `s`, followed by the pairs of the rest. */
  lemma ConsDecodedPairs(s: seq<byte>, key: Field, value: Field, tail: seq<Pair>, count: nat, remaining: nat,
                         acc: map<Str, Str>)
    requires count == remaining + 1 && ReadString(s) == Success(key) && ReadString(key.rest) == Success(value)
    requires DecodePairs(value.rest, remaining, acc[key.text := value.text]).Success?
    requires IsDecodedPairs(tail, value.rest, remaining, acc[key.text := value.text],
                            DecodePairs(value.rest, remaining, acc[key.text := value.text]).value)
    ensures DecodePairs(s, count, acc).Success?
    ensures IsDecodedPairs([(key.text, value.text)] + tail, s, count, acc, DecodePairs(s, count, acc).value)
  {
    DecodePairsStep(s, remaining, acc, key, value);
    ReadStringIsEncoded(s, key);
    ReadStringIsEncoded(key.rest, value);
    var ps := [(key.text, value.text)] + tail;
    assert ps[1..] == tail;
    var ek, ev := EncodeString(key.text), EncodeString(value.text);
    assert EncodePairs(ps) == ek + ev + EncodePairs(tail);
    TwoFieldsThenPrefix(s, ek, key.rest, ev, value.rest, EncodePairs(tail));
  }

  /** Bytes split into two heads in turn, whose last rest begins with `p`, begin with the heads and `p`. */
  lemma TwoFieldsThenPrefix(s: seq<byte>, a: seq<byte>, r1: seq<byte>, b: seq<byte>, r2: seq<byte>,
                            p: seq<byte>)
    requires s == a + r1 && r1 == b + r2 && p <= r2
    ensures a + b + p <= s
  {
    assert s == (a + b) + r2;
    PrefixAfter(a + b, p, r2);
  }

  /** A prefix of the rest stays a prefix behind a common head. */
  lemma PrefixAfter(h: seq<byte>, p: seq<byte>, t: seq<byte>)
    requires p <= t
    ensures h + p <= h + t
  {
    assert (h + t)[..|h + p|] == h + p;
  }

  /** The snapshot decoder yields `m` exactly on the bytes that begin with an encoding of pairs denoting `m`. */
  lemma KvDecodesExactly(s: seq<byte>, m: map<Str, Str>)
    ensures DecodeKv(s) == Success(m) <==> exists ps :: PairsEncodable(ps) && EncodeKv(ps) <= s && MapOf(ps) == m
  {
    if DecodeKv(s) == Success(m) {
      var ps := DecodedKvIsEncoded(s);
      assert PairsEncodable(ps) && EncodeKv(ps) <= s && MapOf(ps) == m;
    }
    if exists ps :: PairsEncodable(ps) && EncodeKv(ps) <= s && MapOf(ps) == m {
      var ps :| PairsEncodable(ps) && EncodeKv(ps) <= s && MapOf(ps) == m;
      EncodedKvDecodes(s, ps);
    }
  }

  /** A snapshot decodes only from bytes that begin with the encoding of some pairs denoting the result. */
  lemma DecodedKvIsEncoded(s: seq<byte>) returns (ps: seq<Pair>)
    requires DecodeKv(s).Success?
    ensures PairsEncodable(ps) && EncodeKv(ps) <= s && MapOf(ps) == DecodeKv(s).value
  {
    var header, rest := s[..4], s[4..];
    var n: nat := BytesToU32(header);
    var empty: map<Str, Str> := map[];
    assert DecodeKv(s) == DecodePairs(rest, n, empty);
    ps := DecodedPairsAreEncoded(rest, n, empty);
    BytesRoundTrip(header);
    assert s == header + rest;
    PrefixAfter(header, EncodePairs(ps), rest);
  }

  /** Bytes that begin with the encoding of some pairs decode to the map they denote. */
  lemma EncodedKvDecodes(s: seq<byte>, ps: seq<Pair>)
    requires PairsEncodable(ps) && EncodeKv(ps) <= s
    ensures DecodeKv(s) == Success(MapOf(ps))
  {
    var extra := s[|EncodeKv(ps)|..];
    assert s == EncodeKv(ps) + extra;
    KvRoundTrip(ps, extra);
  }

  /** One iteration of the pair loop when both fields read; `remaining` iterations follow it. */
  lemma DecodePairsStep(s: seq<byte>, remaining: nat, acc: map<Str, Str>, key: Field, value: Field)
    requires ReadString(s) == Success(key) && ReadString(key.rest) == Success(value)
    ensures DecodePairs(s, remaining + 1, acc) == DecodePairs(value.rest, remaining, acc[key.text := value.text])
  {
  }

  /** One iteration of the pair loop when a field is cut off. */
  lemma DecodePairsStop(s: seq<byte>, count: nat, acc: map<Str, Str>)
    requires count > 0
    requires ReadString(s).NoValue? || (ReadString(s).Success? && ReadString(ReadString(s).value.rest).NoValue?)
    ensures DecodePairs(s, count, acc) == NoValue
  {
  }

  /** Pair records cut off before their end decode to `None`. */
  lemma {:induction false} DecodeTruncatedPairs(ps: seq<Pair>, n: nat, acc: map<Str, Str>)
    requires FieldsFit(ps)
    requires n < |EncodePairs(ps)|
    ensures DecodePairs(EncodePairs(ps)[..n], |ps|, acc) == NoValue
    decreases |ps|
  {
    var k, v, rest := ps[0].0, ps[0].1, ps[1..];
    var tail := EncodePairs(rest);
    assert EncodePairs(ps) == EncodeString(k) + (EncodeString(v) + tail);
    if n < |EncodeString(k)| + |EncodeString(v)| {
      TruncatedFirstPair(k, v, tail, n, |rest|, acc);
    } else {
      var j := n - |EncodeString(k)| - |EncodeString(v)|;
      CutAfterFirstPair(k, v, tail, n, |rest|, acc);
      DecodeTruncatedPairs(rest, j, acc[k := v]);
    }
  }

  /** Records cut off inside their first key or value decode to `None`. */
  lemma TruncatedFirstPair(k: Str, v: Str, tail: seq<byte>, n: nat, count: nat, acc: map<Str, Str>)
    requires |k| < U32_LIMIT && |v| < U32_LIMIT
    requires n < |EncodeString(k)| + |EncodeString(v)|
    ensures DecodePairs((EncodeString(k) + (EncodeString(v) + tail))[..n], count + 1, acc) == NoValue
  {
    var ek, ev := EncodeString(k), EncodeString(v);
    var w := (ek + (ev + tail))[..n];
    if n < |ek| {
      ReadTruncatedPrefix(k, ev + tail, n);
    } else {
      ReadEncodedPrefix(k, ev + tail, n);
      ReadTruncatedPrefix(v, tail, n - |ek|);
    }
    DecodePairsStop(w, count + 1, acc);
  }

  /** Records cut off after their first pair decode that pair and go on with the cut-off rest. */
  lemma CutAfterFirstPair(k: Str, v: Str, tail: seq<byte>, n: nat, count: nat, acc: map<Str, Str>)
    requires |k| < U32_LIMIT && |v| < U32_LIMIT
    requires |EncodeString(k)| + |EncodeString(v)| <= n <= |EncodeString(k)| + |EncodeString(v)| + |tail|
    ensures DecodePairs((EncodeString(k) + (EncodeString(v) + tail))[..n], count + 1, acc)
         == DecodePairs(tail[..n - |EncodeString(k)| - |EncodeString(v)|], count, acc[k := v])
  {
    var ek, ev := EncodeString(k), EncodeString(v);
    var w := (ek + (ev + tail))[..n];
    var m := n - |ek|;
    ReadEncodedPrefix(k, ev + tail, n);
    ReadEncodedPrefix(v, tail, m);
    DecodePairsStep(w, count, acc, Field(k, (ev + tail)[..m]), Field(v, tail[..m - |ev|]));
  }

  /** Partial input never decodes: every strict prefix of an encoding decodes to `None`. */
  lemma KvTruncated(ps: seq<Pair>, n: nat)
    requires PairsEncodable(ps)
    requires n < |EncodeKv(ps)|
    ensures DecodeKv(EncodeKv(ps)[..n]) == NoValue
  {
    if 4 <= n {
      PrefixOfAppend(U32ToBytes(|ps|), EncodePairs(ps), n);
      NextU32OfWritten(|ps|, EncodePairs(ps)[..n - 4]);
      DecodeTruncatedPairs(ps, n - 4, map[]);
    }
  }

  /** Inserting pairs whose keys avoid `k` leaves `k`'s entry as it was. */
  lemma {:induction false} InsertAllOther(acc: map<Str, Str>, ps: seq<Pair>, k: Str)
    requires forall i :: 0 <= i < |ps| ==> ps[i].0 != k
    ensures (k in InsertAll(acc, ps)) == (k in acc)
    ensures k in acc ==> InsertAll(acc, ps)[k] == acc[k]
    decreases |ps|
  {
    if ps != [] {
      InsertAllOther(acc[ps[0].0 := ps[0].1], ps[1..], k);
    }
  }

  /** When an input repeats a key, the value of the last pair with that key wins. */
  lemma {:induction false} LastPairWins(acc: map<Str, Str>, ps: seq<Pair>, j: nat)
    requires j < |ps|
    requires forall i :: j < i < |ps| ==> ps[i].0 != ps[j].0
    ensures ps[j].0 in InsertAll(acc, ps) && InsertAll(acc, ps)[ps[j].0] == ps[j].1
    decreases |ps|
  {
    if j == 0 {
      InsertAllOther(acc[ps[0].0 := ps[0].1], ps[1..], ps[0].0);
    } else {
      LastPairWins(acc[ps[0].0 := ps[0].1], ps[1..], j - 1);
    }
  }

  lemma {:induction false} InsertAllAppend(acc: map<Str, Str>, ps: seq<Pair>, p: Pair)
    ensures InsertAll(acc, ps + [p]) == InsertAll(acc, ps)[p.0 := p.1]
    decreases |ps|
  {
    if ps == [] {
      assert [p][1..] == [];
    } else {
      assert (ps + [p])[1..] == ps[1..] + [p];
      InsertAllAppend(acc[ps[0].0 := ps[0].1], ps[1..], p);
    }
  }

  /** The keys of the denoted map are exactly the keys of the pairs. */
  lemma {:induction false} InsertAllKeys(acc: map<Str, Str>, ps: seq<Pair>)
    ensures InsertAll(acc, ps).Keys == acc.Keys + KeysOf(ps)
    decreases |ps|
  {
    if ps != [] {
      InsertAllKeys(acc[ps[0].0 := ps[0].1], ps[1..]);
      assert KeysOf(ps) == {ps[0].0} + KeysOf(ps[1..]) by {
        forall x | x in KeysOf(ps) ensures x in {ps[0].0} + KeysOf(ps[1..]) {
          var i :| 0 <= i < |ps| && ps[i].0 == x;
          if i > 0 { assert ps[1..][i - 1] == ps[i]; }
        }
        forall x | x in KeysOf(ps[1..]) ensures x in KeysOf(ps) {
          var i :| 0 <= i < |ps[1..]| && ps[1..][i].0 == x;
          assert ps[i + 1] == ps[1..][i];
        }
      }
    }
  }

  /** Duplicate-free pairs denote a map with one entry per pair, so the count field equals `|map|`. */
  lemma {:induction false} MapOfSize(ps: seq<Pair>)
    requires NoDupKeys(ps)
    ensures |MapOf(ps)| == |ps|
    decreases |ps|
  {
    if ps != [] {
      var init, last := ps[..|ps| - 1], ps[|ps| - 1];
      assert ps == init + [last];
      assert NoDupKeys(init);
      MapOfSize(init);
      InsertAllAppend(map[], init, last);
      InsertAllKeys(map[], init);
      assert last.0 !in KeysOf(init);
    }
  }

  /**
   * The loop state of `write_bytes`: `order` lists, without repeats, the entries written so far,
   * and `rest` holds the ones still to come.
   */
  ghost predicate WriteProgress(entries: map<Str, Str>, order: seq<Pair>, rest: map<Str, Str>)
  {
    && MapEncodable(entries)
    && rest.Keys <= entries.Keys
    && MapOf(order).Keys !! rest.Keys
    && MapOf(order) + rest == entries
    && NoDupKeys(order)
    && FieldsFit(order)
  }

  /** Writing one more entry `k` of `rest` keeps the loop state. */
  lemma WriteStep(entries: map<Str, Str>, order: seq<Pair>, rest: map<Str, Str>, k: Str)
    requires WriteProgress(entries, order, rest) && k in rest
    ensures WriteProgress(entries, order + [(k, rest[k])], rest - {k})
    ensures EncodePairs(order + [(k, rest[k])]) == EncodePairs(order) + EncodeString(k) + EncodeString(rest[k])
    ensures |rest - {k}| < |rest|
  {
    var v := rest[k];
    InsertAllKeys(map[], order);
    InsertAllAppend(map[], order, (k, v));
    assert k !in KeysOf(order);
    AppendFreshKey(order, (k, v));
    assert k in entries && entries[k] == v;
    AppendFitting(order, (k, v));
    MoveEntry(entries, MapOf(order), rest, k);
    EncodePairsAppend(order, (k, v));
    assert (rest - {k}).Keys == rest.Keys - {k};
  }

  /** Appending a pair whose key is new keeps the keys distinct. */
  lemma AppendFreshKey(ps: seq<Pair>, p: Pair)
    requires NoDupKeys(ps) && p.0 !in KeysOf(ps)
    ensures NoDupKeys(ps + [p])
  {
    var ps' := ps + [p];
    forall i, j | 0 <= i < j < |ps'| ensures ps'[i].0 != ps'[j].0 {
      if j == |ps| {
        assert ps'[i] == ps[i];
        assert ps[i].0 in KeysOf(ps);
      } else {
        assert ps'[i] == ps[i] && ps'[j] == ps[j];
      }
    }
  }

  /** Appending a pair whose fields fit keeps every field fitting. */
  lemma AppendFitting(ps: seq<Pair>, p: Pair)
    requires FieldsFit(ps) && |p.0| < U32_LIMIT && |p.1| < U32_LIMIT
    ensures FieldsFit(ps + [p])
  {
    var ps' := ps + [p];
    forall i | 0 <= i < |ps'| ensures |ps'[i].0| < U32_LIMIT && |ps'[i].1| < U32_LIMIT {
      if i < |ps| {
        assert ps'[i] == ps[i];
      }
    }
  }

  /** Moving entry `k` from `rest` to `done` keeps their disjoint union. */
  lemma MoveEntry(entries: map<Str, Str>, done: map<Str, Str>, rest: map<Str, Str>, k: Str)
    requires done.Keys !! rest.Keys && done + rest == entries && k in rest
    ensures done[k := rest[k]].Keys !! (rest - {k}).Keys
    ensures done[k := rest[k]] + (rest - {k}) == entries
  {
    var done', rest' := done[k := rest[k]], rest - {k};
    assert (done' + rest').Keys == entries.Keys;
    forall x | x in entries ensures (done' + rest')[x] == entries[x] {
      if x in rest' {
        assert entries[x] == rest[x];
      } else if x != k {
        assert x !in rest && x in done;
      }
    }
  }

  /** When nothing is left, `order` lists every entry exactly once. */
  lemma WriteDone(entries: map<Str, Str>, order: seq<Pair>)
    requires WriteProgress(entries, order, map[])
    ensures NoDupKeys(order) && MapOf(order) == entries && PairsEncodable(order)
    ensures |order| == |entries|
  {
    assert MapOf(order) + map[] == MapOf(order);
    MapOfSize(order);
  }

  /** `clone_state_machine`: a field-by-field copy, equal to the original. */
  function CloneStateMachine<S, Cfg, Ids>(sm: RaftStateMachine<S, Cfg, Ids>): (r: RaftStateMachine<S, Cfg, Ids>)
    ensures r == sm
  {
    RaftStateMachine(sm.inner, sm.config, sm.clientLastCommandIds)
  }

  /** The key/value store; `KvStateMachine::default()` is empty. */
  class KvStateMachine {
    var entries: map<Str, Str>

    constructor ()
      ensures entries == map[]
    {
      entries := map[];
    }

    /** `apply_command`: maps the command's key to its value and leaves every other key as it was. */
    method ApplyCommand(command: SetValueCommand)
      modifies this
      ensures entries == old(entries)[command.key := command.value]
      ensures entries.Keys == old(entries).Keys + {command.key}
      ensures forall k :: k in old(entries) && k != command.key ==> entries[k] == old(entries)[k]
    {
      entries := entries[command.key := command.value];
    }

    /**
     `write_bytes`: the count, then one record per entry in an unspecified
     iteration order. The ghost `order` is that order; the bytes decode back
     to the map.
     */
    method WriteBytes() returns (bytes: seq<byte>, ghost order: seq<Pair>)
      requires MapEncodable(entries)
      ensures NoDupKeys(order) && MapOf(order) == entries && PairsEncodable(order)
      ensures bytes == EncodeKv(order)
      ensures DecodeKv(bytes) == Success(entries)
    {
      var records;
      records, order := WriteRecords(entries);
      WriteDone(entries, order);
      bytes := U32ToBytes(|entries|) + records;
      KvRoundTrip(order, []);
      assert bytes + [] == bytes;
    }

    /** The `for (key, value) in map` loop of `write_bytes`, visiting the entries in some order. */
    static method WriteRecords(m: map<Str, Str>) returns (records: seq<byte>, ghost order: seq<Pair>)
      requires MapEncodable(m)
      ensures WriteProgress(m, order, map[])
      ensures records == EncodePairs(order)
    {
      records := [];
      order := [];
      var rest := m;
      while rest != map[]
        invariant WriteProgress(m, order, rest)
        invariant records == EncodePairs(order)
        decreases |rest|
      {
        var k :| k in rest;
        var v := rest[k];
        WriteStep(m, order, rest, k);
        records := records + EncodeString(k) + EncodeString(v);
        order := order + [(k, v)];
        rest := rest - {k};
      }
    }

    /** `try_from_bytes`: reads the count, then that many key/value records, inserting each. */
    static method TryFromBytes(s: seq<byte>) returns (r: Decoding<map<Str, Str>>)
      ensures r == DecodeKv(s)
    {
      var header := NextU32(s);
      if header.None? {
        return NoValue;
      }
      var len, bytes := header.value.0, header.value.1;
      var m: map<Str, Str> := map[];
      var i := 0;
      while i < len
        invariant i <= len
        invariant DecodePairs(bytes, len - i, m) == DecodeKv(s)
      {
        var keyLen := NextU32(bytes);
        if keyLen.None? {
          return NoValue;
        }
        var keyBytes := NextBytes(keyLen.value.1, keyLen.value.0);
        if keyBytes.None? {
          return NoValue;
        }
        if !ValidUtf8(keyBytes.value.0) {
          return Panic;
        }
        var key: Str := keyBytes.value.0;
        bytes := keyBytes.value.1;
        var valueLen := NextU32(bytes);
        if valueLen.None? {
          return NoValue;
        }
        var valueBytes := NextBytes(valueLen.value.1, valueLen.value.0);
        if valueBytes.None? {
          return NoValue;
        }
        if !ValidUtf8(valueBytes.value.0) {
          return Panic;
        }
        var value: Str := valueBytes.value.0;
        bytes := valueBytes.value.1;
        m := m[key := value];
        i := i + 1;
      }
      return Success(m);
    }
  }
}
