/** The structs of the chat example and their generated code, main_gen.go. */
module ChatGen {
  import opened Bytes
  import opened Formats
  import opened Msgp
  import opened MpcGen
  import opened FieldMap

  const TIME: seq<byte> := [0x74, 0x69, 0x6d, 0x65]

  const FROM: seq<byte> := [0x66, 0x72, 0x6f, 0x6d]

  const MESSAGE: seq<byte> := [0x6d, 0x65, 0x73, 0x73, 0x61, 0x67, 0x65]

  const INCOMING: Schema := map[FROM := StringField, MESSAGE := StringField]

  const OUTGOING: Schema := map[TIME := Uint32Field, FROM := StringField, MESSAGE := StringField]

  function IncomingRecord(from: seq<byte>, message: seq<byte>): Record {
    map[FROM := Text(from), MESSAGE := Text(message)]
  }

  function OutgoingRecord(time: uint32, from: seq<byte>, message: seq<byte>): Record {
    map[TIME := Number(time), FROM := Text(from), MESSAGE := Text(message)]
  }

  /** The map that stands for an Incoming. */
  function IncomingBytes(from: seq<byte>, message: seq<byte>): seq<byte> {
    [0x82] + EncodePairs([Pair(FROM, AppendString(from)), Pair(MESSAGE, AppendString(message))])
  }

  function OutgoingBytes(time: uint32, from: seq<byte>, message: seq<byte>): seq<byte> {
    [0x83] + EncodePairs(
      [Pair(TIME, AppendUint(time)), Pair(FROM, AppendString(from)), Pair(MESSAGE, AppendString(message))])
  }

  lemma TwoPairs(p: Pair, q: Pair)
    ensures EncodePairs([p, q]) == AppendString(p.key) + p.value + AppendString(q.key) + q.value
  {
    hide AppendString;
    assert [p, q][1..] == [q];
    assert EncodePairs([q]) == AppendString(q.key) + q.value + [];
    assert EncodePairs([p, q]) == AppendString(p.key) + p.value + (AppendString(q.key) + q.value);
  }

  lemma ThreePairs(p: Pair, q: Pair, r: Pair)
    ensures EncodePairs([p, q, r]) ==
      AppendString(p.key) + p.value + AppendString(q.key) + q.value + AppendString(r.key) + r.value
  {
    hide AppendString;
    TwoPairs(q, r);
    assert [p, q, r][1..] == [q, r];
  }

  lemma Behind(b: seq<byte>, header: seq<byte>, x: seq<byte>, y: seq<byte>)
    ensures b + (header + (x + y)) == b + (header + x) + y
  {
  }

  lemma Keys()
    ensures AppendString(TIME) == [0xa4, 0x74, 0x69, 0x6d, 0x65]
    ensures AppendString(FROM) == [0xa4, 0x66, 0x72, 0x6f, 0x6d]
    ensures AppendString(MESSAGE) == [0xa7, 0x6d, 0x65, 0x73, 0x73, 0x61, 0x67, 0x65]
  {
  }

  /** What the generated code appends, byte by byte, is the map. */
  lemma IncomingIs(b: seq<byte>, from: seq<byte>, message: seq<byte>)
    ensures b + [0x82, 0xa4, 0x66, 0x72, 0x6f, 0x6d] + AppendString(from)
      + [0xa7, 0x6d, 0x65, 0x73, 0x73, 0x61, 0x67, 0x65] + AppendString(message)
      == b + IncomingBytes(from, message)
  {
    hide EncodePairs, AppendString;
    var f, m := AppendString(from), AppendString(message);
    Keys();
    var k1, k2 := AppendString(FROM), AppendString(MESSAGE);
    TwoPairs(Pair(FROM, f), Pair(MESSAGE, m));
    Behind(b, [0x82], k1 + f + k2, m);
    Behind(b, [0x82], k1 + f, k2);
    Behind(b, [0x82], k1, f);
    assert [0x82] + k1 == [0x82, 0xa4, 0x66, 0x72, 0x6f, 0x6d];
  }

  lemma OutgoingIs(b: seq<byte>, time: uint32, from: seq<byte>, message: seq<byte>)
    ensures b + [0x83, 0xa4, 0x74, 0x69, 0x6d, 0x65] + AppendUint(time)
      + [0xa4, 0x66, 0x72, 0x6f, 0x6d] + AppendString(from)
      + [0xa7, 0x6d, 0x65, 0x73, 0x73, 0x61, 0x67, 0x65] + AppendString(message)
      == b + OutgoingBytes(time, from, message)
  {
    hide EncodePairs, AppendUint, AppendString;
    var t, f, m := AppendUint(time), AppendString(from), AppendString(message);
    Keys();
    var k1, k2, k3 := AppendString(TIME), AppendString(FROM), AppendString(MESSAGE);
    ThreePairs(Pair(TIME, t), Pair(FROM, f), Pair(MESSAGE, m));
    Behind(b, [0x83], k1 + t + k2 + f + k3, m);
    Behind(b, [0x83], k1 + t + k2 + f, k3);
    Behind(b, [0x83], k1 + t + k2, f);
    Behind(b, [0x83], k1 + t, k2);
    Behind(b, [0x83], k1, t);
    assert [0x83] + k1 == [0x83, 0xa4, 0x74, 0x69, 0x6d, 0x65];
  }

  class Incoming {
    var from: seq<byte>
    var message: seq<byte>

    constructor ()
      ensures from == [] && message == []
    {
      from, message := [], [];
    }

    function Value(): Record
      reads this
    {
      IncomingRecord(from, message)
    }

    method EncodeMsg(en: Writer) returns (ok: bool)
      modifies en`buffered, en.sink
      ensures ok ==> en.Out() == old(en.Out()) + IncomingBytes(from, message) && en.sink.failed == old(en.sink.failed)
      ensures !ok ==> en.sink.failed && en.sink.taken <= old(en.Out()) + IncomingBytes(from, message)
      ensures old(en.sink.Sound()) ==> ok && en.sink.Sound()
    {
      hide IncomingBytes, AppendString, Writer.Out, Sink.Sound;
      IncomingIs(en.Out(), from, message);
      ghost var all := en.Out() + IncomingBytes(from, message);
      ghost var b1 := en.Out() + [0x82, 0xa4, 0x66, 0x72, 0x6f, 0x6d];
      ghost var b2 := b1 + AppendString(from);
      ghost var b3 := b2 + [0xa7, 0x6d, 0x65, 0x73, 0x73, 0x61, 0x67, 0x65];
      Cut(b3, AppendString(message), all);
      Cut(b2, [0xa7, 0x6d, 0x65, 0x73, 0x73, 0x61, 0x67, 0x65], all);
      Cut(b1, AppendString(from), all);
      ok := en.Append([0x82, 0xa4, 0x66, 0x72, 0x6f, 0x6d], all);
      if !ok { return; }
      ok := en.Append(AppendString(from), all);
      if !ok { return; }
      ok := en.Append([0xa7, 0x6d, 0x65, 0x73, 0x73, 0x61, 0x67, 0x65], all);
      if !ok { return; }
      ok := en.Append(AppendString(message), all);
    }

    method MarshalMsg(b: seq<byte>) returns (o: seq<byte>)
      ensures o == b + IncomingBytes(from, message)
    {
      IncomingIs(b, from, message);
      hide IncomingBytes, AppendString;
      o := b + [0x82, 0xa4, 0x66, 0x72, 0x6f, 0x6d];
      o := o + AppendString(from);
      o := o + [0xa7, 0x6d, 0x65, 0x73, 0x73, 0x61, 0x67, 0x65];
      o := o + AppendString(message);
    }

    /** Decodes into whatever the struct holds; an error names the field that could not be read, if it is about one. */
    method UnmarshalMsg(bts: seq<byte>) returns (o: Result<seq<byte>, Option<seq<byte>>>)
      modifies this
      ensures match FieldMap.Decode(INCOMING, old(Value()), bts)
        case Fault(field) => o == Err(field)
        case Decoded(v, rest) => o == Ok(rest) && Value() == v
    {
      hide DecodeEntries, ReadMapHeader, ReadMapKey, ReadString, ReadObject;
      var header := ReadMapHeader(bts);
      if header.Fail? { return Err(None); }
      var n, b := header.value, header.rest;
      while n > 0
        invariant DecodeEntries(INCOMING, Value(), b, n) == FieldMap.Decode(INCOMING, old(Value()), bts)
      {
        Step(INCOMING, Value(), b, n);
        n := n - 1;
        var field := ReadMapKey(b);
        if field.Fail? { return Err(None); }
        if field.value == FROM {
          var s := ReadString(field.rest);
          if s.Fail? { return Err(Some(FROM)); }
          assert Value()[FROM := Text(s.value)] == IncomingRecord(s.value, message);
          from, b := s.value, s.rest;
        } else if field.value == MESSAGE {
          var s := ReadString(field.rest);
          if s.Fail? { return Err(Some(MESSAGE)); }
          assert Value()[MESSAGE := Text(s.value)] == IncomingRecord(from, s.value);
          message, b := s.value, s.rest;
        } else {
          var skipped := ReadObject(field.rest);
          if skipped.Fail? { return Err(None); }
          b := skipped.rest;
        }
      }
      NothingLeft(INCOMING, Value(), b);
      return Ok(b);
    }

    function Msgsize(): (s: nat)
      reads this
      ensures |IncomingBytes(from, message)| <= s
      ensures 0x1_0000 <= |from| && 0x1_0000 <= |message| ==> |IncomingBytes(from, message)| == s
    {
      IncomingIs([], from, message);
      1 + 5 + STRING_PREFIX_SIZE + |from| + 8 + STRING_PREFIX_SIZE + |message|
    }
  }

  lemma NothingLeft(schema: Schema, z: Record, b: seq<byte>)
    ensures DecodeEntries(schema, z, b, 0) == Decoded(z, b)
  {
  }

  class Outgoing {
    var time: uint32
    var from: seq<byte>
    var message: seq<byte>

    constructor (time: uint32, from: seq<byte>, message: seq<byte>)
      ensures this.time == time && this.from == from && this.message == message
    {
      this.time, this.from, this.message := time, from, message;
    }

    function Value(): Record
      reads this
    {
      OutgoingRecord(time, from, message)
    }

    method EncodeMsg(en: Writer) returns (ok: bool)
      modifies en`buffered, en.sink
      ensures ok ==> en.Out() == old(en.Out()) + OutgoingBytes(time, from, message)
      ensures ok ==> en.sink.failed == old(en.sink.failed)
      ensures !ok ==> en.sink.failed && en.sink.taken <= old(en.Out()) + OutgoingBytes(time, from, message)
      ensures old(en.sink.Sound()) ==> ok && en.sink.Sound()
    {
      hide OutgoingBytes, AppendString, AppendUint, Writer.Out, Sink.Sound;
      OutgoingIs(en.Out(), time, from, message);
      ghost var all := en.Out() + OutgoingBytes(time, from, message);
      ghost var b1 := en.Out() + [0x83, 0xa4, 0x74, 0x69, 0x6d, 0x65];
      ghost var b2 := b1 + AppendUint(time);
      ghost var b3 := b2 + [0xa4, 0x66, 0x72, 0x6f, 0x6d];
      ghost var b4 := b3 + AppendString(from);
      ghost var b5 := b4 + [0xa7, 0x6d, 0x65, 0x73, 0x73, 0x61, 0x67, 0x65];
      Cut(b5, AppendString(message), all);
      Cut(b4, [0xa7, 0x6d, 0x65, 0x73, 0x73, 0x61, 0x67, 0x65], all);
      Cut(b3, AppendString(from), all);
      Cut(b2, [0xa4, 0x66, 0x72, 0x6f, 0x6d], all);
      Cut(b1, AppendUint(time), all);
      ok := en.Append([0x83, 0xa4, 0x74, 0x69, 0x6d, 0x65], all);
      if !ok { return; }
      ok := en.Append(AppendUint(time), all);
      if !ok { return; }
      ok := en.Append([0xa4, 0x66, 0x72, 0x6f, 0x6d], all);
      if !ok { return; }
      ok := en.Append(AppendString(from), all);
      if !ok { return; }
      ok := en.Append([0xa7, 0x6d, 0x65, 0x73, 0x73, 0x61, 0x67, 0x65], all);
      if !ok { return; }
      ok := en.Append(AppendString(message), all);
    }

    method MarshalMsg(b: seq<byte>) returns (o: seq<byte>)
      ensures o == b + OutgoingBytes(time, from, message)
    {
      OutgoingIs(b, time, from, message);
      hide OutgoingBytes, AppendString, AppendUint;
      o := b + [0x83, 0xa4, 0x74, 0x69, 0x6d, 0x65];
      o := o + AppendUint(time);
      o := o + [0xa4, 0x66, 0x72, 0x6f, 0x6d];
      o := o + AppendString(from);
      o := o + [0xa7, 0x6d, 0x65, 0x73, 0x73, 0x61, 0x67, 0x65];
      o := o + AppendString(message);
    }

    method UnmarshalMsg(bts: seq<byte>) returns (o: Result<seq<byte>, Option<seq<byte>>>)
      modifies this
      ensures match FieldMap.Decode(OUTGOING, old(Value()), bts)
        case Fault(field) => o == Err(field)
        case Decoded(v, rest) => o == Ok(rest) && Value() == v
    {
      hide DecodeEntries, ReadMapHeader, ReadMapKey, ReadString, ReadUint32, ReadObject;
      var header := ReadMapHeader(bts);
      if header.Fail? { return Err(None); }
      var n, b := header.value, header.rest;
      while n > 0
        invariant DecodeEntries(OUTGOING, Value(), b, n) == FieldMap.Decode(OUTGOING, old(Value()), bts)
      {
        Step(OUTGOING, Value(), b, n);
        n := n - 1;
        var field := ReadMapKey(b);
        if field.Fail? { return Err(None); }
        if field.value == TIME {
          var t := ReadUint32(field.rest);
          if t.Fail? { return Err(Some(TIME)); }
          assert Value()[TIME := Number(t.value)] == OutgoingRecord(t.value, from, message);
          time, b := t.value, t.rest;
        } else if field.value == FROM {
          var s := ReadString(field.rest);
          if s.Fail? { return Err(Some(FROM)); }
          assert Value()[FROM := Text(s.value)] == OutgoingRecord(time, s.value, message);
          from, b := s.value, s.rest;
        } else if field.value == MESSAGE {
          var s := ReadString(field.rest);
          if s.Fail? { return Err(Some(MESSAGE)); }
          assert Value()[MESSAGE := Text(s.value)] == OutgoingRecord(time, from, s.value);
          message, b := s.value, s.rest;
        } else {
          var skipped := ReadObject(field.rest);
          if skipped.Fail? { return Err(None); }
          b := skipped.rest;
        }
      }
      NothingLeft(OUTGOING, Value(), b);
      return Ok(b);
    }

    function Msgsize(): (s: nat)
      reads this
      ensures |OutgoingBytes(time, from, message)| <= s
      ensures 0x1_0000 <= time && 0x1_0000 <= |from| && 0x1_0000 <= |message| ==>
        |OutgoingBytes(time, from, message)| == s
    {
      OutgoingIs([], time, from, message);
      1 + 5 + UINT32_SIZE + 5 + STRING_PREFIX_SIZE + |from| + 8 + STRING_PREFIX_SIZE + |message|
    }
  }

  // ---- the round trip of each ---------------------------------------------------------------

  lemma AppendedIsObject(v: Value)
    requires v.Text? ==> |v.s| < STR_LIMIT
    ensures OneObject(Append(v))
  {
    hide AppendString, AppendUint, ReadString, ReadUint64;
    var b := Append(v);
    assert b + [] == b;
    if v.Text? {
      StringBack(v.s, []);
      StringIsObject(b);
    } else {
      UintBack(v.n, []);
      UintIsObject(b);
    }
    var k := Skip(b, 0, 1).value;
    assert |b[k..]| == 0;
  }

  lemma HeaderBack(count: nat, ps: seq<Pair>, rest: seq<byte>)
    requires count < 0x10
    ensures ReadMapHeader([0x80 + count] + EncodePairs(ps) + rest) == Got(count, EncodePairs(ps) + rest)
  {
    hide EncodePairs;
    var body := EncodePairs(ps) + rest;
    assert [0x80 + count] + EncodePairs(ps) + rest == [0x80 + count] + body && ([0x80 + count] + body)[1..] == body;
  }

  lemma KeyIsThere(ps: seq<Pair>, i: nat)
    requires i < |ps|
    ensures Last(ps, ps[i].key).Some?
  {
    LastIsThere(ps, ps[i].key);
  }

  /** A struct comes back from its own encoding, into any other struct. */
  lemma IncomingBack(z: Record, from: seq<byte>, message: seq<byte>, rest: seq<byte>)
    requires z.Keys == INCOMING.Keys && |from| < STR_LIMIT && |message| < STR_LIMIT
    ensures FieldMap.Decode(INCOMING, z, IncomingBytes(from, message) + rest)
      == Decoded(IncomingRecord(from, message), rest)
  {
    hide AppendString, EncodePairs, FieldMap.Decode, OneObject, ReadMapHeader, Last;
    var ps := [Pair(FROM, AppendString(from)), Pair(MESSAGE, AppendString(message))];
    AppendedIsObject(Text(from));
    AppendedIsObject(Text(message));
    KeyIsThere(ps, 0);
    KeyIsThere(ps, 1);
    HeaderBack(2, ps, rest);
    FieldMap.RoundTrip(INCOMING, z, IncomingRecord(from, message), [0x82], ps, rest);
  }

  lemma OutgoingBack(z: Record, time: uint32, from: seq<byte>, message: seq<byte>, rest: seq<byte>)
    requires z.Keys == OUTGOING.Keys && |from| < STR_LIMIT && |message| < STR_LIMIT
    ensures FieldMap.Decode(OUTGOING, z, OutgoingBytes(time, from, message) + rest)
      == Decoded(OutgoingRecord(time, from, message), rest)
  {
    hide AppendString, AppendUint, EncodePairs, FieldMap.Decode, OneObject, ReadMapHeader, Last;
    var v := OutgoingRecord(time, from, message);
    var ps := [Pair(TIME, AppendUint(time)), Pair(FROM, AppendString(from)), Pair(MESSAGE, AppendString(message))];
    AppendedIsObject(Number(time));
    AppendedIsObject(Text(from));
    AppendedIsObject(Text(message));
    KeyIsThere(ps, 0);
    KeyIsThere(ps, 1);
    KeyIsThere(ps, 2);
    HeaderBack(3, ps, rest);
    FieldMap.RoundTrip(OUTGOING, z, v, [0x83], ps, rest);
  }
}
