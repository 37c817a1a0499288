/** The five element tuple of mpc_gen.go on values: its bytes, its size bound and how it is read back. */
module Wire {
  import opened Bytes
  import opened Msgp
  import opened Formats

  /** A message with its raw payloads; the empty payload is the absent one. */
  datatype Fields = Fields(id: uint64, fn: seq<byte>, args: seq<byte>, result: seq<byte>, error: Option<seq<byte>>)

  /** WrongArity is msgp.ArrayError; BadField names the field that could not be read, "" the outer array. */
  datatype WireFault = WrongArity(wanted: nat, got: nat) | BadField(name: string)

  type Decoded = Result<(Fields, seq<byte>), WireFault>

  /** The writes of EncodeMsg, one after the other. */
  function Parts(m: Fields): seq<seq<byte>> {
    [[0x95], AppendUint(m.id), AppendString(m.fn), AppendRaw(m.args), AppendRaw(m.result)]
    + if m.error == None then [[NIL]] else [[0x91], AppendString(m.error.value)]
  }

  function Concat(parts: seq<seq<byte>>): seq<byte> {
    if parts == [] then [] else parts[0] + Concat(parts[1..])
  }

  function Encode(m: Fields): seq<byte> {
    Concat(Parts(m))
  }

  function EncodeError(error: Option<seq<byte>>): seq<byte> {
    if error == None then [NIL] else [0x91] + AppendString(error.value)
  }

  function Msgsize(m: Fields): nat {
    1 + UINT64_SIZE + STRING_PREFIX_SIZE + |m.fn| + RawSize(m.args) + RawSize(m.result)
    + if m.error == None then NIL_SIZE else 1 + STRING_PREFIX_SIZE + |m.error.value|
  }

  function RawSize(raw: seq<byte>): nat {
    if raw == [] then NIL_SIZE else |raw|
  }

  function Decode(b: seq<byte>): (r: Decoded)
    ensures r.Ok? ==> |r.value.1| < |b|
  {
    match DecodeHead(b)
    case Err(e) => Err(e)
    case Ok((id, fn, b)) =>
      match DecodeTail(b)
      case Err(e) => Err(e)
      case Ok((args, result, error, b)) => Ok((Fields(id, fn, args, result, error), b))
  }

  function DecodeHead(b: seq<byte>): (r: Result<(uint64, seq<byte>, seq<byte>), WireFault>)
    ensures r.Ok? ==> |r.value.2| < |b|
  {
    match ReadArrayHeader(b)
    case Fail => Err(BadField(""))
    case Got(n, b) =>
      if n != 5 then Err(WrongArity(5, n)) else
      match ReadUint64(b)
      case Fail => Err(BadField("ID"))
      case Got(id, b) =>
        match ReadString(b)
        case Fail => Err(BadField("Func"))
        case Got(fn, b) => Ok((id, fn, b))
  }

  function DecodeTail(b: seq<byte>): (r: Result<(seq<byte>, seq<byte>, Option<seq<byte>>, seq<byte>), WireFault>)
    ensures r.Ok? ==> |r.value.3| < |b|
  {
    match ReadRaw(b)
    case Fail => Err(BadField("Args"))
    case Got(args, b) =>
      match ReadRaw(b)
      case Fail => Err(BadField("Result"))
      case Got(result, b) =>
        match ReadError(b)
        case Err(e) => Err(e)
        case Ok((error, b)) => Ok((args, result, error, b))
  }

  function ReadError(b: seq<byte>): (r: Result<(Option<seq<byte>>, seq<byte>), WireFault>)
    ensures r.Ok? ==> |r.value.1| < |b|
  {
    if IsNil(b) then Ok((None, b[1..])) else
    match ReadArrayHeader(b)
    case Fail => Err(BadField("Error"))
    case Got(n, b) =>
      if n != 1 then Err(WrongArity(1, n)) else
      match ReadString(b)
      case Fail => Err(BadField("Error.Msg"))
      case Got(msg, b) => Ok((Some(msg), b))
  }

  /** Func and Error are within what a str header can announce. */
  predicate InLimits(m: Fields) {
    |m.fn| < STR_LIMIT && (m.error.Some? ==> |m.error.value| < STR_LIMIT)
  }

  predicate WellFormed(m: Fields) {
    InLimits(m) && Payload(m.args) && Payload(m.result)
  }

  lemma ConcatCons(x: seq<byte>, xs: seq<seq<byte>>)
    ensures Concat([x] + xs) == x + Concat(xs)
  {
    assert ([x] + xs)[1..] == xs;
  }

  lemma EncodeIs(m: Fields)
    ensures Encode(m) == [0x95] + (AppendUint(m.id) + (AppendString(m.fn) +
      (AppendRaw(m.args) + (AppendRaw(m.result) + EncodeError(m.error)))))
  {
    hide AppendUint, AppendString, AppendRaw, Concat;
    var tail: seq<seq<byte>> := if m.error == None then [[NIL]] else [[0x91], AppendString(m.error.value)];
    ErrorParts(m.error, tail);
    var p4 := [AppendRaw(m.result)] + tail;
    var p3 := [AppendRaw(m.args)] + p4;
    var p2 := [AppendString(m.fn)] + p3;
    var p1 := [AppendUint(m.id)] + p2;
    assert Parts(m) == [[0x95]] + p1;
    ConcatCons([0x95], p1);
    ConcatCons(AppendUint(m.id), p2);
    ConcatCons(AppendString(m.fn), p3);
    ConcatCons(AppendRaw(m.args), p4);
    ConcatCons(AppendRaw(m.result), tail);
  }

  lemma ErrorParts(error: Option<seq<byte>>, parts: seq<seq<byte>>)
    requires parts == if error == None then [[NIL]] else [[0x91], AppendString(error.value)]
    ensures Concat(parts) == EncodeError(error)
  {
    hide AppendString;
    if error == None {
      ConcatCons([NIL], []);
    } else {
      var msg := AppendString(error.value);
      assert parts == [[0x91]] + [msg] && [msg] == [msg] + [] && msg + [] == msg;
      ConcatCons([0x91], [msg]);
      ConcatCons(msg, []);
    }
  }

  /** What EncodeMsg and MarshalMsg put out is no longer than Msgsize. */
  lemma SizeBound(m: Fields)
    ensures 6 <= |Encode(m)| <= Msgsize(m)
  {
    EncodeIs(m);
  }

  /** Msgsize is what a message takes that has a large ID and long strings. */
  lemma SizeIsReached(m: Fields)
    requires 0x1_0000_0000 <= m.id && 0x1_0000 <= |m.fn|
    requires m.error.Some? ==> 0x1_0000 <= |m.error.value|
    ensures |Encode(m)| == Msgsize(m)
  {
    EncodeIs(m);
  }

  lemma ErrorBack(error: Option<seq<byte>>, rest: seq<byte>)
    requires error.Some? ==> |error.value| < STR_LIMIT
    ensures ReadError(EncodeError(error) + rest) == Ok((error, rest))
  {
    hide AppendString, ReadString;
    var b := EncodeError(error) + rest;
    if error.Some? {
      assert b == [0x91] + (AppendString(error.value) + rest);
      assert b[1..] == AppendString(error.value) + rest;
      StringBack(error.value, rest);
    } else {
      assert b[1..] == rest;
    }
  }

  /** Decoding an encoding gives the message and what stands behind it. */
  lemma RoundTrip(m: Fields, rest: seq<byte>)
    requires WellFormed(m)
    ensures Decode(Encode(m) + rest) == Ok((m, rest))
  {
    hide AppendUint, AppendString, AppendRaw, EncodeError, ReadUint64, ReadString, ReadRaw, ReadError;
    EncodeIs(m);
    var b5 := EncodeError(m.error) + rest;
    var b4 := AppendRaw(m.result) + b5;
    var b3 := AppendRaw(m.args) + b4;
    var b2 := AppendString(m.fn) + b3;
    var b1 := AppendUint(m.id) + b2;
    assert Encode(m) + rest == [0x95] + b1;
    assert ([0x95] + b1)[1..] == b1;
    UintBack(m.id, b2);
    StringBack(m.fn, b3);
    RawBack(m.args, b4);
    RawBack(m.result, b5);
    ErrorBack(m.error, rest);
  }

  lemma StringInLimit(b: seq<byte>)
    ensures ReadString(b).Got? ==> |ReadString(b).value| < STR_LIMIT
  {
  }

  /** Whatever has been decoded is well-formed, so it survives being encoded and decoded again. */
  lemma DecodedIsWellFormed(b: seq<byte>)
    requires Decode(b).Ok?
    ensures WellFormed(Decode(b).value.0)
  {
    hide ReadUint64, ReadString, ReadRaw, Payload;
    var b1 := ReadArrayHeader(b).rest;
    var b2 := ReadUint64(b1).rest;
    var b3 := ReadString(b2).rest;
    var b4 := ReadRaw(b3).rest;
    var b5 := ReadRaw(b4).rest;
    StringInLimit(b2);
    RawIsPayload(b3);
    RawIsPayload(b4);
    if !IsNil(b5) {
      StringInLimit(ReadArrayHeader(b5).rest);
    }
  }

  /** A message comes back as itself exactly when both payloads are empty or one object that is not nil. */
  lemma ComesBackExactly(m: Fields, rest: seq<byte>)
    requires InLimits(m)
    ensures Decode(Encode(m) + rest) == Ok((m, rest)) <==> Payload(m.args) && Payload(m.result)
  {
    hide Encode, Decode, Payload;
    if Payload(m.args) && Payload(m.result) {
      RoundTrip(m, rest);
    }
    if Decode(Encode(m) + rest) == Ok((m, rest)) {
      DecodedIsWellFormed(Encode(m) + rest);
    }
  }

  /** What can be sent: payloads that are empty or one object, be it a nil. */
  predicate Transmittable(m: Fields) {
    InLimits(m) && (m.args == [] || OneObject(m.args)) && (m.result == [] || OneObject(m.result))
  }

  function Arriving(raw: seq<byte>): seq<byte> {
    if IsNil(raw) then [] else raw
  }

  /** The message as the peer sees it: an encoded nil is the same as no payload. */
  function Received(m: Fields): Fields {
    m.(args := Arriving(m.args), result := Arriving(m.result))
  }

  lemma SameOnWire(raw: seq<byte>)
    requires raw == [] || OneObject(raw)
    ensures AppendRaw(Arriving(raw)) == AppendRaw(raw) && Payload(Arriving(raw))
  {
    if OneObject(raw) && IsNil(raw) {
      assert Formats.Skip(raw, 1, 0) == Some(1);
    }
  }

  /** Whatever can be sent arrives, and nothing of it is left behind or taken from what follows. */
  lemma Arrives(m: Fields, rest: seq<byte>)
    requires Transmittable(m)
    ensures Decode(Encode(m) + rest) == Ok((Received(m), rest))
  {
    hide AppendRaw, AppendUint, AppendString, Arriving, Decode, Encode, Payload;
    SameOnWire(m.args);
    SameOnWire(m.result);
    EncodeIs(m);
    EncodeIs(Received(m));
    RoundTrip(Received(m), rest);
  }

  /** A decode that succeeded takes the same bytes when more of the stream is there. */
  lemma DecodeExtends(b: seq<byte>, x: seq<byte>)
    requires Decode(b).Ok?
    ensures Decode(b + x) == Ok((Decode(b).value.0, Decode(b).value.1 + x))
  {
    hide ReadArrayHeader, ReadUint64, ReadString, ReadRaw, ReadError;
    var b1 := ReadArrayHeader(b).rest;
    var b2 := ReadUint64(b1).rest;
    var b3 := ReadString(b2).rest;
    var b4 := ReadRaw(b3).rest;
    var b5 := ReadRaw(b4).rest;
    ArrayHeaderExtends(b, x);
    UintExtends(b1, x);
    StringExtends(b2, x);
    RawExtends(b3, x);
    RawExtends(b4, x);
    ErrorExtends(b5, x);
  }

  lemma ErrorExtends(b: seq<byte>, x: seq<byte>)
    requires ReadError(b).Ok?
    ensures ReadError(b + x) == Ok((ReadError(b).value.0, ReadError(b).value.1 + x))
  {
    hide ReadString;
    if b != [] { assert (b + x)[0] == b[0]; }
    if IsNil(b) {
      assert (b + x)[1..] == b[1..] + x;
    } else {
      ArrayHeaderExtends(b, x);
      StringExtends(ReadArrayHeader(b).rest, x);
    }
  }

  // ---- what is refused ---------------------------------------------------------------------

  lemma ErrorIsObject(b: seq<byte>)
    requires ReadError(b).Ok?
    ensures ReadObject(b).Got? && ReadObject(b).rest == ReadError(b).value.1
  {
    hide ReadArrayHeader, ReadString, ReadObject, Objects;
    if IsNil(b) {
      NilIsObject(b);
    } else {
      var body, rest := ReadArrayHeader(b).rest, ReadError(b).value.1;
      StringIsObject(body);
      NoObjects(rest);
      OneMoreObject(body, 0, rest);
      ArrayIsObject(b, rest);
    }
  }

  lemma RawTakesObject(b: seq<byte>)
    ensures ReadRaw(b).Got? <==> ReadObject(b).Got?
    ensures ReadRaw(b).Got? ==> ReadObject(b).rest == ReadRaw(b).rest
  {
  }

  /** A decode that succeeds takes one object, no more and no less: nothing of a message stays on the stream. */
  lemma DecodeTakesOneObject(b: seq<byte>)
    requires Decode(b).Ok?
    ensures ReadObject(b).Got? && ReadObject(b).rest == Decode(b).value.1
  {
    hide ReadArrayHeader, ReadUint64, ReadString, ReadRaw, ReadError, ReadObject, Objects;
    var b1 := ReadArrayHeader(b).rest;
    var b2 := ReadUint64(b1).rest;
    var b3 := ReadString(b2).rest;
    var b4 := ReadRaw(b3).rest;
    var b5 := ReadRaw(b4).rest;
    var rest := ReadError(b5).value.1;
    UintIsObject(b1);
    StringIsObject(b2);
    RawTakesObject(b3);
    RawTakesObject(b4);
    ErrorIsObject(b5);
    NoObjects(rest);
    OneMoreObject(b5, 0, rest);
    OneMoreObject(b4, 1, rest);
    OneMoreObject(b3, 2, rest);
    OneMoreObject(b2, 3, rest);
    OneMoreObject(b1, 4, rest);
    ArrayIsObject(b, rest);
  }

  /** Whatever can be sent goes out as one object. */
  lemma EncodedIsOneObject(m: Fields)
    requires Transmittable(m)
    ensures OneObject(Encode(m))
  {
    hide Encode, Decode;
    Arrives(m, []);
    assert Encode(m) + [] == Encode(m);
    DecodeTakesOneObject(Encode(m));
  }

  /** b begins with the header of an array of n elements. */
  predicate BeginsArray(b: seq<byte>, n: nat) {
    exists k: nat :: k <= |b| && IsArrayHeader(b[..k], n)
  }

  lemma HeaderRead(b: seq<byte>, n: nat)
    ensures BeginsArray(b, n) <==> ReadArrayHeader(b).Got? && ReadArrayHeader(b).value == n
  {
    hide ReadArrayHeader, IsArrayHeader;
    if BeginsArray(b, n) {
      var k: nat :| k <= |b| && IsArrayHeader(b[..k], n);
      HeadersExactly(b, n, k);
    }
    if ReadArrayHeader(b).Got? && ReadArrayHeader(b).value == n {
      var k := |b| - |ReadArrayHeader(b).rest|;
      ArrayHeaderIsNode(b);
      HeadersExactly(b, n, k);
    }
  }

  /** An array of more or fewer than five elements is refused by its header, whatever follows, and nothing else is. */
  lemma WrongArityExactly(b: seq<byte>, n: nat)
    ensures Decode(b) == Err(WrongArity(5, n)) <==> BeginsArray(b, n) && n != 5
    ensures Decode(b).Ok? ==> BeginsArray(b, 5)
  {
    hide ReadArrayHeader, ReadUint64, ReadString, ReadRaw, BeginsArray;
    HeaderRead(b, n);
    HeaderRead(b, 5);
  }

  /** So is an error that is neither nil nor an array of one. */
  lemma ErrorArityExactly(b: seq<byte>, n: nat)
    ensures ReadError(b) == Err(WrongArity(1, n)) <==> BeginsArray(b, n) && n != 1
    ensures ReadError(b).Ok? ==> IsNil(b) || BeginsArray(b, 1)
  {
    hide ReadString, BeginsArray;
    HeaderRead(b, n);
    HeaderRead(b, 1);
  }

  /** The bytes of the first k parts, and then others. */
  function Begun(m: Fields, k: nat, b: seq<byte>): seq<byte>
    requires k <= |Parts(m)|
  {
    Concat(Parts(m)[..k]) + b
  }

  lemma {:induction false} ConcatEnd(xs: seq<seq<byte>>, y: seq<byte>)
    ensures Concat(xs + [y]) == Concat(xs) + y
  {
    if xs == [] {
      assert [] + [y] == [y] && Concat([y]) == y + [] == y;
    } else {
      assert (xs + [y])[1..] == xs[1..] + [y];
      ConcatEnd(xs[1..], y);
    }
  }

  lemma BegunNext(m: Fields, k: nat, b: seq<byte>)
    requires k < |Parts(m)|
    ensures Begun(m, k + 1, b) == Begun(m, k, Parts(m)[k] + b)
  {
    hide Concat, AppendUint, AppendString, AppendRaw;
    assert Parts(m)[..k + 1] == Parts(m)[..k] + [Parts(m)[k]];
    ConcatEnd(Parts(m)[..k], Parts(m)[k]);
  }

  lemma BegunHead(m: Fields, b: seq<byte>)
    ensures Begun(m, 0, b) == b && Begun(m, 1, b) == [0x95] + b
    ensures Begun(m, 2, b) == [0x95] + (AppendUint(m.id) + b)
    ensures Begun(m, 3, b) == [0x95] + (AppendUint(m.id) + (AppendString(m.fn) + b))
  {
    hide AppendUint, AppendString, AppendRaw, Concat, Begun;
    BegunNothing(m, b);
    BegunNothing(m, [0x95] + b);
    BegunNext(m, 0, b);
    BegunNext(m, 1, b);
    BegunNext(m, 0, AppendUint(m.id) + b);
    BegunNext(m, 2, b);
    BegunNext(m, 1, AppendString(m.fn) + b);
    BegunNext(m, 0, AppendUint(m.id) + (AppendString(m.fn) + b));
    BegunNothing(m, [0x95] + (AppendUint(m.id) + b));
    BegunNothing(m, [0x95] + (AppendUint(m.id) + (AppendString(m.fn) + b)));
  }

  lemma BegunNothing(m: Fields, b: seq<byte>)
    ensures Begun(m, 0, b) == b
  {
    assert Parts(m)[..0] == [] && [] + b == b;
  }

  /** What is decoded behind the first three parts. */
  lemma HeadRead(m: Fields, b: seq<byte>)
    requires WellFormed(m)
    ensures DecodeHead(Begun(m, 3, b)) == Ok((m.id, m.fn, b))
    ensures ReadString(b).Fail? ==> Decode(Begun(m, 2, b)) == Err(BadField("Func"))
    ensures ReadUint64(b).Fail? ==> Decode(Begun(m, 1, b)) == Err(BadField("ID"))
    ensures ReadArrayHeader(b).Fail? ==> Decode(Begun(m, 0, b)) == Err(BadField(""))
  {
    hide AppendUint, AppendString, ReadUint64, ReadString, Payload, Begun;
    BegunHead(m, b);
    var b2 := AppendString(m.fn) + b;
    assert ([0x95] + b)[1..] == b;
    assert ([0x95] + (AppendUint(m.id) + b))[1..] == AppendUint(m.id) + b;
    assert ([0x95] + (AppendUint(m.id) + b2))[1..] == AppendUint(m.id) + b2;
    UintBack(m.id, b);
    UintBack(m.id, b2);
    StringBack(m.fn, b);
  }

  /** The parts before the fault can be read, so the error is about the field that comes next. */
  lemma FaultNamesField(m: Fields, b: seq<byte>)
    requires WellFormed(m)
    ensures ReadArrayHeader(b).Fail? ==> Decode(Begun(m, 0, b)) == Err(BadField(""))
    ensures ReadUint64(b).Fail? ==> Decode(Begun(m, 1, b)) == Err(BadField("ID"))
    ensures ReadString(b).Fail? ==> Decode(Begun(m, 2, b)) == Err(BadField("Func"))
    ensures ReadObject(b).Fail? ==> Decode(Begun(m, 3, b)) == Err(BadField("Args"))
    ensures ReadObject(b).Fail? ==> Decode(Begun(m, 4, b)) == Err(BadField("Result"))
    ensures !IsNil(b) && ReadArrayHeader(b).Fail? ==> Decode(Begun(m, 5, b)) == Err(BadField("Error"))
    ensures ReadError(b).Err? ==> Decode(Begun(m, 5, b)) == Err(ReadError(b).error)
    ensures m.error.Some? && ReadString(b).Fail? ==> Decode(Begun(m, 6, b)) == Err(BadField("Error.Msg"))
  {
    hide AppendUint, AppendString, AppendRaw, ReadString, ReadUint64, ReadObject, Payload, Begun, DecodeHead, IsNil;
    HeadRead(m, b);
    RawTakesObject(b);
    var a, r := AppendRaw(m.args), AppendRaw(m.result);
    BegunNext(m, 3, b);
    HeadRead(m, a + b);
    RawBack(m.args, b);
    BegunNext(m, 4, b);
    BegunNext(m, 3, r + b);
    HeadRead(m, a + (r + b));
    RawBack(m.args, r + b);
    RawBack(m.result, b);
    if m.error.Some? {
      var x := [0x91] + b;
      BegunNext(m, 5, b);
      BegunNext(m, 4, x);
      BegunNext(m, 3, r + x);
      HeadRead(m, a + (r + x));
      RawBack(m.args, r + x);
      RawBack(m.result, x);
      OneElement(b);
    }
  }

  lemma OneElement(b: seq<byte>)
    ensures !IsNil([0x91] + b) && ReadArrayHeader([0x91] + b) == Got(1, b)
  {
    assert ([0x91] + b)[1..] == b;
  }

  /** A proper prefix of an encoding does not decode: the reader is left waiting for the rest. */
  lemma PrefixDoesNotDecode(m: Fields, p: seq<byte>)
    requires Transmittable(m) && p < Encode(m)
    ensures Decode(p).Err?
  {
    hide Encode, Decode;
    var x := Encode(m)[|p|..];
    assert p + x == Encode(m) && Encode(m) + [] == Encode(m);
    Arrives(m, []);
    if Decode(p).Ok? {
      DecodeExtends(p, x);
    }
  }
}
