/** The way of a chat line: from send() in one browser to the server and on to handle() in another. */
module Chat {
  import opened Bytes
  import opened Msgp
  import opened MpcGen
  import opened Mpc
  import opened ChatGen
  import Formats
  import FieldMap
  import Utf8
  import JsEncoder
  import JsDecoder
  import JsNumbers
  import JsRoundTrip
  import Websocket
  import Wire

  type JsString = Utf8.JsString

  type JsValue = JsEncoder.Value

  const CHAT_MESSAGE: seq<byte> := [0x43, 0x68, 0x61, 0x74, 0x2e, 0x4d, 0x65, 0x73, 0x73, 0x61, 0x67, 0x65]

  /** An ASCII string has the same bytes in Go as it has units in JavaScript. */
  function Units(s: seq<byte>): JsString {
    s
  }

  lemma {:induction false} AsciiIsItself(s: seq<byte>)
    requires forall i :: 0 <= i < |s| ==> s[i] < 0x80
    ensures Utf8.Encode(Units(s)) == s && Utf8.Recode(Units(s)) == Units(s)
    decreases |s|
  {
    hide Utf8.UnitBytes, Utf8.RecodeUnit;
    if s == [] {
    } else {
      AsciiIsItself(s[1..]);
      AsciiUnit(s[0]);
      assert Units(s)[1..] == Units(s[1..]);
      assert s == [s[0]] + s[1..];
    }
  }

  lemma AsciiUnit(c: byte)
    requires c < 0x80
    ensures Utf8.UnitBytes(c) == [c] && Utf8.RecodeUnit(c) == c
  {
  }

  lemma Ascii()
    ensures Utf8.Encode(Units(TIME)) == TIME && Utf8.Recode(Units(TIME)) == Units(TIME)
    ensures Utf8.Encode(Units(FROM)) == FROM && Utf8.Recode(Units(FROM)) == Units(FROM)
    ensures Utf8.Encode(Units(MESSAGE)) == MESSAGE && Utf8.Recode(Units(MESSAGE)) == Units(MESSAGE)
    ensures Utf8.Encode(Units(CHAT_MESSAGE)) == CHAT_MESSAGE && Utf8.Recode(Units(CHAT_MESSAGE)) == Units(CHAT_MESSAGE)
  {
    hide Utf8.Encode, Utf8.Recode;
    AsciiIsItself(TIME);
    AsciiIsItself(FROM);
    AsciiIsItself(MESSAGE);
    AsciiIsItself(CHAT_MESSAGE);
  }

  predicate Spells(b: seq<byte>, s: string) {
    |b| == |s| && forall i :: 0 <= i < |s| ==> b[i] == s[i] as int
  }

  /** The function and the fields are called what the Go code, its struct tags and chat.js call them. */
  lemma NamesAreSpelled()
    ensures Spells(CHAT_MESSAGE, "Chat.Message")
    ensures Spells(FROM, "from") && Spells(MESSAGE, "message") && Spells(TIME, "time")
    ensures exists b :: Spells(b, "__proto__") && JsDecoder.PROTO == Units(b)
  {
    assert Spells([0x5f, 0x5f, 0x70, 0x72, 0x6f, 0x74, 0x6f, 0x5f, 0x5f], "__proto__");
  }

  // ---- to the server ------------------------------------------------------------------------

  function SentArgs(name: JsString, text: JsString): JsValue {
    JsEncoder.Object([
      JsEncoder.Entry(Units(FROM), JsEncoder.Str(name)),
      JsEncoder.Entry(Units(MESSAGE), JsEncoder.Str(text))], JsEncoder.Plain)
  }

  /** The tuple that send() marshals. */
  function Sent(name: JsString, text: JsString): JsValue {
    JsEncoder.Array([
      JsEncoder.Int(0), JsEncoder.Str(Units(CHAT_MESSAGE)), SentArgs(name, text), JsEncoder.Str([]), JsEncoder.Null])
  }

  /** The wire message that the server is to see. */
  function SentFields(name: JsString, text: JsString): Wire.Fields {
    Wire.Fields(0, CHAT_MESSAGE, IncomingBytes(Utf8.Encode(name), Utf8.Encode(text)), [0xa0], None)
  }

  predicate Sendable(name: JsString, text: JsString) {
    |Utf8.Encode(name)| < STR_LIMIT && |Utf8.Encode(text)| < STR_LIMIT
  }

  lemma SameHeader(n: nat)
    requires n < STR_LIMIT
    ensures JsEncoder.StrHeader(n) == StringHeader(n)
  {
    if 0x1_0000 <= n { assert n % STR_LIMIT == n; }
  }

  /** Both sides write a string in the same way. */
  lemma StrIsString(s: JsString)
    requires |Utf8.Encode(s)| < STR_LIMIT
    ensures JsEncoder.PackedStr(s) == AppendString(Utf8.Encode(s))
  {
    hide Utf8.Encode, StringHeader, JsEncoder.StrHeader;
    SameHeader(|Utf8.Encode(s)|);
  }

  lemma EntryPacked(key: JsString, s: JsString)
    requires |Utf8.Encode(key)| < STR_LIMIT && |Utf8.Encode(s)| < STR_LIMIT
    ensures JsEncoder.PackedEntry(JsEncoder.Entry(key, JsEncoder.Str(s)))
      == AppendString(Utf8.Encode(key)) + AppendString(Utf8.Encode(s))
  {
    hide Utf8.Encode, AppendString, JsEncoder.PackedStr;
    StrIsString(key);
    StrIsString(s);
  }

  lemma TwoEntries(e1: JsEncoder.Entry, e2: JsEncoder.Entry)
    ensures JsEncoder.Packed(JsEncoder.Object([e1, e2], JsEncoder.Plain))
      == [0x82] + (JsEncoder.PackedEntry(e1) + JsEncoder.PackedEntry(e2))
  {
    hide JsEncoder.PackedEntry;
    assert [e1, e2][1..] == [e2];
    assert JsEncoder.PackedEntries([e2]) == JsEncoder.PackedEntry(e2) + [];
  }

  lemma TwoEncodable(e1: JsEncoder.Entry, e2: JsEncoder.Entry)
    requires e1.key != e2.key && e1.value.Str? && e2.value.Str?
    requires |Utf8.Encode(e1.key)| < STR_LIMIT && |Utf8.Encode(e2.key)| < STR_LIMIT
    requires |Utf8.Encode(e1.value.s)| < STR_LIMIT && |Utf8.Encode(e2.value.s)| < STR_LIMIT
    ensures JsEncoder.Representable(JsEncoder.Object([e1, e2], JsEncoder.Plain))
    ensures JsEncoder.Encodable(JsEncoder.Object([e1, e2], JsEncoder.Plain))
  {
    hide Utf8.Encode;
  }

  lemma ArgsAreEncodable(name: JsString, text: JsString)
    requires Sendable(name, text)
    ensures JsEncoder.Representable(SentArgs(name, text)) && JsEncoder.Encodable(SentArgs(name, text))
  {
    hide Utf8.Encode, JsEncoder.Representable, JsEncoder.Encodable;
    Ascii();
    assert |FROM| != |MESSAGE|;
    TwoEncodable(
      JsEncoder.Entry(Units(FROM), JsEncoder.Str(name)), JsEncoder.Entry(Units(MESSAGE), JsEncoder.Str(text)));
  }

  lemma TwoEntriesAreTwoPairs(k1: seq<byte>, s1: JsString, k2: seq<byte>, s2: JsString)
    requires Utf8.Encode(Units(k1)) == k1 && |k1| < STR_LIMIT && |Utf8.Encode(s1)| < STR_LIMIT
    requires Utf8.Encode(Units(k2)) == k2 && |k2| < STR_LIMIT && |Utf8.Encode(s2)| < STR_LIMIT
    ensures JsEncoder.Packed(JsEncoder.Object(
        [JsEncoder.Entry(Units(k1), JsEncoder.Str(s1)), JsEncoder.Entry(Units(k2), JsEncoder.Str(s2))],
        JsEncoder.Plain))
      == [0x82] + FieldMap.EncodePairs(
        [FieldMap.Pair(k1, AppendString(Utf8.Encode(s1))), FieldMap.Pair(k2, AppendString(Utf8.Encode(s2)))])
  {
    hide Utf8.Encode, AppendString, JsEncoder.Packed, JsEncoder.PackedEntry, FieldMap.EncodePairs;
    EntryPacked(Units(k1), s1);
    EntryPacked(Units(k2), s2);
    TwoEntries(JsEncoder.Entry(Units(k1), JsEncoder.Str(s1)), JsEncoder.Entry(Units(k2), JsEncoder.Str(s2)));
    var f, m := AppendString(Utf8.Encode(s1)), AppendString(Utf8.Encode(s2));
    TwoPairs(FieldMap.Pair(k1, f), FieldMap.Pair(k2, m));
    assert AppendString(k1) + f + (AppendString(k2) + m) == AppendString(k1) + f + AppendString(k2) + m;
  }

  lemma PackedArgs(name: JsString, text: JsString)
    requires Sendable(name, text)
    ensures JsEncoder.Packed(SentArgs(name, text)) == IncomingBytes(Utf8.Encode(name), Utf8.Encode(text))
  {
    hide Utf8.Encode, AppendString, JsEncoder.Packed, FieldMap.EncodePairs;
    Ascii();
    TwoEntriesAreTwoPairs(FROM, name, MESSAGE, text);
  }

  lemma FiveEncodable(a: JsValue, b: JsValue, c: JsValue, d: JsValue, e: JsValue)
    requires JsEncoder.Representable(a) && JsEncoder.Representable(b) && JsEncoder.Representable(c)
      && JsEncoder.Representable(d) && JsEncoder.Representable(e)
    requires JsEncoder.Encodable(a) && JsEncoder.Encodable(b) && JsEncoder.Encodable(c)
      && JsEncoder.Encodable(d) && JsEncoder.Encodable(e)
    ensures JsEncoder.Representable(JsEncoder.Array([a, b, c, d, e]))
    ensures JsEncoder.Encodable(JsEncoder.Array([a, b, c, d, e]))
  {
  }

  lemma SentIsEncodable(name: JsString, text: JsString)
    requires Sendable(name, text)
    ensures JsEncoder.Representable(Sent(name, text)) && JsEncoder.Encodable(Sent(name, text))
  {
    hide SentArgs;
    ArgsAreEncodable(name, text);
    PackedArgs(name, text);
    Ascii();
    EmptyString();
    hide Utf8.Encode;
    FiveEncodable(
      JsEncoder.Int(0), JsEncoder.Str(Units(CHAT_MESSAGE)), SentArgs(name, text), JsEncoder.Str([]), JsEncoder.Null);
  }

  lemma FiveItems(a: JsValue, b: JsValue, c: JsValue, d: JsValue, e: JsValue)
    ensures JsEncoder.Packed(JsEncoder.Array([a, b, c, d, e])) == [0x95] + (JsEncoder.Packed(a) + (JsEncoder.Packed(b) +
      (JsEncoder.Packed(c) + (JsEncoder.Packed(d) + JsEncoder.Packed(e)))))
  {
    FivePacked([a, b, c, d, e]);
    hide JsEncoder.Packed, JsEncoder.PackedItems;
    ItemsCons(e, []);
    ItemsCons(d, [e]);
    ItemsCons(c, [d, e]);
    ItemsCons(b, [c, d, e]);
    ItemsCons(a, [b, c, d, e]);
    assert [a] + [b, c, d, e] == [a, b, c, d, e] && [b] + [c, d, e] == [b, c, d, e];
    assert [c] + [d, e] == [c, d, e] && [d] + [e] == [d, e] && [e] + [] == [e];
    assert JsEncoder.Packed(e) + [] == JsEncoder.Packed(e);
  }

  lemma FivePacked(items: seq<JsValue>)
    requires |items| == 5
    ensures JsEncoder.Packed(JsEncoder.Array(items)) == [0x95] + JsEncoder.PackedItems(items)
  {
  }

  lemma ItemsCons(x: JsValue, xs: seq<JsValue>)
    ensures JsEncoder.PackedItems([x] + xs) == JsEncoder.Packed(x) + JsEncoder.PackedItems(xs)
    ensures JsEncoder.PackedItems([]) == []
  {
    hide JsEncoder.Packed;
    assert ([x] + xs)[1..] == xs;
  }

  lemma TupleIsWire(fn: seq<byte>, args: JsValue)
    requires Utf8.Encode(Units(fn)) == fn && |fn| < STR_LIMIT && JsEncoder.Packed(args) != []
    ensures JsEncoder.Packed(JsEncoder.Array(
        [JsEncoder.Int(0), JsEncoder.Str(Units(fn)), args, JsEncoder.Str([]), JsEncoder.Null]))
      == Wire.Encode(Wire.Fields(0, fn, JsEncoder.Packed(args), [0xa0], None))
  {
    hide Utf8.Encode, AppendString, Wire.Encode, JsEncoder.PackedStr, JsEncoder.PackedItems;
    StrIsString(Units(fn));
    EmptyString();
    FiveItems(JsEncoder.Int(0), JsEncoder.Str(Units(fn)), args, JsEncoder.Str([]), JsEncoder.Null);
    Wire.EncodeIs(Wire.Fields(0, fn, JsEncoder.Packed(args), [0xa0], None));
  }

  /** The bytes that chat.js sends are those that the Go encoder would send for the same message. */
  lemma PackedIsWire(name: JsString, text: JsString)
    requires Sendable(name, text)
    ensures JsEncoder.Packed(Sent(name, text)) == Wire.Encode(SentFields(name, text))
  {
    hide Utf8.Encode, IncomingBytes, Wire.Encode, SentArgs, JsEncoder.Packed;
    Ascii();
    PackedArgs(name, text);
    NotEmpty(name, text);
    TupleIsWire(CHAT_MESSAGE, SentArgs(name, text));
  }

  lemma NotEmpty(name: JsString, text: JsString)
    ensures IncomingBytes(Utf8.Encode(name), Utf8.Encode(text)) != []
    ensures !IsNil(IncomingBytes(Utf8.Encode(name), Utf8.Encode(text)))
  {
    hide Utf8.Encode, FieldMap.EncodePairs;
  }

  lemma EmptyString()
    ensures JsEncoder.PackedStr([]) == [0xa0] && Utf8.Encode([]) == []
  {
  }

  lemma SentIsWellFormed(name: JsString, text: JsString)
    requires Sendable(name, text)
    ensures Wire.WellFormed(SentFields(name, text))
  {
    hide Utf8.Encode, IncomingBytes, SentArgs, JsEncoder.Packed;
    ArgsAreEncodable(name, text);
    PackedArgs(name, text);
    JsRoundTrip.PackedIsOneObject(SentArgs(name, text));
    NotEmpty(name, text);
    assert Formats.Skip([0xa0], 1, 0) == Some(1);
  }

  /** Incoming.UnmarshalMsg as Unmarshal sees it. */
  function UnmarshalIncoming(b: seq<byte>, z: FieldMap.Record): Option<FieldMap.Record> {
    match FieldMap.Decode(INCOMING, z, b)
    case Fault(_) => None
    case Decoded(v, _) => Some(v)
  }

  /**
   Whatever is typed into the form arrives: as call 0 of Chat.Message with no error, a result that
   is the empty string and arguments that decode, into any target, to the UTF-8 of name and text.
   */
  lemma BrowserToServer(name: JsString, text: JsString, z: FieldMap.Record, rest: seq<byte>)
    requires Sendable(name, text) && z.Keys == INCOMING.Keys
    ensures match Wire.Decode(JsEncoder.Packed(Sent(name, text)) + rest)
      case Err(_) => false
      case Ok((m, r)) =>
        var d := DeliveryOf(m);
        && m == SentFields(name, text) && r == rest
        && d == Delivery(0, CHAT_MESSAGE, d.args, Some([0xa0]), None)
        && Unmarshal(InterfaceOf(d.args), z, Some(UnmarshalIncoming))
          == Some(IncomingRecord(Utf8.Encode(name), Utf8.Encode(text)))
  {
    hide Utf8.Encode, IncomingBytes, Wire.Decode, Wire.Encode, JsEncoder.Packed, FieldMap.Decode, Sent;
    PackedIsWire(name, text);
    SentIsWellFormed(name, text);
    Wire.RoundTrip(SentFields(name, text), rest);
    NotEmpty(name, text);
    var args := IncomingBytes(Utf8.Encode(name), Utf8.Encode(text));
    IncomingBack(z, Utf8.Encode(name), Utf8.Encode(text), []);
    assert args + [] == args;
  }

  /** The same through the code itself: from the browser through the codec of a connection into the struct. */
  method Deliver(name: JsString, text: JsString, c: Websocket.Codec, msg: BirpcMessage, incoming: Incoming)
    requires Sendable(name, text)
    requires c.Valid() && msg !in c.wire.Repr() && incoming !in c.wire.Repr()
    modifies c.ws, c.r, c.wire, c.wire.Repr(), msg, incoming
    ensures incoming.from == Utf8.Encode(name) && incoming.message == Utf8.Encode(text)
    ensures msg.Valid() && msg.View() == DeliveryOf(SentFields(name, text))
  {
    hide Utf8.Encode, Wire.Decode, Sent, JsEncoder.Packed, FieldMap.Decode;
    hide JsEncoder.Representable, JsEncoder.Encodable;
    hide IncomingBytes, IncomingRecord, Message.Repr, Message.Valid, Message.Value;
    SentIsEncodable(name, text);
    RecordHolds(incoming.from, incoming.message);
    BrowserToServer(name, text, incoming.Value(), []);
    NotEmpty(name, text);
    ghost var args := IncomingBytes(Utf8.Encode(name), Utf8.Encode(text));
    var buffer := JsEncoder.ExportsEncode(Sent(name, text));
    assert JsEncoder.Packed(Sent(name, text)) + [] == JsEncoder.Packed(Sent(name, text));
    c.ws.incoming := [Websocket.Binary(buffer.value[..])];
    var read := c.ReadMessage(msg);
    assert Seen(msg.args) == msg.View().args == Some(args);
    IncomingBack(incoming.Value(), Utf8.Encode(name), Utf8.Encode(text), []);
    assert args + [] == args;
    var _ := incoming.UnmarshalMsg(msg.args.value.Contents());
    RecordHolds(incoming.from, incoming.message);
    RecordHolds(Utf8.Encode(name), Utf8.Encode(text));
  }

  lemma RecordHolds(from: seq<byte>, message: seq<byte>)
    ensures var v := IncomingRecord(from, message);
      && v.Keys == INCOMING.Keys
      && FROM in v && v[FROM] == FieldMap.Text(from) && MESSAGE in v && v[MESSAGE] == FieldMap.Text(message)
  {
  }

  // ---- to every browser ---------------------------------------------------------------------

  /** The call by which the server passes a line on. */
  function Passed(id: uint64, time: uint32, name: JsString, text: JsString): Wire.Fields {
    Wire.Fields(id, CHAT_MESSAGE, OutgoingBytes(time, Utf8.Encode(name), Utf8.Encode(text)), [], None)
  }

  function ShownArgs(time: uint32, name: JsString, text: JsString): JsValue {
    JsEncoder.Object([
      JsEncoder.Entry(Units(TIME), JsEncoder.Int(time)),
      JsEncoder.Entry(Units(FROM), JsEncoder.Str(name)),
      JsEncoder.Entry(Units(MESSAGE), JsEncoder.Str(text))], JsEncoder.Plain)
  }

  function Shown(id: int, time: uint32, name: JsString, text: JsString): JsValue {
    JsEncoder.Array([
      JsEncoder.Int(id), JsEncoder.Str(Units(CHAT_MESSAGE)), ShownArgs(time, name, text),
      JsEncoder.Null, JsEncoder.Null])
  }

  lemma UintParsed(b: seq<byte>, off: nat, n: uint64, js: JsDecoder.Engine)
    requires At(b, off, AppendUint(n))
    ensures JsDecoder.ParseAt(b, off, js) == Some((JsEncoder.Int(JsDecoder.Rounded(n)), off + |AppendUint(n)|))
  {
    assert n < 0x1_0000_0000 ==> JsDecoder.Rounded(n) == n;
    hide JsDecoder.HeadAt, At, JsDecoder.Rounded;
    if n < 0x1_0000_0000 {
      assert AppendUint(n) == JsEncoder.PackedInt(n);
      JsRoundTrip.IntHead(b, off, n);
    } else {
      assert AppendUint(n) == [0xcf] + JsRoundTrip.BigEndian(n, 8);
      JsRoundTrip.AnyInteger(b, off, n, 8, false);
    }
  }

  lemma StrParsed(b: seq<byte>, off: nat, s: JsString, js: JsDecoder.Engine)
    requires |Utf8.Encode(s)| < STR_LIMIT && At(b, off, AppendString(Utf8.Encode(s)))
    ensures JsDecoder.ParseAt(b, off, js)
      == Some((JsEncoder.Str(Utf8.Recode(s)), off + |AppendString(Utf8.Encode(s))|))
  {
    hide Utf8.Encode, AppendString, JsEncoder.PackedStr, JsDecoder.ParseAt;
    StrIsString(s);
    JsRoundTrip.StrBack(b, off, s, js);
  }

  lemma NilParsed(b: seq<byte>, off: nat, js: JsDecoder.Engine)
    requires At(b, off, [0xc0])
    ensures JsDecoder.ParseAt(b, off, js) == Some((JsEncoder.Null, off + 1))
  {
    JsRoundTrip.FirstByte(b, off, 0xc0);
  }

  lemma EntryParsed(b: seq<byte>, off: nat, n: nat, js: JsDecoder.Engine, sofar: seq<JsEncoder.Entry>,
                    key: seq<byte>, v: JsValue, x: seq<byte>)
    requires 0 < n && |key| < STR_LIMIT && Utf8.Encode(Units(key)) == key && Utf8.Recode(Units(key)) == Units(key)
    requires off <= |b| + 1 && At(b, off, AppendString(key) + x)
    requires Units(key) != JsDecoder.PROTO && !JsDecoder.HasKey(sofar, Units(key))
    requires var mid := off + |AppendString(key)|;
      JsDecoder.ParseAt(b, mid, js) == Some((v, mid + |x|))
    ensures var end := off + |AppendString(key) + x|;
      && end <= |b| + 1
      && JsDecoder.ParseEntries(b, off, n, js, Fields(sofar))
        == JsDecoder.ParseEntries(b, end, n - 1, js, Fields(sofar + [JsEncoder.Entry(Units(key), v)]))
  {
    hide Utf8.Encode, Utf8.Recode, AppendString, JsDecoder.ParseAt, JsDecoder.ParseEntries, At;
    hide JsDecoder.SetProperty, JsDecoder.HasKey, JsDecoder.Assign;
    var mid := off + |AppendString(key)|;
    AtConcat(b, off, AppendString(key), x);
    StrParsed(b, off, Units(key), js);
    JsRoundTrip.AssignNew(sofar, Units(key), v);
    JsRoundTrip.PlainProperty(sofar, Units(key), v, js);
    JsRoundTrip.EntriesStep(b, off, n, js, Fields(sofar), JsEncoder.Entry(Units(key), v), mid, mid + |x|);
  }

  function Fields(es: seq<JsEncoder.Entry>): JsDecoder.Obj {
    JsEncoder.Object(es, JsEncoder.Plain)
  }

  lemma ShortMap(b: seq<byte>, off: nat, n: nat, js: JsDecoder.Engine)
    requires n < 0x10 && At(b, off, [0x80 + n])
    ensures off < |b|
    ensures JsDecoder.ParseAt(b, off, js) == match JsDecoder.ParseEntries(b, off + 1, n, js, Fields([]))
      case None => None
      case Some((o, end)) => Some((o, end))
  {
    hide JsDecoder.ParseEntries;
    JsRoundTrip.FirstByte(b, off, 0x80 + n);
  }

  lemma ShortArray(b: seq<byte>, off: nat, n: nat, js: JsDecoder.Engine)
    requires n < 0x10 && At(b, off, [0x90 + n])
    ensures off < |b|
    ensures JsDecoder.ParseAt(b, off, js) == match JsDecoder.ParseItems(b, off + 1, n, js, [])
      case None => None
      case Some((items, end)) => Some((JsEncoder.Array(items), end))
  {
    hide JsDecoder.ParseItems;
    JsRoundTrip.FirstByte(b, off, 0x90 + n);
  }

  /** The bytes of an Outgoing as header and entries. */
  lemma OutgoingEntries(time: uint32, from: seq<byte>, message: seq<byte>)
    ensures OutgoingBytes(time, from, message) == [0x83] + ((AppendString(TIME) + AppendUint(time))
      + (AppendString(FROM) + AppendString(from)) + (AppendString(MESSAGE) + AppendString(message)))
  {
    hide AppendString, AppendUint, FieldMap.EncodePairs;
    var (t, f, m) := (AppendUint(time), AppendString(from), AppendString(message));
    var (k1, k2, k3) := (AppendString(TIME), AppendString(FROM), AppendString(MESSAGE));
    ThreePairs(FieldMap.Pair(TIME, t), FieldMap.Pair(FROM, f), FieldMap.Pair(MESSAGE, m));
    assert k1 + t + k2 + f + k3 + m == (k1 + t) + (k2 + f) + (k3 + m);
  }

  lemma OutgoingParsed(b: seq<byte>, off: nat, time: uint32, name: JsString, text: JsString,
                       js: JsDecoder.Engine)
    requires Sendable(name, text)
    requires At(b, off, OutgoingBytes(time, Utf8.Encode(name), Utf8.Encode(text)))
    ensures JsDecoder.ParseAt(b, off, js) == Some((ShownArgs(time, Utf8.Recode(name), Utf8.Recode(text)),
      off + |OutgoingBytes(time, Utf8.Encode(name), Utf8.Encode(text))|))
  {
    hide Utf8.Encode, Utf8.Recode, AppendString, AppendUint, OutgoingBytes, At;
    hide JsDecoder.ParseEntries, JsDecoder.ParseAt;
    OutgoingEntries(time, Utf8.Encode(name), Utf8.Encode(text));
    var p1 := AppendString(TIME) + AppendUint(time);
    var p2 := AppendString(FROM) + AppendString(Utf8.Encode(name));
    var p3 := AppendString(MESSAGE) + AppendString(Utf8.Encode(text));
    AtConcat(b, off, [0x83], p1 + p2 + p3);
    AtConcat(b, off + 1, p1 + p2, p3);
    AtConcat(b, off + 1, p1, p2);
    ShortMap(b, off, 3, js);
    EntriesParsed(b, off + 1, time, name, text, js);
  }

  lemma EntriesParsed(b: seq<byte>, off: nat, time: uint32, name: JsString, text: JsString,
                      js: JsDecoder.Engine)
    requires off <= |b| && Sendable(name, text)
    requires At(b, off, AppendString(TIME) + AppendUint(time))
    requires var o2 := off + |AppendString(TIME) + AppendUint(time)|;
      At(b, o2, AppendString(FROM) + AppendString(Utf8.Encode(name)))
    requires var o3 := off + |AppendString(TIME) + AppendUint(time)|
        + |AppendString(FROM) + AppendString(Utf8.Encode(name))|;
      At(b, o3, AppendString(MESSAGE) + AppendString(Utf8.Encode(text)))
    ensures JsDecoder.ParseEntries(b, off, 3, js, Fields([])) == Some((
      ShownArgs(time, Utf8.Recode(name), Utf8.Recode(text)),
      off + |AppendString(TIME) + AppendUint(time)| + |AppendString(FROM) + AppendString(Utf8.Encode(name))|
        + |AppendString(MESSAGE) + AppendString(Utf8.Encode(text))|))
  {
    hide Utf8.Encode, Utf8.Recode, AppendString, AppendUint, At, JsDecoder.ParseEntries, JsDecoder.ParseAt;
    Ascii();
    KeysDiffer();
    var (t, f, m) := (AppendUint(time), AppendString(Utf8.Encode(name)), AppendString(Utf8.Encode(text)));
    var o2 := off + |AppendString(TIME) + t|;
    var o3 := o2 + |AppendString(FROM) + f|;
    var v1, v2, v3 := JsEncoder.Int(time), JsEncoder.Str(Utf8.Recode(name)), JsEncoder.Str(Utf8.Recode(text));
    var e1, e2 := JsEncoder.Entry(Units(TIME), v1), JsEncoder.Entry(Units(FROM), v2);
    var e3 := JsEncoder.Entry(Units(MESSAGE), v3);
    AtConcat(b, off, AppendString(TIME), t);
    UintParsed(b, off + |AppendString(TIME)|, time, js);
    EntryParsed(b, off, 3, js, [], TIME, v1, t);
    AtConcat(b, o2, AppendString(FROM), f);
    StrParsed(b, o2 + |AppendString(FROM)|, name, js);
    EntryParsed(b, o2, 2, js, [] + [e1], FROM, v2, f);
    AtConcat(b, o3, AppendString(MESSAGE), m);
    StrParsed(b, o3 + |AppendString(MESSAGE)|, text, js);
    EntryParsed(b, o3, 1, js, [] + [e1] + [e2], MESSAGE, v3, m);
    JsRoundTrip.EntriesEnd(b, o3 + |AppendString(MESSAGE) + m|, js, Fields([] + [e1] + [e2] + [e3]));
    assert [] + [e1] + [e2] + [e3] == [e1, e2, e3];
  }

  lemma KeysDiffer()
    ensures Units(TIME) != Units(FROM) && Units(TIME) != Units(MESSAGE) && Units(FROM) != Units(MESSAGE)
    ensures Units(TIME) != JsDecoder.PROTO && Units(FROM) != JsDecoder.PROTO && Units(MESSAGE) != JsDecoder.PROTO
  {
    assert TIME[0] != FROM[0] && |FROM| != |MESSAGE| && |TIME| != |MESSAGE|;
    assert |JsDecoder.PROTO| == 9;
  }

  lemma Listed(v1: JsValue, v2: JsValue, v3: JsValue, v4: JsValue, v5: JsValue)
    ensures [] + [v1] == [v1] && [v1] + [v2] == [v1, v2] && [v1, v2] + [v3] == [v1, v2, v3]
    ensures [v1, v2, v3] + [v4] == [v1, v2, v3, v4] && [v1, v2, v3, v4] + [v5] == [v1, v2, v3, v4, v5]
  {
  }

  lemma FiveParsed(b: seq<byte>, js: JsDecoder.Engine, v1: JsValue, o1: nat, v2: JsValue, o2: nat,
                   v3: JsValue, o3: nat, v4: JsValue, o4: nat, v5: JsValue, o5: nat)
    requires At(b, 0, [0x95])
    requires JsDecoder.ParseAt(b, 1, js) == Some((v1, o1)) && JsDecoder.ParseAt(b, o1, js) == Some((v2, o2))
    requires JsDecoder.ParseAt(b, o2, js) == Some((v3, o3)) && JsDecoder.ParseAt(b, o3, js) == Some((v4, o4))
    requires JsDecoder.ParseAt(b, o4, js) == Some((v5, o5))
    ensures JsDecoder.ParseAt(b, 0, js) == Some((JsEncoder.Array([v1, v2, v3, v4, v5]), o5))
  {
    hide JsDecoder.ParseItems, JsDecoder.ParseAt, At;
    ShortArray(b, 0, 5, js);
    Listed(v1, v2, v3, v4, v5);
    JsRoundTrip.ItemsStep(b, 1, 5, js, [], v1, o1);
    JsRoundTrip.ItemsStep(b, o1, 4, js, [v1], v2, o2);
    JsRoundTrip.ItemsStep(b, o2, 3, js, [v1, v2], v3, o3);
    JsRoundTrip.ItemsStep(b, o3, 2, js, [v1, v2, v3], v4, o4);
    JsRoundTrip.ItemsStep(b, o4, 1, js, [v1, v2, v3, v4], v5, o5);
    JsRoundTrip.ItemsEnd(b, o5, js, [v1, v2, v3, v4, v5]);
  }

  /** What a browser decodes from the call by which the server passes a line on. */
  lemma ServerToBrowser(id: uint64, time: uint32, name: JsString, text: JsString, js: JsDecoder.Engine)
    requires Sendable(name, text)
    ensures JsDecoder.Decode(Wire.Encode(Passed(id, time, name, text)), js)
      == Some(Shown(JsDecoder.Rounded(id), time, Utf8.Recode(name), Utf8.Recode(text)))
  {
    hide Utf8.Encode, Utf8.Recode, AppendString, AppendUint, OutgoingBytes, Wire.Encode, At, ShownArgs;
    hide JsDecoder.ParseAt, JsDecoder.Rounded;
    var b := Wire.Encode(Passed(id, time, name, text));
    Ascii();
    OutgoingNotEmpty(time, name, text);
    Wire.EncodeIs(Passed(id, time, name, text));
    var x1, x2 := AppendUint(id), AppendString(CHAT_MESSAGE);
    var x3 := OutgoingBytes(time, Utf8.Encode(name), Utf8.Encode(text));
    assert At(b, 0, b) by { WholeAt(b); }
    AtConcat(b, 0, [0x95], x1 + (x2 + (x3 + ([0xc0] + [0xc0]))));
    AtConcat(b, 1, x1, x2 + (x3 + ([0xc0] + [0xc0])));
    AtConcat(b, 1 + |x1|, x2, x3 + ([0xc0] + [0xc0]));
    AtConcat(b, 1 + |x1| + |x2|, x3, [0xc0] + [0xc0]);
    AtConcat(b, 1 + |x1| + |x2| + |x3|, [0xc0], [0xc0]);
    var o1 := 1 + |x1|;
    var o2 := o1 + |x2|;
    var o3 := o2 + |x3|;
    UintParsed(b, 1, id, js);
    StrParsed(b, o1, Units(CHAT_MESSAGE), js);
    OutgoingParsed(b, o2, time, name, text, js);
    NilParsed(b, o3, js);
    NilParsed(b, o3 + 1, js);
    FiveParsed(b, js, JsEncoder.Int(JsDecoder.Rounded(id)), o1, JsEncoder.Str(Units(CHAT_MESSAGE)), o2,
      ShownArgs(time, Utf8.Recode(name), Utf8.Recode(text)), o3, JsEncoder.Null, o3 + 1, JsEncoder.Null, o3 + 2);
  }

  lemma WholeAt(b: seq<byte>)
    ensures At(b, 0, b)
  {
  }

  lemma OutgoingNotEmpty(time: uint32, name: JsString, text: JsString)
    ensures OutgoingBytes(time, Utf8.Encode(name), Utf8.Encode(text)) != []
  {
    hide FieldMap.EncodePairs, Utf8.Encode;
  }

  /** Other browsers show a line as it was typed exactly when utf8Read gets none of its characters wrong. */
  lemma ShownAsTyped(id: uint64, time: uint32, name: JsString, text: JsString, js: JsDecoder.Engine)
    requires Sendable(name, text)
    ensures JsDecoder.Decode(Wire.Encode(Passed(id, time, name, text)), js)
        == Some(Shown(JsDecoder.Rounded(id), time, name, text))
      <==> Utf8.Clean(name) && Utf8.Clean(text)
  {
    hide Utf8.Encode, Utf8.Recode, Utf8.Clean, Wire.Encode, JsDecoder.Decode, JsDecoder.Rounded;
    ServerToBrowser(id, time, name, text, js);
    Utf8.RecodeIsClean(name);
    Utf8.RecodeIsClean(text);
    var n := JsDecoder.Rounded(id);
    var there, here := Shown(n, time, Utf8.Recode(name), Utf8.Recode(text)), Shown(n, time, name, text);
    if there == here {
      assert there.items[2].entries[1].value == here.items[2].entries[1].value;
      assert there.items[2].entries[2].value == here.items[2].entries[2].value;
    }
  }
}
