/** What survives the way through the JavaScript encoder and decoder, for every value and every buffer. */
module JsRoundTrip {
  import opened Bytes
  import opened Utf8
  import opened JsEncoder
  import opened JsDecoder
  import Formats

  /**
   The value that comes back for v: strings and keys are recoded, -0 is 0, a buffer that is too
   long is an object without properties, and properties are assigned in turn, which may throw.
   */
  function Canon(v: Value, js: Engine): Option<Value>
    decreases v, 1
  {
    match v
    case NegativeZero => Some(Int(0))
    case Buffer(data) => Some(if |data| < LIMIT then v else EMPTY)
    case Str(s) => Some(Str(Recode(s)))
    case Array(items) => (match CanonItems(items, js) case None => None case Some(cs) => Some(Array(cs)))
    case Object(es, _) => (match CanonEntries(EMPTY, es, js) case None => None case Some(o) => Some(o))
    case _ => Some(v)
  }

  function CanonItems(items: seq<Value>, js: Engine): Option<seq<Value>>
    decreases items, 0
  {
    if items == [] then Some([])
    else match Canon(items[0], js)
      case None => None
      case Some(c) =>
        match CanonItems(items[1..], js)
        case None => None
        case Some(cs) => Some([c] + cs)
  }

  function CanonEntries(sofar: Obj, es: seq<Entry>, js: Engine): Option<Obj>
    decreases es, 0
  {
    if es == [] then Some(sofar)
    else match Canon(es[0].value, js)
      case None => None
      case Some(c) =>
        match SetProperty(sofar, Recode(es[0].key), c, js)
        case None => None
        case Some(o) => CanonEntries(o, es[1..], js)
  }

  /** An object as the map from its property names to their values. */
  function AsMap(es: seq<Entry>): map<JsString, Value> {
    if es == [] then map[] else AsMap(es[1..])[es[0].key := es[0].value]
  }

  lemma {:induction false} AssignKeys(es: seq<Entry>, key: JsString, v: Value, other: JsString)
    requires other != key && forall e :: e in es ==> e.key != other
    ensures forall e :: e in Assign(es, key, v) ==> e.key != other
    decreases |es|
  {
    if es == [] || es[0].key == key {
    } else {
      AssignKeys(es[1..], key, v, other);
    }
  }

  lemma ConsDistinct(e: Entry, es: seq<Entry>)
    requires DistinctKeys(es) && forall d :: d in es ==> d.key != e.key
    ensures DistinctKeys([e] + es)
  {
    var all := [e] + es;
    forall i, j | 0 <= i < j < |all| ensures all[i].key != all[j].key {
      assert all[j] == es[j - 1] && es[j - 1] in es;
    }
  }

  lemma TailDistinct(es: seq<Entry>)
    requires DistinctKeys(es) && es != []
    ensures DistinctKeys(es[1..]) && forall d :: d in es[1..] ==> d.key != es[0].key
  {
    forall d | d in es[1..] ensures d.key != es[0].key {
      var i :| 1 <= i < |es| && es[i] == d;
      assert es[0].key != es[i].key;
    }
  }

  /** No property name appears twice. */
  lemma {:induction false} AssignKeepsDistinct(es: seq<Entry>, key: JsString, v: Value)
    requires DistinctKeys(es)
    ensures DistinctKeys(Assign(es, key, v))
    decreases |es|
  {
    if es == [] {
    } else {
      var e, tail := es[0], es[1..];
      TailDistinct(es);
      hide DistinctKeys;
      if e.key == key {
        ConsDistinct(Entry(key, v), tail);
      } else {
        AssignKeepsDistinct(tail, key, v);
        AssignKeys(tail, key, v, e.key);
        ConsDistinct(e, Assign(tail, key, v));
      }
    }
  }

  lemma ConsMap(e: Entry, es: seq<Entry>)
    ensures AsMap([e] + es) == AsMap(es)[e.key := e.value]
  {
    assert ([e] + es)[1..] == es;
  }

  lemma UpdatesCommute(m: map<JsString, Value>, k: JsString, v: Value, l: JsString, w: Value)
    requires k != l
    ensures m[k := v][l := w] == m[l := w][k := v]
  {
  }

  /** Assign does to an object what an update does to a map. */
  lemma {:induction false} AssignUpdates(es: seq<Entry>, key: JsString, v: Value)
    ensures AsMap(Assign(es, key, v)) == AsMap(es)[key := v]
    decreases |es|
  {
    if es == [] {
    } else {
      hide AsMap;
      var e, tail := es[0], es[1..];
      assert es == [e] + tail;
      ConsMap(e, tail);
      if e.key == key {
        ConsMap(Entry(key, v), tail);
      } else {
        AssignUpdates(tail, key, v);
        ConsMap(e, Assign(tail, key, v));
        UpdatesCommute(AsMap(tail), key, v, e.key, e.value);
      }
    }
  }

  /** A plain object gets a property for every name but __proto__, whichever values it has already. */
  lemma PlainProperty(es: seq<Entry>, key: JsString, v: Value, js: Engine)
    requires key != PROTO
    ensures SetProperty(Object(es, Plain), key, v, js) == Some(Object(Assign(es, key, v), Plain))
  {
  }

  /** __proto__ never becomes a property of a plain object that has none of that name. */
  lemma PlainProto(es: seq<Entry>, v: Value, js: Engine)
    requires !HasKey(es, PROTO)
    ensures SetProperty(Object(es, Plain), PROTO, v, js) == Some(Object(es, NewProto(Plain, v)))
  {
  }

  /** The entries of the plain objects on a prototype chain, nearest first. */
  function Chain(proto: Proto): seq<seq<Entry>> {
    match proto
    case From(Object(es, next)) => [es] + Chain(next)
    case _ => []
  }

  /** Where the chain of plain objects ends: at Object.prototype, at null, at an array or at a buffer. */
  function End(proto: Proto): Proto {
    match proto
    case From(Object(_, next)) => End(next)
    case _ => proto
  }

  /** Some object in the chain has the property, so it can be assigned to the object itself. */
  predicate OnChain(proto: Proto, key: JsString) {
    exists i :: 0 <= i < |Chain(proto)| && exists e :: e in Chain(proto)[i] && e.key == key
  }

  lemma {:induction false} ChainDecides(proto: Proto, key: JsString, js: Engine)
    ensures Inherited(proto, key, js) ==
      if OnChain(proto, key) || End(proto).Nothing? then OwnProperty
      else if End(proto).From? && End(proto).value.Buffer? && key in js.readOnly then Throws
      else if key == PROTO then SetsPrototype
      else OwnProperty
    decreases proto
  {
    match proto
    case From(Object(es, next)) =>
      ChainDecides(next, key, js);
      var chain := Chain(proto);
      assert chain == [es] + Chain(next);
      assert forall i :: 0 <= i < |Chain(next)| ==> chain[i + 1] == Chain(next)[i];
      assert forall i :: 1 <= i < |chain| ==> chain[i] == Chain(next)[i - 1];
      assert chain[0] == es;
    case _ =>
  }

  /**
   What an assignment comes to. It throws for a getter of ArrayBuffer.prototype, if nothing nearer has the
   property. It sets the prototype for the name __proto__, if neither the object nor anything nearer than
   Object.prototype has such a property: an object, array or buffer becomes the prototype, null leaves the
   object without one, and anything else is ignored. In every other case the object has the property afterwards.
   */
  lemma AssignmentExactly(o: Obj, key: JsString, v: Value, js: Engine)
    ensures var hidden := HasKey(o.entries, key) || OnChain(o.proto, key) || End(o.proto).Nothing?;
      var getter := End(o.proto).From? && End(o.proto).value.Buffer? && key in js.readOnly;
      var r := SetProperty(o, key, v, js);
      && (r == None <==> !hidden && getter)
      && (!hidden && !getter && key == PROTO ==> r == Some(Object(o.entries,
           if v.Object? || v.Array? || v.Buffer? then From(v) else if v.Null? then Nothing else o.proto)))
      && (hidden || (!getter && key != PROTO) ==> r == Some(Object(Assign(o.entries, key, v), o.proto)))
  {
    hide Inherited;
    ChainDecides(o.proto, key, js);
  }

  // ---- heads -----------------------------------------------------------------------

  lemma NumberAt(b: seq<byte>, off: nat, tag: byte, n: nat, width: nat)
    requires width in {1, 2, 4}
    requires width == 1 ==> n < 0x100 && At(b, off, [tag, n])
    requires width == 2 ==> n < 0x1_0000 && At(b, off, [tag] + Be16(n))
    requires width == 4 ==> n < LIMIT && At(b, off, [tag] + Be32(n))
    ensures off + width < |b| && b[off] == tag && Number(b, off, width) == Some(n)
  {
    var piece := if width == 1 then [n] else if width == 2 then Be16(n) else Be32(n);
    if width == 1 { assert [tag, n] == [tag] + [n]; }
    AtConcat(b, off, [tag], piece);
    assert b[off] == b[off..off + 1][0];
    if width == 1 {
      assert b[off + 1] == b[off + 1..off + 2][0];
    } else if width == 2 {
      ReadBe16(n, b, off + 1);
    } else {
      ReadBe32(n, b, off + 1);
    }
  }

  lemma FirstByte(b: seq<byte>, off: nat, x: byte)
    requires At(b, off, [x])
    ensures off < |b| && b[off] == x
  {
    assert b[off] == b[off..off + 1][0];
  }

  lemma StrHead(b: seq<byte>, off: nat, n: nat)
    requires n < LIMIT && At(b, off, StrHeader(n))
    ensures HeadAt(b, off) == Some(Sized(StrKind, |StrHeader(n)|, n))
  {
    if n < 0x20 {
      FirstByte(b, off, n + 0xa0);
    } else if n < 0x100 {
      NumberAt(b, off, 0xd9, n, 1);
    } else if n < 0x1_0000 {
      NumberAt(b, off, 0xda, n, 2);
    } else {
      NumberAt(b, off, 0xdb, n, 4);
    }
  }

  lemma BinHead(b: seq<byte>, off: nat, n: nat)
    requires n < LIMIT && At(b, off, BinHeader(n))
    ensures HeadAt(b, off) == Some(Sized(BinKind, |BinHeader(n)|, n))
  {
    if n < 0x100 {
      NumberAt(b, off, 0xc4, n, 1);
    } else if n < 0x1_0000 {
      NumberAt(b, off, 0xc5, n, 2);
    } else {
      NumberAt(b, off, 0xc6, n, 4);
    }
  }

  lemma ContainerHead(b: seq<byte>, off: nat, n: nat, isArray: bool)
    requires n < LIMIT && At(b, off, ContainerHeader(n, isArray))
    ensures HeadAt(b, off) == Some(Sized(if isArray then ArrayKind else MapKind, |ContainerHeader(n, isArray)|, n))
  {
    if n < 0x10 {
      FirstByte(b, off, n + if isArray then 0x90 else 0x80);
    } else if n < 0x1_0000 {
      NumberAt(b, off, if isArray then 0xdc else 0xde, n, 2);
    } else {
      NumberAt(b, off, if isArray then 0xdd else 0xdf, n, 4);
    }
  }

  lemma IntHead(b: seq<byte>, off: nat, n: int)
    requires -0x8000_0000 <= n < LIMIT && At(b, off, PackedInt(n))
    ensures HeadAt(b, off) == Some(Scalar(Int(n), |PackedInt(n)|))
  {
    if -0x20 <= n < 0x80 {
      FirstByte(b, off, if n < 0 then n + 0x100 else n);
    } else if 0 <= n < 0x100 {
      NumberAt(b, off, 0xcc, n, 1);
    } else if 0 <= n < 0x1_0000 {
      NumberAt(b, off, 0xcd, n, 2);
    } else if 0 <= n {
      NumberAt(b, off, 0xce, n, 4);
    } else if -0x80 <= n {
      NumberAt(b, off, 0xd0, n + 0x100, 1);
    } else if -0x8000 <= n {
      NumberAt(b, off, 0xd1, n + 0x1_0000, 2);
    } else {
      NumberAt(b, off, 0xd2, n + LIMIT, 4);
    }
  }

  /** n in the given number of bytes, a negative one as its two's complement. */
  function BigEndian(n: int, width: nat): (r: seq<byte>)
    requires width in {1, 2, 4, 8} && -Half(width) <= n < 2 * Half(width)
    ensures |r| == width
  {
    var u := if n < 0 then n + 2 * Half(width) else n;
    match width
    case 1 => [u]
    case 2 => Be16(u)
    case 4 => Be32(u)
    case _ => Be64(u)
  }

  /** Half of how many numbers fit into the given number of bytes. */
  function Half(width: nat): int {
    match width
    case 1 => 0x80
    case 2 => 0x8000
    case 4 => 0x8000_0000
    case _ => 0x8000_0000_0000_0000
  }

  lemma BigEndianAt(b: seq<byte>, off: nat, tag: byte, n: int, width: nat)
    requires width in {1, 2, 4, 8} && -Half(width) <= n < 2 * Half(width)
    requires At(b, off, [tag] + BigEndian(n, width))
    ensures off + width < |b| && b[off] == tag
    ensures Number(b, off, width) == Some(if n < 0 then n + 2 * Half(width) else n)
  {
    AtConcat(b, off, [tag], BigEndian(n, width));
    FirstByte(b, off, tag);
    hide At;
    var u := if n < 0 then n + 2 * Half(width) else n;
    match width
    case 1 => FirstByte(b, off + 1, u);
    case 2 => ReadBe16(u, b, off + 1);
    case 4 => ReadBe32(u, b, off + 1);
    case _ => ReadBe64(u, b, off + 1);
  }

  /** All eight integer formats, not only those that encode writes, are read as the double next to their number. */
  lemma AnyInteger(b: seq<byte>, off: nat, n: int, width: nat, signed: bool)
    requires width in {1, 2, 4, 8}
    requires if signed then -Half(width) <= n < Half(width) else 0 <= n < 2 * Half(width)
    requires var order := match width case 1 => 0 case 2 => 1 case 4 => 2 case _ => 3;
      At(b, off, [(if signed then 0xd0 else 0xcc) + order] + BigEndian(n, width))
    ensures HeadAt(b, off) == Some(Scalar(Int(Rounded(n)), 1 + width))
  {
    var order := match width case 1 => 0 case 2 => 1 case 4 => 2 case _ => 3;
    BigEndianAt(b, off, (if signed then 0xd0 else 0xcc) + order, n, width);
    hide At, BigEndian, Number;
  }

  /** Whatever bytes are read as n, PackedInt(n) is no longer. */
  lemma ShortestInteger(n: int, b: seq<byte>)
    requires -0x8000_0000 <= n < 0x8000_0000
    requires HeadAt(b, 0) == Some(Scalar(Int(n), |b|))
    ensures |PackedInt(n)| <= |b|
  {
    hide NumberOf;
  }

  lemma ByteHead(b: seq<byte>, off: nat, v: Value)
    requires v.Null? || v.Bool? || v.NegativeZero?
    requires At(b, off, Packed(v))
    ensures HeadAt(b, off) == Some(Scalar(if v.NegativeZero? then Int(0) else v, 1))
  {
    FirstByte(b, off, Packed(v)[0]);
  }

  lemma DoubleHead(b: seq<byte>, off: nat, bits: seq<byte>)
    requires Representable(Double(bits)) && At(b, off, [0xcb] + bits)
    ensures HeadAt(b, off) == Some(Scalar(Double(bits), 9))
  {
    AtConcat(b, off, [0xcb], bits);
    FirstByte(b, off, 0xcb);
  }

  lemma UndefinedHead(b: seq<byte>, off: nat)
    requires At(b, off, [0xd4, 0, 0])
    ensures HeadAt(b, off) == Some(Scalar(Undefined, 3))
  {
    assert b[off] == b[off..off + 3][0] && b[off + 1] == b[off..off + 3][1];
  }

  // ---- the round trip --------------------------------------------------------------

  /** What parse gives for a value that ends at end, None if an assignment has thrown. */
  function Back<T>(v: Option<T>, end: nat): Option<(T, nat)> {
    match v
    case None => None
    case Some(x) => Some((x, end))
  }

  lemma StrBack(b: seq<byte>, off: nat, s: JsString, js: Engine)
    requires |Utf8.Encode(s)| < LIMIT && At(b, off, PackedStr(s))
    ensures ParseAt(b, off, js) == Some((Str(Recode(s)), off + |PackedStr(s)|))
  {
    hide StrHeader, HeadAt, Recode, Utf8.Encode;
    var header := StrHeader(|Utf8.Encode(s)|);
    AtConcat(b, off, header, Utf8.Encode(s));
    StrHead(b, off, |Utf8.Encode(s)|);
    ReadBack(b, off + |header|, s);
  }

  lemma BufferBack(b: seq<byte>, off: nat, data: seq<byte>, js: Engine)
    requires At(b, off, PackedBuffer(data))
    ensures ParseAt(b, off, js) == Some((Canon(Buffer(data), js).value, off + |PackedBuffer(data)|))
  {
    if |data| < LIMIT {
      SmallBufferBack(b, off, data, js);
    } else {
      FirstByte(b, off, 0x80);
    }
  }

  lemma SmallBufferBack(b: seq<byte>, off: nat, data: seq<byte>, js: Engine)
    requires |data| < LIMIT && At(b, off, BinHeader(|data|) + data)
    ensures ParseAt(b, off, js) == Some((Buffer(data), off + |BinHeader(|data|) + data|))
  {
    hide BinHeader, HeadAt;
    AtConcat(b, off, BinHeader(|data|), data);
    BinHead(b, off, |data|);
  }

  lemma ScalarBack(b: seq<byte>, off: nat, v: Value, js: Engine)
    requires Representable(v) && At(b, off, Packed(v))
    requires !(v.Str? || v.Buffer? || v.Array? || v.Object?)
    ensures ParseAt(b, off, js) == Back(Canon(v, js), off + |Packed(v)|)
  {
    hide HeadAt, At, PackedInt;
    match v
    case Undefined => UndefinedHead(b, off);
    case Int(n) => IntHead(b, off, n);
    case Double(bits) => DoubleHead(b, off, bits);
    case Null => ByteHead(b, off, v);
    case Bool(_) => ByteHead(b, off, v);
    case NegativeZero => ByteHead(b, off, v);
    case Float(_) =>
  }

  lemma LeafBack(b: seq<byte>, off: nat, v: Value, js: Engine)
    requires Representable(v) && Encodable(v) && At(b, off, Packed(v)) && !v.Array? && !v.Object?
    ensures ParseAt(b, off, js) == Back(Canon(v, js), off + |Packed(v)|)
  {
    hide At, ParseAt, PackedBuffer, PackedStr, Recode;
    if v.Str? {
      StrBack(b, off, v.s, js);
    } else if v.Buffer? {
      BufferBack(b, off, v.data, js);
    } else {
      ScalarBack(b, off, v, js);
    }
  }

  lemma ArrayStart(b: seq<byte>, off: nat, items: seq<Value>, js: Engine)
    requires |items| < LIMIT && At(b, off, Packed(Array(items)))
    ensures var start := off + |ContainerHeader(|items|, true)|;
      && At(b, start, PackedItems(items))
      && start <= |b|
      && ParseAt(b, off, js) == match ParseItems(b, start, |items|, js, [])
        case None => None
        case Some((vs, end)) => Some((Array(vs), end))
  {
    hide HeadAt, ContainerHeader, PackedItems, ParseItems;
    AtConcat(b, off, ContainerHeader(|items|, true), PackedItems(items));
    ContainerHead(b, off, |items|, true);
  }

  lemma ObjectStart(b: seq<byte>, off: nat, es: seq<Entry>, js: Engine)
    requires |es| < LIMIT && At(b, off, Packed(Object(es, Plain)))
    ensures var start := off + |ContainerHeader(|es|, false)|;
      && At(b, start, PackedEntries(es))
      && start <= |b|
      && ParseAt(b, off, js) == match ParseEntries(b, start, |es|, js, EMPTY)
        case None => None
        case Some((o, end)) => Some((o, end))
  {
    hide HeadAt, ContainerHeader, PackedEntries, ParseEntries;
    AtConcat(b, off, ContainerHeader(|es|, false), PackedEntries(es));
    ContainerHead(b, off, |es|, false);
  }

  lemma EntriesStep(b: seq<byte>, off: nat, n: nat, js: Engine, sofar: Obj, e: Entry, mid: nat, end: nat)
    requires n > 0 && off <= |b| + 1
    requires ParseAt(b, off, js) == Some((Str(e.key), mid))
    requires ParseAt(b, mid, js) == Some((e.value, end))
    ensures end <= |b| + 1
    ensures ParseEntries(b, off, n, js, sofar) == match SetProperty(sofar, e.key, e.value, js)
      case None => None
      case Some(o) => ParseEntries(b, end, n - 1, js, o)
  {
    hide ParseAt, SetProperty;
  }

  lemma EntriesFail(b: seq<byte>, off: nat, n: nat, js: Engine, sofar: Obj, key: JsString, mid: nat)
    requires n > 0 && off <= |b| + 1
    requires ParseAt(b, off, js) == Some((Str(key), mid)) && ParseAt(b, mid, js) == None
    ensures ParseEntries(b, off, n, js, sofar) == None
  {
    hide ParseAt, SetProperty;
  }

  lemma EntriesEnd(b: seq<byte>, off: nat, js: Engine, sofar: Obj)
    requires off <= |b| + 1
    ensures ParseEntries(b, off, 0, js, sofar) == Some((sofar, off))
  {
  }

  lemma ItemsStep(b: seq<byte>, off: nat, n: nat, js: Engine, sofar: seq<Value>, v: Value, next: nat)
    requires n > 0 && off <= |b| + 1 && ParseAt(b, off, js) == Some((v, next))
    ensures next <= |b| + 1
    ensures ParseItems(b, off, n, js, sofar) == ParseItems(b, next, n - 1, js, sofar + [v])
  {
    hide ParseAt;
  }

  lemma ItemsFail(b: seq<byte>, off: nat, n: nat, js: Engine, sofar: seq<Value>)
    requires n > 0 && off <= |b| + 1 && ParseAt(b, off, js) == None
    ensures ParseItems(b, off, n, js, sofar) == None
  {
    hide ParseAt;
  }

  lemma ItemsEnd(b: seq<byte>, off: nat, js: Engine, sofar: seq<Value>)
    requires off <= |b| + 1
    ensures ParseItems(b, off, 0, js, sofar) == Some((sofar, off))
  {
  }

  lemma CanonOfObject(es: seq<Entry>, js: Engine)
    ensures Canon(Object(es, Plain), js) == match CanonEntries(EMPTY, es, js) case None => None case Some(o) => Some(o)
  {
  }

  lemma CanonOfArray(items: seq<Value>, js: Engine)
    ensures Canon(Array(items), js) == match CanonItems(items, js) case None => None case Some(cs) => Some(Array(cs))
  {
  }

  /**
   Parsing at an encoding of v gives Canon(v) and moves on by its length, whatever stands before and
   behind it, or throws if there is none.
   */
  lemma {:induction false} RoundTrip(b: seq<byte>, off: nat, v: Value, js: Engine)
    requires Representable(v) && Encodable(v) && At(b, off, Packed(v))
    ensures ParseAt(b, off, js) == Back(Canon(v, js), off + |Packed(v)|)
    decreases v, 1
  {
    hide At, ParseAt, Canon, Packed, Representable, Encodable;
    if v.Array? {
      ArrayBack(b, off, v.items, js);
    } else if v.Object? {
      assert v == Object(v.entries, Plain) by { PlainOnly(v); }
      ObjectBack(b, off, v.entries, js);
    } else {
      LeafBack(b, off, v, js);
    }
  }

  lemma PlainOnly(v: Value)
    requires Representable(v) && v.Object?
    ensures v.proto == Plain
  {
  }

  lemma {:induction false} ArrayBack(b: seq<byte>, off: nat, items: seq<Value>, js: Engine)
    requires Representable(Array(items)) && Encodable(Array(items)) && At(b, off, Packed(Array(items)))
    ensures ParseAt(b, off, js) == Back(Canon(Array(items), js), off + |Packed(Array(items))|)
    decreases items, 1
  {
    CanonOfArray(items, js);
    hide HeadAt, At, ContainerHeader, ParseAt, ParseItems, PackedItems, Canon, CanonItems;
    ArrayStart(b, off, items, js);
    ItemsRoundTrip(b, off + |ContainerHeader(|items|, true)|, items, js, []);
    NothingBefore(CanonItems(items, js));
  }

  lemma {:induction false} ObjectBack(b: seq<byte>, off: nat, es: seq<Entry>, js: Engine)
    requires Representable(Object(es, Plain)) && Encodable(Object(es, Plain)) && At(b, off, Packed(Object(es, Plain)))
    ensures ParseAt(b, off, js) == Back(Canon(Object(es, Plain), js), off + |Packed(Object(es, Plain))|)
    decreases es, 1
  {
    CanonOfObject(es, js);
    hide HeadAt, At, ContainerHeader, ParseAt, ParseEntries, PackedEntries, Canon, CanonEntries, DistinctKeys;
    ObjectStart(b, off, es, js);
    EntriesRoundTrip(b, off + |ContainerHeader(|es|, false)|, es, js, EMPTY);
  }

  function Behind(sofar: seq<Value>, items: Option<seq<Value>>): Option<seq<Value>> {
    match items
    case None => None
    case Some(cs) => Some(sofar + cs)
  }

  lemma NothingBefore(items: Option<seq<Value>>)
    ensures Behind([], items) == items
  {
    if items.Some? { assert [] + items.value == items.value; }
  }

  lemma {:induction false} ItemsRoundTrip(b: seq<byte>, off: nat, items: seq<Value>, js: Engine, sofar: seq<Value>)
    requires forall i :: 0 <= i < |items| ==> Representable(items[i]) && Encodable(items[i])
    requires off <= |b| + 1 && At(b, off, PackedItems(items))
    ensures ParseItems(b, off, |items|, js, sofar)
      == Back(Behind(sofar, CanonItems(items, js)), off + |PackedItems(items)|)
    decreases items, 0
  {
    hide HeadAt, ParseItems, ParseAt, At, Packed, PackedItems, Canon, CanonItems, Behind, Representable, Encodable;
    if items == [] {
      NoItems(sofar, js);
      ItemsEnd(b, off, js, sofar);
    } else {
      FirstItem(items, sofar, js);
      AtConcat(b, off, Packed(items[0]), PackedItems(items[1..]));
      RoundTrip(b, off, items[0], js);
      var c := Canon(items[0], js);
      if c == None {
        ItemsFail(b, off, |items|, js, sofar);
      } else {
        ItemsStep(b, off, |items|, js, sofar, c.value, off + |Packed(items[0])|);
        ItemsRoundTrip(b, off + |Packed(items[0])|, items[1..], js, sofar + [c.value]);
      }
    }
  }

  lemma NoItems(sofar: seq<Value>, js: Engine)
    ensures PackedItems([]) == [] && Behind(sofar, CanonItems([], js)) == Some(sofar)
  {
    assert sofar + [] == sofar;
  }

  lemma FirstItem(items: seq<Value>, sofar: seq<Value>, js: Engine)
    requires items != []
    ensures PackedItems(items) == Packed(items[0]) + PackedItems(items[1..])
    ensures Behind(sofar, CanonItems(items, js)) == match Canon(items[0], js)
      case None => None
      case Some(c) => Behind(sofar + [c], CanonItems(items[1..], js))
  {
    hide Packed, Canon;
    var c, cs := Canon(items[0], js), CanonItems(items[1..], js);
    if c.Some? && cs.Some? {
      assert sofar + ([c.value] + cs.value) == sofar + [c.value] + cs.value;
    }
  }

  lemma {:induction false} EntriesRoundTrip(b: seq<byte>, off: nat, es: seq<Entry>, js: Engine, sofar: Obj)
    requires forall i :: 0 <= i < |es| ==>
      Representable(es[i].value) && |Utf8.Encode(es[i].key)| < LIMIT && Encodable(es[i].value)
    requires off <= |b| + 1 && At(b, off, PackedEntries(es))
    ensures ParseEntries(b, off, |es|, js, sofar) == Back(CanonEntries(sofar, es, js), off + |PackedEntries(es)|)
    decreases es, 0
  {
    hide HeadAt, ParseEntries, ParseAt, At, PackedEntry, PackedStr, Canon, Representable, Encodable;
    hide SetProperty, Recode;
    if es == [] {
      EntriesEnd(b, off, js, sofar);
    } else {
      var e := es[0];
      AtConcat(b, off, PackedEntry(e), PackedEntries(es[1..]));
      EntryBack(b, off, e, js);
      var mid, end := off + |PackedStr(e.key)|, off + |PackedEntry(e)|;
      var c := Canon(e.value, js);
      if c == None {
        EntriesFail(b, off, |es|, js, sofar, Recode(e.key), mid);
      } else {
        EntriesStep(b, off, |es|, js, sofar, Entry(Recode(e.key), c.value), mid, end);
        var o := SetProperty(sofar, Recode(e.key), c.value, js);
        if o.Some? {
          EntriesRoundTrip(b, end, es[1..], js, o.value);
        }
      }
    }
  }

  lemma {:induction false} EntryBack(b: seq<byte>, off: nat, e: Entry, js: Engine)
    requires Representable(e.value) && |Utf8.Encode(e.key)| < LIMIT && Encodable(e.value)
    requires At(b, off, PackedEntry(e))
    ensures ParseAt(b, off, js) == Some((Str(Recode(e.key)), off + |PackedStr(e.key)|))
    ensures ParseAt(b, off + |PackedStr(e.key)|, js) == Back(Canon(e.value, js), off + |PackedEntry(e)|)
    decreases e, 0
  {
    hide HeadAt, ParseAt, At, Packed, PackedStr, Canon, Representable, Encodable;
    AtConcat(b, off, PackedStr(e.key), Packed(e.value));
    StrBack(b, off, e.key, js);
    RoundTrip(b, off + |PackedStr(e.key)|, e.value, js);
  }

  /** decode undoes encode up to Canon, for every value that encode accepts, and throws where there is none. */
  lemma DecodeOfEncode(v: Value, js: Engine)
    requires Representable(v) && Encodable(v)
    ensures JsDecoder.Decode(Packed(v), js) == Canon(v, js)
  {
    hide Canon, Packed, ParseAt, Representable, Encodable;
    assert At(Packed(v), 0, Packed(v));
    RoundTrip(Packed(v), 0, v, js);
  }

  // ---- which values survive ---------------------------------------------------------

  /**
   No -0 and no buffer of 4 GiB or more anywhere, no string or key with a unit that utf8Read gets
   wrong, and no key __proto__.
   */
  predicate Survives(v: Value)
    decreases v
  {
    match v
    case NegativeZero => false
    case Buffer(data) => |data| < LIMIT
    case Str(s) => Clean(s)
    case Array(items) => forall i :: 0 <= i < |items| ==> Survives(items[i])
    case Object(es, _) =>
      forall i :: 0 <= i < |es| ==> Clean(es[i].key) && es[i].key != PROTO && Survives(es[i].value)
    case _ => true
  }

  lemma {:induction false} AssignNew(es: seq<Entry>, key: JsString, v: Value)
    requires !HasKey(es, key)
    ensures Assign(es, key, v) == es + [Entry(key, v)]
    decreases |es|
  {
    if es == [] {
    } else {
      assert es[0] in es;
      AssignNew(es[1..], key, v);
    }
  }

  lemma {:induction false} CanonOfSurvivor(v: Value, js: Engine)
    requires Representable(v) && Survives(v)
    ensures Canon(v, js) == Some(v)
    decreases v, 1
  {
    match v
    case Str(s) => RecodeIsClean(s);
    case Array(items) => CanonOfItems(items, js);
    case Object(es, _) =>
      CanonOfEntries([], es, js);
      assert [] + es == es;
    case _ =>
  }

  lemma {:induction false} CanonOfItems(items: seq<Value>, js: Engine)
    requires forall i :: 0 <= i < |items| ==> Representable(items[i]) && Survives(items[i])
    ensures CanonItems(items, js) == Some(items)
    decreases items, 0
  {
    if items == [] {
    } else {
      CanonOfSurvivor(items[0], js);
      CanonOfItems(items[1..], js);
      assert [items[0]] + items[1..] == items;
    }
  }

  lemma NextIsNew(sofar: seq<Entry>, es: seq<Entry>)
    requires es != [] && DistinctKeys(sofar + es)
    ensures !HasKey(sofar, es[0].key)
    ensures sofar + [es[0]] + es[1..] == sofar + es
  {
    forall e | e in sofar ensures e.key != es[0].key {
      var i :| 0 <= i < |sofar| && sofar[i] == e;
      assert (sofar + es)[i] == e && (sofar + es)[|sofar|] == es[0];
    }
  }

  lemma {:induction false} CanonOfEntries(sofar: seq<Entry>, es: seq<Entry>, js: Engine)
    requires DistinctKeys(sofar + es)
    requires forall i :: 0 <= i < |es| ==>
      Representable(es[i].value) && Clean(es[i].key) && es[i].key != PROTO && Survives(es[i].value)
    ensures CanonEntries(Object(sofar, Plain), es, js) == Some(Object(sofar + es, Plain))
    decreases es, 0
  {
    hide Canon, SetProperty, DistinctKeys, Survives, Representable, Clean, Recode, HasKey;
    if es == [] {
      assert sofar + es == sofar;
    } else {
      var e := es[0];
      RecodeIsClean(e.key);
      CanonOfSurvivor(e.value, js);
      NextIsNew(sofar, es);
      AssignNew(sofar, e.key, e.value);
      PlainProperty(sofar, e.key, e.value, js);
      CanonOfEntries(sofar + [e], es[1..], js);
    }
  }

  // The other way round: what comes back the same had nothing in it that gets lost.

  lemma {:induction false} AssignClean(es: seq<Entry>, key: JsString, v: Value)
    requires Clean(key) && forall e :: e in es ==> Clean(e.key)
    ensures forall e :: e in Assign(es, key, v) ==> Clean(e.key)
    decreases |es|
  {
    if es == [] || es[0].key == key {
    } else {
      AssignClean(es[1..], key, v);
    }
  }

  /** All keys of what comes back are recoded ones. */
  lemma {:induction false} CanonKeysClean(sofar: Obj, es: seq<Entry>, js: Engine)
    requires forall e :: e in sofar.entries ==> Clean(e.key)
    ensures CanonEntries(sofar, es, js).Some? ==>
      forall e :: e in CanonEntries(sofar, es, js).value.entries ==> Clean(e.key)
    decreases |es|
  {
    hide Canon, Inherited, Clean, Recode, NewProto;
    if es == [] {
    } else {
      RecodeIsClean(es[0].key);
      var c := Canon(es[0].value, js);
      if c.Some? {
        AssignClean(sofar.entries, Recode(es[0].key), c.value);
        var o := SetProperty(sofar, Recode(es[0].key), c.value, js);
        if o.Some? {
          CanonKeysClean(o.value, es[1..], js);
        }
      }
    }
  }

  /** Entries with new keys leave the earlier ones alone, and each adds one at most. */
  lemma {:induction false} CanonAppends(sofar: Obj, es: seq<Entry>, js: Engine)
    requires DistinctKeys(sofar.entries + es) && forall i :: 0 <= i < |es| ==> Clean(es[i].key)
    ensures CanonEntries(sofar, es, js).Some? ==>
      var after := CanonEntries(sofar, es, js).value.entries;
      sofar.entries <= after && |after| <= |sofar.entries| + |es|
    decreases |es|
  {
    hide Canon, Inherited, Clean, Recode, NewProto, DistinctKeys, HasKey;
    if es == [] {
    } else {
      var e := es[0];
      RecodeIsClean(e.key);
      NextIsNew(sofar.entries, es);
      var c := Canon(e.value, js);
      if c.Some? {
        AssignNew(sofar.entries, e.key, c.value);
        DistinctWithout(sofar.entries, es, c.value);
        var o := SetProperty(sofar, e.key, c.value, js);
        if o.Some? {
          CanonAppends(o.value, es[1..], js);
        }
      }
    }
  }

  lemma DistinctWithout(sofar: seq<Entry>, es: seq<Entry>, v: Value)
    requires es != [] && DistinctKeys(sofar + es)
    ensures DistinctKeys(sofar + es[1..]) && DistinctKeys(sofar + [Entry(es[0].key, v)] + es[1..])
  {
    var all, fewer, other := sofar + es, sofar + es[1..], sofar + [Entry(es[0].key, v)] + es[1..];
    forall i, j | 0 <= i < j < |fewer| ensures fewer[i].key != fewer[j].key {
      var k, l := if i < |sofar| then i else i + 1, if j < |sofar| then j else j + 1;
      assert fewer[i] == all[k] && fewer[j] == all[l];
    }
    forall i, j | 0 <= i < j < |other| ensures other[i].key != other[j].key {
      assert other[i].key == all[i].key && other[j].key == all[j].key;
    }
  }

  lemma {:induction false} SameEntries(sofar: seq<Entry>, es: seq<Entry>, js: Engine)
    requires DistinctKeys(sofar + es) && forall i :: 0 <= i < |es| ==> Clean(es[i].key)
    requires CanonEntries(Object(sofar, Plain), es, js).Some?
    requires CanonEntries(Object(sofar, Plain), es, js).value.entries == sofar + es
    ensures forall i :: 0 <= i < |es| ==> es[i].key != PROTO && Canon(es[i].value, js) == Some(es[i].value)
    decreases |es|
  {
    hide Canon, SetProperty, Clean, Recode, DistinctKeys, HasKey;
    if es == [] {
    } else {
      var e, c := es[0], Canon(es[0].value, js).value;
      RecodeIsClean(e.key);
      NextIsNew(sofar, es);
      AssignNew(sofar, e.key, c);
      DistinctWithout(sofar, es, c);
      if e.key == PROTO {
        PlainProto(sofar, c, js);
        CanonAppends(Object(sofar, NewProto(Plain, c)), es[1..], js);
        assert false;
      } else {
        PlainProperty(sofar, e.key, c, js);
        CanonAppends(Object(sofar + [Entry(e.key, c)], Plain), es[1..], js);
        assert (sofar + es)[|sofar|] == Entry(e.key, c);
        SameEntries(sofar + [e], es[1..], js);
      }
    }
  }

  lemma {:induction false} SameItems(items: seq<Value>, js: Engine)
    requires CanonItems(items, js) == Some(items)
    ensures forall i :: 0 <= i < |items| ==> Canon(items[i], js) == Some(items[i])
    decreases |items|
  {
    hide Canon;
    if items == [] {
    } else {
      SameItems(items[1..], js);
    }
  }

  lemma {:induction false} SurvivesIfSame(v: Value, js: Engine)
    requires Representable(v) && Canon(v, js) == Some(v)
    ensures Survives(v)
    decreases v
  {
    hide Clean, Recode, CanonEntries, CanonItems, DistinctKeys, IntegerOf;
    match v
    case Str(s) => RecodeIsClean(s);
    case Array(items) =>
      SameItems(items, js);
      forall i | 0 <= i < |items| ensures Survives(items[i]) {
        SurvivesIfSame(items[i], js);
      }
    case Object(es, _) =>
      CanonKeysClean(EMPTY, es, js);
      assert [] + es == es && forall i :: 0 <= i < |es| ==> es[i] in es;
      SameEntries([], es, js);
      forall i | 0 <= i < |es| ensures Survives(es[i].value) {
        SurvivesIfSame(es[i].value, js);
      }
    case _ =>
  }

  /** A value comes back as itself exactly when it survives. */
  lemma ComesBackExactly(v: Value, js: Engine)
    requires Representable(v) && Encodable(v)
    ensures JsDecoder.Decode(Packed(v), js) == Some(v) <==> Survives(v)
  {
    hide Canon, Survives, Representable, Encodable;
    DecodeOfEncode(v, js);
    if Survives(v) {
      CanonOfSurvivor(v, js);
    }
    if Canon(v, js) == Some(v) {
      SurvivesIfSame(v, js);
    }
  }

  /** -0 is one that does not: it comes back as 0. */
  lemma NegativeZeroIsLost(js: Engine)
    ensures JsDecoder.Decode(Packed(NegativeZero), js) == Some(Int(0))
  {
    DecodeOfEncode(NegativeZero, js);
  }

  /** And so is a buffer of 4 GiB: it comes back as an object without properties. */
  lemma HugeBufferIsLost(data: seq<byte>, js: Engine)
    requires LIMIT <= |data|
    ensures Packed(Buffer(data)) == [0x80]
    ensures JsDecoder.Decode(Packed(Buffer(data)), js) == Some(EMPTY)
  {
    DecodeOfEncode(Buffer(data), js);
  }

  lemma ProtoIsClean()
    ensures Recode(PROTO) == PROTO && |Utf8.Encode(PROTO)| < LIMIT
  {
    hide Recode, Utf8.Encode;
    RecodeIsClean(PROTO);
    EncodedLength(PROTO);
  }

  lemma {:induction false} EncodedLength(s: JsString)
    ensures |Utf8.Encode(s)| <= 3 * |s|
    decreases |s|
  {
    hide UnitBytes;
    if s == [] {
    } else {
      EncodedLength(s[1..]);
    }
  }

  /** And an object with a property __proto__, as JSON.parse makes one: that property does not come back. */
  lemma ProtoIsLost(v: Value, js: Engine)
    requires Representable(v) && Encodable(v)
    ensures JsDecoder.Decode(Packed(Object([Entry(PROTO, v)], Plain)), js) == match Canon(v, js)
      case None => None
      case Some(c) => Some(Object([], NewProto(Plain, c)))
  {
    hide Canon, Representable, Encodable;
    var es := [Entry(PROTO, v)];
    ProtoIsClean();
    OneEntry(es[0]);
    DecodeOfEncode(Object(es, Plain), js);
    CanonOfOne(es[0], js);
    if Canon(v, js).Some? {
      PlainProto([], Canon(v, js).value, js);
    }
  }

  lemma OneEntry(e: Entry)
    requires Representable(e.value) && Encodable(e.value) && |Utf8.Encode(e.key)| < LIMIT
    ensures Representable(Object([e], Plain)) && Encodable(Object([e], Plain))
  {
  }

  lemma CanonOfOne(e: Entry, js: Engine)
    ensures Canon(Object([e], Plain), js) == match Canon(e.value, js)
      case None => None
      case Some(c) => (match SetProperty(EMPTY, Recode(e.key), c, js) case None => None case Some(o) => Some(o))
  {
    hide Canon, SetProperty, Recode;
    CanonOfObject([e], js);
    assert [e][1..] == [];
    var c := Canon(e.value, js);
    if c.Some? {
      var o := SetProperty(EMPTY, Recode(e.key), c.value, js);
      assert o.Some? ==> CanonEntries(o.value, [], js) == o;
    }
  }

  /** A buffer for __proto__ even makes decode throw where a property follows that buffers can only be asked for. */
  lemma BufferForProtoThrows(data: seq<byte>, key: JsString, v: Value, js: Engine)
    requires |data| < LIMIT && Representable(v) && Encodable(v) && |Utf8.Encode(key)| < LIMIT
    requires Clean(key) && key != PROTO && key in js.readOnly
    ensures JsDecoder.Decode(Packed(Object([Entry(PROTO, Buffer(data)), Entry(key, v)], Plain)), js) == None
  {
    hide Canon, Representable, Encodable, Recode, Clean;
    var e, d := Entry(PROTO, Buffer(data)), Entry(key, v);
    ProtoIsClean();
    RecodeIsClean(key);
    TwoEntries(e, d);
    DecodeOfEncode(Object([e, d], Plain), js);
    CanonOfTwo(e, d, js);
  }

  lemma TwoEntries(e: Entry, d: Entry)
    requires e.value.Buffer? && Representable(d.value) && Encodable(d.value) && e.key != d.key
    requires |Utf8.Encode(e.key)| < LIMIT && |Utf8.Encode(d.key)| < LIMIT
    ensures Representable(Object([e, d], Plain)) && Encodable(Object([e, d], Plain))
  {
    hide Utf8.Encode;
  }

  lemma CanonOfTwo(e: Entry, d: Entry, js: Engine)
    requires e.value.Buffer? && |e.value.data| < LIMIT && Recode(e.key) == PROTO
    requires Recode(d.key) in js.readOnly
    ensures Canon(Object([e, d], Plain), js) == None
  {
    hide Recode;
    PlainProto([], e.value, js);
    var o: Obj := Object([], From(e.value));
    assert forall c :: SetProperty(o, Recode(d.key), c, js) == None;
    assert Canon(e.value, js) == Some(e.value);
    hide Canon, SetProperty;
    CanonOfObject([e, d], js);
    assert [e, d][1..] == [d];
    assert CanonEntries(o, [d], js) == None;
  }

  // ---- prefixes and extensions --------------------------------------------------------

  lemma NumberExtends(b: seq<byte>, off: nat, width: nat, x: seq<byte>)
    requires Number(b, off, width).Some?
    ensures Number(b + x, off, width) == Number(b, off, width)
  {
    assert forall i :: 0 <= i < |b| ==> (b + x)[i] == b[i];
  }

  lemma HeadExtends(b: seq<byte>, off: nat, x: seq<byte>)
    requires HeadAt(b, off).Some?
    ensures HeadAt(b + x, off) == HeadAt(b, off)
  {
    hide Number, NumberOf, Rounded;
    forall width | Number(b, off, width).Some? ensures Number(b + x, off, width) == Number(b, off, width) {
      NumberExtends(b, off, width, x);
    }
    assert (b + x)[off] == b[off] && (off + 1 < |b| ==> (b + x)[off + 1] == b[off + 1]);
    if off + 4 < |b| { SliceExtends(b, off + 1, off + 5, x); }
    if off + 8 < |b| { SliceExtends(b, off + 1, off + 9, x); }
  }

  lemma SliceExtends(b: seq<byte>, i: nat, j: nat, x: seq<byte>)
    requires i <= j <= |b|
    ensures (b + x)[i..j] == b[i..j]
  {
  }

  /** A parse that succeeded gives the same with more bytes behind the buffer. */
  lemma {:induction false} ParseExtends(b: seq<byte>, off: nat, x: seq<byte>, js: Engine)
    requires ParseAt(b, off, js).Some?
    ensures ParseAt(b + x, off, js) == ParseAt(b, off, js)
    decreases |b| - off, 0
  {
    hide HeadAt, Utf8.Decode, ParseItems, ParseEntries;
    HeadExtends(b, off, x);
    var h := HeadAt(b, off).value;
    if h.Scalar? {
    } else {
      var start := off + h.size;
      match h.kind
      case StrKind => DecodeExtends(b, start, start + h.length, x);
      case BinKind => SliceExtends(b, start, start + h.length, x);
      case MapKind => EntriesExtend(b, start, h.length, x, js, EMPTY);
      case ArrayKind => ItemsExtend(b, start, h.length, x, js, []);
    }
  }

  lemma {:induction false} ItemsExtend(b: seq<byte>, off: nat, n: nat, x: seq<byte>, js: Engine,
                                       sofar: seq<Value>)
    requires off <= |b| + 1 && ParseItems(b, off, n, js, sofar).Some?
    requires off <= |b| + |x| + 1
    ensures ParseItems(b + x, off, n, js, sofar) == ParseItems(b, off, n, js, sofar)
    decreases |b| - off, 1, n
  {
    hide ParseAt, HeadAt;
    if n == 0 {
    } else {
      ParseExtends(b, off, x, js);
      var (v, next) := ParseAt(b, off, js).value;
      ItemsExtend(b, next, n - 1, x, js, sofar + [v]);
    }
  }

  lemma {:induction false} EntriesExtend(b: seq<byte>, off: nat, n: nat, x: seq<byte>, js: Engine,
                                         sofar: Obj)
    requires off <= |b| + 1 && ParseEntries(b, off, n, js, sofar).Some?
    ensures ParseEntries(b + x, off, n, js, sofar) == ParseEntries(b, off, n, js, sofar)
    decreases |b| - off, 1, n
  {
    hide ParseAt, HeadAt;
    if n == 0 {
    } else {
      ParseExtends(b, off, x, js);
      var (key, next) := ParseAt(b, off, js).value;
      ParseExtends(b, next, x, js);
      var (v, end) := ParseAt(b, next, js).value;
      EntriesExtend(b, end, n - 1, x, js, SetProperty(sofar, js.toKey(key).value, v, js).value);
    }
  }

  /** decode accepts neither a proper prefix nor a proper extension of an encoding. */
  lemma NoOtherLength(v: Value, b: seq<byte>, x: seq<byte>, js: Engine)
    requires Representable(v) && Encodable(v) && x != []
    ensures Packed(v) == b + x ==> JsDecoder.Decode(b, js) == None
    ensures JsDecoder.Decode(Packed(v) + x, js) == None
  {
    hide Canon, Packed, ParseAt, Representable, Encodable;
    assert At(Packed(v), 0, Packed(v)) && At(Packed(v) + x, 0, Packed(v));
    RoundTrip(Packed(v), 0, v, js);
    RoundTrip(Packed(v) + x, 0, v, js);
    if Packed(v) == b + x && ParseAt(b, 0, js).Some? {
      ParseExtends(b, 0, x, js);
    }
  }

  /** The cursor ends up past the buffer only where an undefined was cut off before its last byte. */
  lemma {:induction false} PastTheEnd(b: seq<byte>, off: nat, js: Engine)
    requires ParseAt(b, off, js).Some? && ParseAt(b, off, js).value.1 == |b| + 1
    ensures off + 2 <= |b| && b[|b| - 2..] == [0xd4, 0]
    decreases |b| - off, 0
  {
    hide HeadAt, Utf8.Decode, ParseItems, ParseEntries;
    var h := HeadAt(b, off).value;
    if h.Scalar? {
      UndefinedTag(b, off);
    } else {
      match h.kind
      case StrKind => DecodeStaysInside(b, off + h.size, off + h.size + h.length);
      case BinKind =>
      case MapKind => EntriesPastTheEnd(b, off + h.size, h.length, js, EMPTY);
      case ArrayKind => ItemsPastTheEnd(b, off + h.size, h.length, js, []);
    }
  }

  lemma UndefinedTag(b: seq<byte>, off: nat)
    requires HeadAt(b, off) == Some(Scalar(Undefined, 3))
    ensures off + 2 <= |b| && b[off] == 0xd4 && b[off + 1] == 0
  {
  }

  lemma {:induction false} ItemsPastTheEnd(b: seq<byte>, off: nat, n: nat, js: Engine, sofar: seq<Value>)
    requires off <= |b|
    requires ParseItems(b, off, n, js, sofar).Some? && ParseItems(b, off, n, js, sofar).value.1 == |b| + 1
    ensures off + 2 <= |b| && b[|b| - 2..] == [0xd4, 0]
    decreases |b| - off, 1, n
  {
    hide ParseAt, HeadAt;
    if n == 0 {
    } else {
      var (v, next) := ParseAt(b, off, js).value;
      if next == |b| + 1 {
        PastTheEnd(b, off, js);
      } else {
        ItemsPastTheEnd(b, next, n - 1, js, sofar + [v]);
      }
    }
  }

  lemma {:induction false} EntriesPastTheEnd(b: seq<byte>, off: nat, n: nat, js: Engine, sofar: Obj)
    requires off <= |b|
    requires ParseEntries(b, off, n, js, sofar).Some? && ParseEntries(b, off, n, js, sofar).value.1 == |b| + 1
    ensures off + 2 <= |b| && b[|b| - 2..] == [0xd4, 0]
    decreases |b| - off, 1, n
  {
    hide ParseAt, HeadAt;
    if n == 0 {
    } else {
      var (key, next) := ParseAt(b, off, js).value;
      var (v, end) := ParseAt(b, next, js).value;
      if end == |b| + 1 {
        PastTheEnd(b, next, js);
      } else {
        EntriesPastTheEnd(b, end, n - 1, js, SetProperty(sofar, js.toKey(key).value, v, js).value);
      }
    }
  }

  /** It happens: parse takes two bytes for undefined and moves on by three. Only decode then objects. */
  lemma UndefinedCutShort(js: Engine)
    ensures ParseAt([0xd4, 0], 0, js) == Some((Undefined, 3))
    ensures JsDecoder.Decode([0xd4, 0], js) == None
  {
  }

  // ---- only MessagePack is accepted -----------------------------------------------------

  /** parse and the MessagePack specification see the same header. */
  lemma HeadIsHeader(b: seq<byte>, off: nat)
    requires HeadAt(b, off).Some?
    ensures Formats.HeaderAt(b, off) == Some(
      match HeadAt(b, off).value
      case Scalar(_, size) => Formats.Leaf(size)
      case Sized(MapKind, size, length) => Formats.Node(size, 2 * length)
      case Sized(ArrayKind, size, length) => Formats.Node(size, length)
      case Sized(_, size, length) => Formats.Leaf(size + length))
  {
  }

  /**
   Of all extensions only fixext 1 of type 0 is parsed, as undefined and whatever its data are; encode
   writes a zero there.
   */
  lemma OnlyUndefinedExtends(b: seq<byte>, off: nat, x: seq<byte>, data: nat, js: Engine)
    requires At(b, off, x) && Formats.IsExt(x, data)
    ensures ParseAt(b, off, js) == if x[0] == 0xd4 && x[1] == 0 then Some((Undefined, 3 + off)) else None
    ensures Packed(Undefined) == [0xd4, 0, 0] && Formats.IsExt(Packed(Undefined), 1)
  {
    hide Formats.Number;
    assert b[off] == b[off..off + |x|][0] && b[off + 1] == b[off..off + |x|][1];
  }

  /** Nothing begins with the byte that the specification never uses. */
  lemma NeverUsedIsRefused(b: seq<byte>, off: nat, js: Engine)
    requires off < |b| && b[off] == 0xc1
    ensures ParseAt(b, off, js) == None
  {
  }

  /** What parse takes for a value is one well-formed object, unless it ends past the buffer. */
  lemma {:induction false} ParsedIsObject(b: seq<byte>, off: nat, js: Engine)
    requires ParseAt(b, off, js).Some? && ParseAt(b, off, js).value.1 <= |b|
    ensures Formats.Skip(b, off, 1) == Some(ParseAt(b, off, js).value.1)
    decreases |b| - off, 0
  {
    hide HeadAt, Formats.HeaderAt;
    HeadIsHeader(b, off);
    var h := HeadAt(b, off).value;
    if h.Sized? && h.kind == MapKind {
      EntriesAreObjects(b, off + h.size, h.length, js, EMPTY);
    } else if h.Sized? && h.kind == ArrayKind {
      ItemsAreObjects(b, off + h.size, h.length, js, []);
    }
  }

  lemma {:induction false} ItemsAreObjects(b: seq<byte>, off: nat, n: nat, js: Engine, sofar: seq<Value>)
    requires off <= |b|
    requires ParseItems(b, off, n, js, sofar).Some? && ParseItems(b, off, n, js, sofar).value.1 <= |b|
    ensures Formats.Skip(b, off, n) == Some(ParseItems(b, off, n, js, sofar).value.1)
    decreases |b| - off, 1, n
  {
    hide HeadAt, ParseAt, Formats.HeaderAt;
    if n == 0 {
    } else {
      var (v, next) := ParseAt(b, off, js).value;
      ParsedIsObject(b, off, js);
      ItemsAreObjects(b, next, n - 1, js, sofar + [v]);
      Formats.SkipSum(b, off, 1, n - 1);
    }
  }

  lemma {:induction false} EntriesAreObjects(b: seq<byte>, off: nat, n: nat, js: Engine, sofar: Obj)
    requires off <= |b|
    requires ParseEntries(b, off, n, js, sofar).Some? && ParseEntries(b, off, n, js, sofar).value.1 <= |b|
    ensures Formats.Skip(b, off, 2 * n) == Some(ParseEntries(b, off, n, js, sofar).value.1)
    decreases |b| - off, 1, n
  {
    hide HeadAt, ParseAt, Formats.HeaderAt, Formats.Skip, SetProperty;
    if n == 0 {
      Formats.SkipNothing(b, off);
    } else {
      var (key, next) := ParseAt(b, off, js).value;
      var (v, end) := ParseAt(b, next, js).value;
      ParsedIsObject(b, off, js);
      ParsedIsObject(b, next, js);
      EntriesAreObjects(b, end, n - 1, js, SetProperty(sofar, js.toKey(key).value, v, js).value);
      Formats.SkipSum(b, off, 1, 2 * n - 1);
      Formats.SkipSum(b, next, 1, 2 * (n - 1));
    }
  }

  /**
   The cursor ends up past the buffer exactly when the bytes from off on are not a whole MessagePack
   object: nothing but the missing byte of an undefined gets past parse.
   */
  lemma PastTheEndExactly(b: seq<byte>, off: nat, js: Engine)
    requires ParseAt(b, off, js).Some?
    ensures ParseAt(b, off, js).value.1 == |b| + 1 <==> Formats.Skip(b, off, 1) == None
  {
    hide ParseAt, Formats.Skip;
    var end := ParseAt(b, off, js).value.1;
    if end <= |b| {
      ParsedIsObject(b, off, js);
    } else {
      ParseExtends(b, off, [0], js);
      ParsedIsObject(b + [0], off, js);
      if Formats.Skip(b, off, 1).Some? {
        Formats.SkipExtends(b, off, 1, [0]);
      }
    }
  }

  /** decode accepts only buffers that are one well-formed MessagePack object. */
  lemma DecodedIsOneObject(b: seq<byte>, js: Engine)
    requires JsDecoder.Decode(b, js).Some?
    ensures Formats.OneObject(b)
  {
    ParsedIsObject(b, 0, js);
  }

  lemma {:induction false} NothingThrows(v: Value, js: Engine)
    requires js.readOnly == {}
    ensures Canon(v, js).Some?
    decreases v, 1
  {
    match v
    case Array(items) => ItemsDoNotThrow(items, js);
    case Object(es, _) => EntriesDoNotThrow(EMPTY, es, js);
    case _ =>
  }

  lemma {:induction false} ItemsDoNotThrow(items: seq<Value>, js: Engine)
    requires js.readOnly == {}
    ensures CanonItems(items, js).Some?
    decreases items, 0
  {
    if items == [] {
    } else {
      NothingThrows(items[0], js);
      ItemsDoNotThrow(items[1..], js);
    }
  }

  lemma {:induction false} EntriesDoNotThrow(sofar: Obj, es: seq<Entry>, js: Engine)
    requires js.readOnly == {}
    ensures CanonEntries(sofar, es, js).Some?
    decreases es, 0
  {
    hide Canon, SetProperty;
    if es == [] {
    } else {
      NothingThrows(es[0].value, js);
      var c := Canon(es[0].value, js).value;
      NoInheritedThrow(sofar, Recode(es[0].key), c, js);
      EntriesDoNotThrow(SetProperty(sofar, Recode(es[0].key), c, js).value, es[1..], js);
    }
  }

  lemma NoInheritedThrow(o: Obj, key: JsString, v: Value, js: Engine)
    requires js.readOnly == {}
    ensures SetProperty(o, key, v, js).Some?
  {
    NoGetterThrows(o.proto, key, js);
  }

  lemma {:induction false} NoGetterThrows(proto: Proto, key: JsString, js: Engine)
    requires js.readOnly == {}
    ensures Inherited(proto, key, js) != Throws
    decreases proto
  {
    match proto
    case From(Object(es, next)) => NoGetterThrows(next, key, js);
    case _ =>
  }

  /** Every encoding is one well-formed MessagePack object. */
  lemma PackedIsOneObject(v: Value)
    requires Representable(v) && Encodable(v)
    ensures Formats.OneObject(Packed(v))
  {
    var toKey: KeyCoercion := (v: Value) => if v.Str? then Some(v.s) else None;
    var js := Engine(toKey, {});
    hide Canon;
    NothingThrows(v, js);
    DecodeOfEncode(v, js);
    DecodedIsOneObject(Packed(v), js);
  }
}
