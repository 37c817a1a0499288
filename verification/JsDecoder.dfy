/** The MessagePack decoder of chat.js: the Decoder object and decode. */
module JsDecoder {
  import opened Bytes
  import opened Utf8
  import opened JsEncoder

  /**
   How JavaScript turns a map key into a property name, None where that throws. All that is
   known of it is that it keeps strings.
   */
  type KeyCoercion = f: Value -> Option<JsString> | forall s :: f(Str(s)) == Some(s)
    witness (v: Value) => if v.Str? then Some(v.s) else None

  /** What is left to the engine: toKey, and the names for which ArrayBuffer.prototype has a getter but no setter. */
  datatype Engine = Engine(toKey: KeyCoercion, readOnly: set<JsString>)

  datatype Kind = StrKind | BinKind | MapKind | ArrayKind

  /** What parse makes of a tag: a finished value, or how much of what kind is to follow. */
  datatype Head = Scalar(value: Value, size: nat) | Sized(kind: Kind, size: nat, length: nat)

  /** Reads behind the tag at off; None where the DataView getter throws. */
  function Number(b: seq<byte>, off: nat, width: nat): (r: Option<nat>)
    ensures r.Some? ==> off + width < |b|
  {
    if |b| <= off + width then None
    else match width
      case 1 => Some(b[off + 1])
      case 2 => Some(U16(b, off + 1))
      case 4 => Some(U32(b, off + 1))
      case 8 => Some(U64(b, off + 1))
      case _ => None
  }

  /** The integers up to here are doubles, each of them. */
  const SAFE: int := 0x20_0000_0000_0000

  /** How far doubles of the size of n lie apart: the least power of two, from p on, with n < SAFE * p. */
  function Spacing(n: nat, p: nat): (r: nat)
    requires 0 < p
    ensures p <= r && n < SAFE * r
    decreases n - p
  {
    if n < SAFE * p then p else Spacing(n, 2 * p)
  }

  /** The multiple of p next to n, the even one of two that are as near. */
  function ToEven(n: nat, p: nat): int
    requires 0 < p
  {
    var q, r := n / p, n % p;
    if 2 * r < p || (2 * r == p && q % 2 == 0) then q * p else (q + 1) * p
  }

  /** The value of high * 0x100000000 + low as IEEE arithmetic has it, where n is the exact one. */
  function Rounded(n: int): int {
    if -SAFE <= n <= SAFE then n
    else if 0 < n then ToEven(n, Spacing(n, 1))
    else -ToEven(-n, Spacing(-n, 1))
  }

  /** The number that getFloat64 makes of eight bytes. */
  function NumberOf(bits: seq<byte>): Value
    requires |bits| == 8
  {
    if U64(bits, 0) == 0x8000_0000_0000_0000 then NegativeZero
    else match IntegerOf(U64(bits, 0))
      case Some(n) => Int(n)
      case None => Double(bits)
  }

  function SizedBy(b: seq<byte>, off: nat, width: nat, kind: Kind): Option<Head> {
    var length := Number(b, off, width);
    if length == None then None else Some(Sized(kind, 1 + width, length.value))
  }

  function Unsigned(b: seq<byte>, off: nat, width: nat): Option<Head> {
    var n := Number(b, off, width);
    if n == None then None else Some(Scalar(Int(Rounded(n.value)), 1 + width))
  }

  function Signed(b: seq<byte>, off: nat, width: nat, half: nat): Option<Head> {
    var n := Number(b, off, width);
    if n == None then None
    else Some(Scalar(Int(Rounded(if n.value < half then n.value else n.value - 2 * half)), 1 + width))
  }

  /** The branches of parse. undefined takes three bytes, of which only two are looked at. */
  function HeadAt(b: seq<byte>, off: nat): (h: Option<Head>)
    ensures h.Some? ==> off < |b| && 1 <= h.value.size
    ensures h.Some? ==> off + h.value.size <= |b| + if h.value == Scalar(Undefined, 3) then 1 else 0
  {
    if |b| <= off then None else
    var t: int := b[off];
    if 0xa0 <= t < 0xc0 then Some(Sized(StrKind, 1, t - 0xa0))
    else if 0x80 <= t < 0x90 then Some(Sized(MapKind, 1, t - 0x80))
    else if 0x90 <= t < 0xa0 then Some(Sized(ArrayKind, 1, t - 0x90))
    else if t < 0x80 then Some(Scalar(Int(t), 1))
    else if 0xe0 <= t then Some(Scalar(Int(t - 0x100), 1))
    else match t
      case 0xd4 => if off + 1 < |b| && b[off + 1] == 0 then Some(Scalar(Undefined, 3)) else None
      case 0xd9 => SizedBy(b, off, 1, StrKind)
      case 0xda => SizedBy(b, off, 2, StrKind)
      case 0xdb => SizedBy(b, off, 4, StrKind)
      case 0xc4 => SizedBy(b, off, 1, BinKind)
      case 0xc5 => SizedBy(b, off, 2, BinKind)
      case 0xc6 => SizedBy(b, off, 4, BinKind)
      case 0xc0 => Some(Scalar(Null, 1))
      case 0xc2 => Some(Scalar(Bool(false), 1))
      case 0xc3 => Some(Scalar(Bool(true), 1))
      case 0xcc => Unsigned(b, off, 1)
      case 0xcd => Unsigned(b, off, 2)
      case 0xce => Unsigned(b, off, 4)
      case 0xcf => Unsigned(b, off, 8)
      case 0xd0 => Signed(b, off, 1, 0x80)
      case 0xd1 => Signed(b, off, 2, 0x8000)
      case 0xd2 => Signed(b, off, 4, 0x8000_0000)
      case 0xd3 => Signed(b, off, 8, 0x8000_0000_0000_0000)
      case 0xde => SizedBy(b, off, 2, MapKind)
      case 0xdf => SizedBy(b, off, 4, MapKind)
      case 0xdc => SizedBy(b, off, 2, ArrayKind)
      case 0xdd => SizedBy(b, off, 4, ArrayKind)
      case 0xca => if |b| <= off + 4 then None else Some(Scalar(Float(b[off + 1..off + 5]), 5))
      case 0xcb => if |b| <= off + 8 then None else Some(Scalar(NumberOf(b[off + 1..off + 9]), 9))
      case _ => None
  }

  type Obj = v: Value | v.Object? witness Object([], Plain)

  const EMPTY: Obj := Object([], Plain)

  /** The units of "__proto__". */
  const PROTO: JsString := [0x5f, 0x5f, 0x70, 0x72, 0x6f, 0x74, 0x6f, 0x5f, 0x5f]

  predicate HasKey(es: seq<Entry>, key: JsString) {
    exists e :: e in es && e.key == key
  }

  /** Sets an own property: an existing one keeps its place and takes the new value. */
  function Assign(es: seq<Entry>, key: JsString, v: Value): seq<Entry> {
    if es == [] then [Entry(key, v)]
    else if es[0].key == key then [Entry(key, v)] + es[1..]
    else [es[0]] + Assign(es[1..], key, v)
  }

  /** What assigning a property that an object does not have itself comes to. */
  datatype Effect = OwnProperty | SetsPrototype | Throws

  /**
   The first object on the prototype chain that has the property decides: a data property is no
   obstacle, Object.prototype has the setter of __proto__, and ArrayBuffer.prototype has getters only.
   */
  function Inherited(proto: Proto, key: JsString, js: Engine): Effect {
    match proto
    case Nothing => OwnProperty
    case Plain => if key == PROTO then SetsPrototype else OwnProperty
    case From(Object(es, next)) => if HasKey(es, key) then OwnProperty else Inherited(next, key, js)
    case From(Buffer(_)) =>
      if key in js.readOnly then Throws else if key == PROTO then SetsPrototype else OwnProperty
    case From(_) => if key == PROTO then SetsPrototype else OwnProperty
  }

  /** The setter of __proto__: objects and null become the prototype, anything else is ignored. */
  function NewProto(proto: Proto, v: Value): Proto {
    if v.Object? || v.Array? || v.Buffer? then From(v)
    else if v.Null? then Nothing
    else proto
  }

  /** The assignment of a property in strict mode; None where it throws. */
  function SetProperty(o: Obj, key: JsString, v: Value, js: Engine): Option<Obj> {
    if HasKey(o.entries, key) then Some(Object(Assign(o.entries, key, v), o.proto))
    else match Inherited(o.proto, key, js)
      case OwnProperty => Some(Object(Assign(o.entries, key, v), o.proto))
      case SetsPrototype => Some(Object(o.entries, NewProto(o.proto, v)))
      case Throws => None
  }

  /**
   The value that starts at off and the offset behind it, or None where the original throws.
   Every success moves on, and never further than one past the end of the buffer.
   */
  function ParseAt(b: seq<byte>, off: nat, js: Engine): (r: Option<(Value, nat)>)
    ensures r.Some? ==> off < |b| && off < r.value.1 <= |b| + 1
    decreases |b| - off, 0
  {
    match HeadAt(b, off)
    case None => None
    case Some(Scalar(v, size)) => Some((v, off + size))
    case Some(Sized(StrKind, size, length)) =>
      var s := Utf8.Decode(b, off + size, off + size + length);
      if s.None? then None else
      DecodeStaysInside(b, off + size, off + size + length);
      Some((Str(s.value), off + size + length))
    case Some(Sized(BinKind, size, length)) =>
      if |b| < off + size + length then None
      else Some((Buffer(b[off + size..off + size + length]), off + size + length))
    case Some(Sized(MapKind, size, length)) =>
      var r := ParseEntries(b, off + size, length, js, EMPTY);
      if r == None then None else Some((r.value.0, r.value.1))
    case Some(Sized(ArrayKind, size, length)) =>
      var r := ParseItems(b, off + size, length, js, []);
      if r == None then None else Some((Array(r.value.0), r.value.1))
  }

  function ParseItems(b: seq<byte>, off: nat, n: nat, js: Engine, sofar: seq<Value>)
    : (r: Option<(seq<Value>, nat)>)
    requires off <= |b| + 1
    ensures r.Some? ==> off + n <= r.value.1 <= |b| + 1
    decreases |b| - off, 1, n
  {
    if n == 0 then Some((sofar, off)) else
    match ParseAt(b, off, js)
    case None => None
    case Some((v, next)) => ParseItems(b, next, n - 1, js, sofar + [v])
  }

  function ParseEntries(b: seq<byte>, off: nat, n: nat, js: Engine, sofar: Obj)
    : (r: Option<(Obj, nat)>)
    requires off <= |b| + 1
    ensures r.Some? ==> off + n <= r.value.1 <= |b| + 1
    decreases |b| - off, 1, n
  {
    if n == 0 then Some((sofar, off)) else
    match ParseAt(b, off, js)
    case None => None
    case Some((key, next)) =>
      match ParseAt(b, next, js)
      case None => None
      case Some((v, end)) =>
        match js.toKey(key)
        case None => None
        case Some(name) =>
          match SetProperty(sofar, name, v, js)
          case None => None
          case Some(o) => ParseEntries(b, end, n - 1, js, o)
  }

  lemma {:induction false} DecodeStaysInside(b: seq<byte>, i: nat, end: nat)
    requires i <= |b| && Utf8.Decode(b, i, end).Some?
    ensures end <= |b|
    decreases end - i
  {
    if end <= i {
    } else {
      DecodeStaysInside(b, i + ReadUnit(b, i).value.1, end);
    }
  }

  /** decode: a value with bytes behind it is an error, and so is one that ends past the buffer. */
  function Decode(b: seq<byte>, js: Engine): Option<Value> {
    match ParseAt(b, 0, js)
    case None => None
    case Some((v, end)) => if end == |b| then Some(v) else None
  }

  /** The Decoder object; a method that returns None has thrown. */
  class Decoder {
    const view: seq<byte>
    const js: Engine
    var offset: nat

    constructor (view: seq<byte>, offset: nat, js: Engine)
      ensures this.view == view && this.offset == offset && this.js == js
    {
      this.view, this.offset, this.js := view, offset, js;
    }

    method Map(length: nat) returns (value: Option<Obj>)
      requires offset <= |view| + 1
      modifies this
      ensures match ParseEntries(view, old(offset), length, js, EMPTY)
        case None => value == None
        case Some((o, end)) => value == Some(o) && offset == end
      decreases |view| - offset, 1
    {
      hide ParseAt;
      var o: Obj := EMPTY;
      for i := 0 to length
        invariant old(offset) <= offset <= |view| + 1 && (i > 0 ==> old(offset) < offset && old(offset) <= |view|)
        invariant ParseEntries(view, old(offset), length, js, EMPTY)
          == ParseEntries(view, offset, length - i, js, o)
      {
        var key := this.Parse();
        if key == None { return None; }
        var v := this.Parse();
        if v == None { return None; }
        var name := js.toKey(key.value);
        if name == None { return None; }
        var next := SetProperty(o, name.value, v.value, js);
        if next == None { return None; }
        o := next.value;
      }
      return Some(o);
    }

    method Bin(length: nat) returns (value: Option<seq<byte>>)
      modifies this
      ensures value == if old(offset) + length <= |view| then Some(view[old(offset)..old(offset) + length]) else None
      ensures offset == if value == None then old(offset) else old(offset) + length
    {
      if |view| < offset + length { return None; }
      value := Some(view[offset..offset + length]);
      offset := offset + length;
    }

    method Str(length: nat) returns (value: Option<JsString>)
      modifies this
      ensures value == Utf8.Decode(view, old(offset), old(offset) + length)
      ensures offset == if value == None then old(offset) else old(offset) + length
    {
      value := Utf8.Read(view, offset, length);
      if value == None { return; }
      offset := offset + length;
    }

    method Array(length: nat) returns (value: Option<seq<Value>>)
      requires offset <= |view| + 1
      modifies this
      ensures match ParseItems(view, old(offset), length, js, [])
        case None => value == None
        case Some((items, end)) => value == Some(items) && offset == end
      decreases |view| - offset, 1
    {
      hide ParseAt;
      var items: seq<Value> := [];
      for i := 0 to length
        invariant old(offset) <= offset <= |view| + 1 && (i > 0 ==> old(offset) < offset && old(offset) <= |view|)
        invariant ParseItems(view, old(offset), length, js, [])
          == ParseItems(view, offset, length - i, js, items)
      {
        var v := this.Parse();
        if v == None { return None; }
        items := items + [v.value];
      }
      return Some(items);
    }

    method Parse() returns (value: Option<Value>)
      modifies this
      ensures match ParseAt(view, old(offset), js)
        case None => value == None
        case Some((v, end)) => value == Some(v) && offset == end
      decreases |view| - offset, 0
    {
      hide HeadAt, Utf8.Decode, ParseItems, ParseEntries;
      var head := HeadAt(view, offset);
      if head == None { return None; }
      offset := offset + head.value.size;
      match head.value
      case Scalar(v, _) =>
        value := Some(v);
      case Sized(StrKind, _, length) =>
        var s := this.Str(length);
        value := if s.Some? then Some(Value.Str(s.value)) else None;
      case Sized(BinKind, _, length) =>
        var data := this.Bin(length);
        value := if data.Some? then Some(Buffer(data.value)) else None;
      case Sized(MapKind, _, length) =>
        var o := this.Map(length);
        value := if o.Some? then Some(o.value) else None;
      case Sized(ArrayKind, _, length) =>
        var items := this.Array(length);
        value := if items.Some? then Some(Value.Array(items.value)) else None;
    }
  }

  method DecodeBuffer(buffer: seq<byte>, js: Engine) returns (value: Option<Value>)
    ensures value == Decode(buffer, js)
  {
    var decoder := new Decoder(buffer, 0, js);
    value := decoder.Parse();
    if decoder.offset != |buffer| {
      value := None;
    }
  }
}
