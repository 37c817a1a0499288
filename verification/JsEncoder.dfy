/** The MessagePack encoder of chat.js: encode, encodedSize and exports.encode. */
module JsEncoder {
  import opened Bytes
  import opened Utf8

  /**
   A JavaScript value as a tree. A number is an int where the bitwise operators leave it
   alone, -0 or else the eight bytes that setFloat64 stores for it; Float is what
   getFloat32 reads. The entries of an object are in the order of Object.keys; an
   ArrayBuffer has none. An object inherits from its proto.
   */
  datatype Value =
    | Undefined
    | Null
    | Bool(b: bool)
    | Int(n: int)
    | NegativeZero
    | Double(bits: seq<byte>)
    | Float(bits: seq<byte>)
    | Buffer(data: seq<byte>)
    | Str(s: JsString)
    | Array(items: seq<Value>)
    | Object(entries: seq<Entry>, proto: Proto)

  datatype Entry = Entry(key: JsString, value: Value)

  /** The prototype of an object: Object.prototype, null, or another value. */
  datatype Proto = Plain | Nothing | From(value: Value)

  const LIMIT: nat := 0x1_0000_0000

  predicate DistinctKeys(es: seq<Entry>) {
    forall i, j :: 0 <= i < j < |es| ==> es[i].key != es[j].key
  }

  function Pow2(n: nat): (r: nat)
    ensures 1 <= r
  {
    if n == 0 then 1 else 2 * Pow2(n - 1)
  }

  /** The 32-bit integer that a double, given by its 64 bits, is the value of, if any; 0 for -0 as well. */
  function IntegerOf(bits: uint64): Option<int> {
    var exponent, fraction := bits / 0x10_0000_0000_0000 % 0x800, bits % 0x10_0000_0000_0000;
    if exponent == 0 && fraction == 0 then Some(0)
    else if exponent < 1023 || 1054 < exponent then None
    else
      var unit, significand := Pow2(1075 - exponent), 0x10_0000_0000_0000 + fraction;
      var n := if bits < 0x8000_0000_0000_0000 then significand / unit else -(significand / unit);
      if significand % unit == 0 && -0x8000_0000 <= n < 0x8000_0000 then Some(n) else None
  }

  /** The values there are in JavaScript, each in the one way the model writes it. */
  predicate Representable(v: Value) {
    match v
    case Int(n) => -0x8000_0000 <= n < 0x8000_0000
    case Double(bits) => |bits| == 8 && IntegerOf(U64(bits, 0)) == None
    case Float(_) => false
    case Array(items) => forall i :: 0 <= i < |items| ==> Representable(items[i])
    case Object(es, proto) =>
      proto.Plain? && DistinctKeys(es) && forall i :: 0 <= i < |es| ==> Representable(es[i].value)
    case _ => true
  }

  /** No string or container in v has a length that needs more than 32 bits. */
  predicate Encodable(v: Value) {
    match v
    case Str(s) => |Utf8.Encode(s)| < LIMIT
    case Array(items) => |items| < LIMIT && forall i :: 0 <= i < |items| ==> Encodable(items[i])
    case Object(es, _) =>
      |es| < LIMIT && forall i :: 0 <= i < |es| ==> |Utf8.Encode(es[i].key)| < LIMIT && Encodable(es[i].value)
    case _ => true
  }

  // The functions from here to PackedEntries are total for the sake of the proofs. Where no
  // format has room for a length, the header is left out; encodedSize has thrown before that.

  function StrHeader(length: nat): seq<byte> {
    if length < 0x20 then [length + 0xa0]
    else if length < 0x100 then [0xd9, length]
    else if length < 0x1_0000 then [0xda] + Be16(length)
    else if length < LIMIT then [0xdb] + Be32(length)
    else []
  }

  function BinHeader(length: nat): seq<byte> {
    if length < 0x100 then [0xc4, length]
    else if length < 0x1_0000 then [0xc5] + Be16(length)
    else if length < LIMIT then [0xc6] + Be32(length)
    else []
  }

  function ContainerHeader(length: nat, isArray: bool): seq<byte> {
    if length < 0x10 then [length + if isArray then 0x90 else 0x80]
    else if length < 0x1_0000 then [if isArray then 0xdc else 0xde] + Be16(length)
    else if length < LIMIT then [if isArray then 0xdd else 0xdf] + Be32(length)
    else []
  }

  function PackedInt(n: int): seq<byte> {
    if n >= 0 then
      if n < 0x80 then [n]
      else if n < 0x100 then [0xcc, n]
      else if n < 0x1_0000 then [0xcd] + Be16(n)
      else if n < LIMIT then [0xce] + Be32(n)
      else []
    else if n >= -0x20 then [n + 0x100]
    else if n >= -0x80 then [0xd0, n + 0x100]
    else if n >= -0x8000 then [0xd1] + Be16(n + 0x1_0000)
    else if n >= -0x8000_0000 then [0xd2] + Be32(n + LIMIT)
    else []
  }

  function PackedStr(s: JsString): seq<byte> {
    StrHeader(|Utf8.Encode(s)|) + Utf8.Encode(s)
  }

  /** A buffer that no bin format has room for falls through to the objects, and has no keys. */
  function PackedBuffer(data: seq<byte>): seq<byte> {
    if |data| < LIMIT then BinHeader(|data|) + data else ContainerHeader(0, false)
  }

  /** The bytes v is encoded to. */
  function Packed(v: Value): seq<byte>
    decreases v, 1
  {
    match v
    case Undefined => [0xd4, 0, 0]
    case Null => [0xc0]
    case Bool(b) => [if b then 0xc3 else 0xc2]
    case Int(n) => PackedInt(n)
    case NegativeZero => [0]
    case Double(bits) => [0xcb] + bits
    case Float(bits) => []
    case Buffer(data) => PackedBuffer(data)
    case Str(s) => PackedStr(s)
    case Array(items) => ContainerHeader(|items|, true) + PackedItems(items)
    case Object(es, _) => ContainerHeader(|es|, false) + PackedEntries(es)
  }

  function PackedItems(items: seq<Value>): seq<byte>
    decreases items, 0
  {
    if items == [] then [] else Packed(items[0]) + PackedItems(items[1..])
  }

  function PackedEntries(es: seq<Entry>): seq<byte>
    decreases es, 0
  {
    if es == [] then [] else PackedEntry(es[0]) + PackedEntries(es[1..])
  }

  function PackedEntry(e: Entry): seq<byte>
    decreases e, 2
  {
    PackedStr(e.key) + Packed(e.value)
  }

  /** Computes the size without writing anything; None stands for the error of a value that is too long. */
  method EncodedSize(v: Value) returns (size: Option<nat>)
    requires Representable(v)
    ensures size.Some? <==> Encodable(v)
    ensures size.Some? ==> size.value == |Packed(v)|
    decreases v, 1
  {
    hide IntegerOf, PackedStr, ContainerHeader, PackedBuffer, PackedInt, PackedItems, PackedEntries, Utf8.Encode;
    hide StrSize, BufferSize, IntSize, ContainerSize, DistinctKeys;
    if v.Str? {
      StrSizeIs(v.s);
      var length := ByteCount(v.s);
      size := StrSize(length);
    } else if v.Buffer? {
      BufferSizeIs(v.data);
      size := BufferSize(|v.data|);
      if size == None { size := ContainerSize(0, 0); }
    } else if v.Double? {
      size := Some(9);
    } else if v.Int? {
      IntSizeIs(v.n);
      size := Some(IntSize(v.n));
    } else if v.NegativeZero? {
      size := Some(1);
    } else if v.Undefined? {
      size := Some(3);
    } else if v.Bool? || v.Null? {
      size := Some(1);
    } else if v.Array? {
      var total := SizeOfItems(v.items);
      if total.Some? { ContainerSizeIs(|v.items|, total.value, true); }
      size := if total.Some? then ContainerSize(|v.items|, total.value) else None;
    } else {
      var total := SizeOfEntries(v.entries);
      if total.Some? { ContainerSizeIs(|v.entries|, total.value, false); }
      size := if total.Some? then ContainerSize(|v.entries|, total.value) else None;
    }
  }

  lemma StrSizeIs(s: JsString)
    ensures StrSize(|Utf8.Encode(s)|).Some? <==> |Utf8.Encode(s)| < LIMIT
    ensures |Utf8.Encode(s)| < LIMIT ==> StrSize(|Utf8.Encode(s)|) == Some(|PackedStr(s)|)
  {
    hide Utf8.Encode;
  }

  lemma BufferSizeIs(data: seq<byte>)
    ensures Some(|PackedBuffer(data)|)
      == if BufferSize(|data|) == None then ContainerSize(0, 0) else BufferSize(|data|)
  {
  }

  lemma IntSizeIs(n: int)
    requires -0x8000_0000 <= n < 0x8000_0000
    ensures IntSize(n) == |PackedInt(n)|
  {
  }

  lemma ContainerSizeIs(n: nat, total: nat, isArray: bool)
    ensures ContainerSize(n, total).Some? <==> n < LIMIT
    ensures n < LIMIT ==> ContainerSize(n, total) == Some(|ContainerHeader(n, isArray)| + total)
  {
  }

  method SizeOfItems(items: seq<Value>) returns (size: Option<nat>)
    requires forall i :: 0 <= i < |items| ==> Representable(items[i])
    ensures size.Some? <==> forall i :: 0 <= i < |items| ==> Encodable(items[i])
    ensures size.Some? ==> size.value == |PackedItems(items)|
    decreases items, 0
  {
    var total: nat := 0;
    for i := 0 to |items|
      invariant forall j :: 0 <= j < i ==> Encodable(items[j])
      invariant total + |PackedItems(items[i..])| == |PackedItems(items)|
    {
      var item := EncodedSize(items[i]);
      if item == None { return None; }
      assert items[i..][1..] == items[i + 1..];
      total := total + item.value;
    }
    return Some(total);
  }

  method SizeOfEntries(es: seq<Entry>) returns (size: Option<nat>)
    requires forall i :: 0 <= i < |es| ==> Representable(es[i].value)
    ensures size.Some? <==> forall i :: 0 <= i < |es| ==> |Utf8.Encode(es[i].key)| < LIMIT && Encodable(es[i].value)
    ensures size.Some? ==> size.value == |PackedEntries(es)|
    decreases es, 0
  {
    hide Representable, Encodable, PackedStr, Packed, StrSize, Utf8.Encode;
    var total: nat := 0;
    for i := 0 to |es|
      invariant forall j :: 0 <= j < i ==> |Utf8.Encode(es[j].key)| < LIMIT && Encodable(es[j].value)
      invariant total + |PackedEntries(es[i..])| == |PackedEntries(es)|
    {
      var length := ByteCount(es[i].key);
      StrSizeIs(es[i].key);
      var key := StrSize(length);
      if key == None { return None; }
      var value := EncodedSize(es[i].value);
      if value == None { return None; }
      assert es[i..][1..] == es[i + 1..];
      total := total + key.value + value.value;
    }
    return Some(total);
  }

  function IntSize(n: int): nat {
    if n >= 0 then
      if n < 0x80 then 1 else if n < 0x100 then 2 else if n < 0x1_0000 then 3 else 5
    else if n >= -0x20 then 1
    else if n >= -0x80 then 2
    else if n >= -0x8000 then 3
    else 5
  }

  function BufferSize(length: nat): Option<nat> {
    if length < 0x100 then Some(2 + length)
    else if length < 0x1_0000 then Some(3 + length)
    else if length < LIMIT then Some(5 + length)
    else None
  }

  function StrSize(length: nat): Option<nat> {
    if length < 0x20 then Some(1 + length)
    else if length < 0x100 then Some(2 + length)
    else if length < 0x1_0000 then Some(3 + length)
    else if length < LIMIT then Some(5 + length)
    else None
  }

  function ContainerSize(length: nat, size: nat): Option<nat> {
    if length < 0x10 then Some(1 + size)
    else if length < 0x1_0000 then Some(3 + size)
    else if length < LIMIT then Some(5 + size)
    else None
  }

  /** Writes v into view from offset on and returns how many bytes that took. */
  method Encode(v: Value, view: array<byte>, offset: nat) returns (size: nat)
    requires Representable(v) && Encodable(v)
    requires offset + |Packed(v)| <= view.Length
    modifies view
    ensures size == |Packed(v)|
    ensures view[..] == Overlay(old(view[..]), offset, Packed(v))
    decreases v, 1
  {
    hide IntegerOf, ContainerHeader, PackedBuffer, PackedInt, PackedStr, PackedItems, PackedEntries, Overlay;
    hide Utf8.Encode, DistinctKeys;
    if v.Str? {
      size := EncodeStr(v.s, view, offset);
    } else if v.Buffer? {
      size := EncodeBuffer(v.data, view, offset);
    } else if v.Double? {
      size := PutWith([0xcb], v.bits, view, offset);
    } else if v.Int? {
      size := EncodeInt(v.n, view, offset);
    } else if v.NegativeZero? {
      size := Put([0], view, offset);
    } else if v.Undefined? {
      size := Put([0xd4, 0, 0], view, offset);
    } else if v.Null? {
      size := Put([0xc0], view, offset);
    } else if v.Bool? {
      size := Put([if v.b then 0xc3 else 0xc2], view, offset);
    } else if v.Array? {
      var header := ContainerHeader(|v.items|, true);
      OverlayConcat(view[..], offset, header, PackedItems(v.items));
      size := Put(header, view, offset);
      var n := EncodeItems(v.items, view, offset + size);
      size := size + n;
    } else {
      var header := ContainerHeader(|v.entries|, false);
      OverlayConcat(view[..], offset, header, PackedEntries(v.entries));
      size := Put(header, view, offset);
      var n := EncodeEntries(v.entries, view, offset + size);
      size := size + n;
    }
  }

  method EncodeBuffer(data: seq<byte>, view: array<byte>, offset: nat) returns (size: nat)
    requires offset + |PackedBuffer(data)| <= view.Length
    modifies view
    ensures size == |PackedBuffer(data)|
    ensures view[..] == Overlay(old(view[..]), offset, PackedBuffer(data))
  {
    if |data| < LIMIT {
      size := PutWith(BinHeader(|data|), data, view, offset);
    } else {
      size := Put(ContainerHeader(0, false), view, offset);
    }
  }

  /** Stores bytes that are known to fit. */
  method Put(bytes: seq<byte>, view: array<byte>, offset: nat) returns (size: nat)
    requires offset + |bytes| <= view.Length
    modifies view
    ensures size == |bytes|
    ensures view[..] == Overlay(old(view[..]), offset, bytes)
  {
    var _ := SetBytes(view, offset, bytes);
    size := |bytes|;
  }

  method PutWith(header: seq<byte>, data: seq<byte>, view: array<byte>, offset: nat) returns (size: nat)
    requires offset + |header + data| <= view.Length
    modifies view
    ensures size == |header + data|
    ensures view[..] == Overlay(old(view[..]), offset, header + data)
  {
    OverlayConcat(view[..], offset, header, data);
    size := Put(header, view, offset);
    var _ := SetBytes(view, offset + size, data);
    size := size + |data|;
  }

  method EncodeStr(s: JsString, view: array<byte>, offset: nat) returns (size: nat)
    requires |Utf8.Encode(s)| < LIMIT && offset + |PackedStr(s)| <= view.Length
    modifies view
    ensures size == |PackedStr(s)|
    ensures view[..] == Overlay(old(view[..]), offset, PackedStr(s))
  {
    var length := ByteCount(s);
    OverlayConcat(view[..], offset, StrHeader(length), Utf8.Encode(s));
    if length < 0x20 {
      size := Put([length + 0xa0], view, offset);
    } else if length < 0x100 {
      size := Put([0xd9, length], view, offset);
    } else if length < 0x1_0000 {
      size := Put([0xda] + Be16(length), view, offset);
    } else {
      size := Put([0xdb] + Be32(length), view, offset);
    }
    var _ := Write(view, offset + size, s);
    size := size + length;
  }

  method EncodeInt(n: int, view: array<byte>, offset: nat) returns (size: nat)
    requires -0x8000_0000 <= n < 0x8000_0000 && offset + |PackedInt(n)| <= view.Length
    modifies view
    ensures size == |PackedInt(n)|
    ensures view[..] == Overlay(old(view[..]), offset, PackedInt(n))
  {
    var bytes: seq<byte>;
    if n >= 0 {
      if n < 0x80 {
        bytes := [n];
      } else if n < 0x100 {
        bytes := [0xcc, n];
      } else if n < 0x1_0000 {
        bytes := [0xcd] + Be16(n);
      } else {
        bytes := [0xce] + Be32(n);
      }
    } else if n >= -0x20 {
      bytes := [n + 0x100];
    } else if n >= -0x80 {
      bytes := [0xd0, n + 0x100];
    } else if n >= -0x8000 {
      bytes := [0xd1] + Be16(n + 0x1_0000);
    } else {
      bytes := [0xd2] + Be32(n + LIMIT);
    }
    size := Put(bytes, view, offset);
  }

  method EncodeItems(items: seq<Value>, view: array<byte>, offset: nat) returns (size: nat)
    requires forall i :: 0 <= i < |items| ==> Representable(items[i]) && Encodable(items[i])
    requires offset + |PackedItems(items)| <= view.Length
    modifies view
    ensures size == |PackedItems(items)|
    ensures view[..] == Overlay(old(view[..]), offset, PackedItems(items))
    decreases items, 0
  {
    hide Representable, Encodable, Packed;
    size := 0;
    for i := 0 to |items|
      invariant Overlay(view[..], offset + size, PackedItems(items[i..]))
        == Overlay(old(view[..]), offset, PackedItems(items))
      invariant size + |PackedItems(items[i..])| == |PackedItems(items)|
    {
      assert items[i..][1..] == items[i + 1..];
      OverlayConcat(view[..], offset + size, Packed(items[i]), PackedItems(items[i + 1..]));
      var n := Encode(items[i], view, offset + size);
      size := size + n;
    }
  }

  method EncodeEntries(es: seq<Entry>, view: array<byte>, offset: nat) returns (size: nat)
    requires forall i :: 0 <= i < |es| ==>
      Representable(es[i].value) && |Utf8.Encode(es[i].key)| < LIMIT && Encodable(es[i].value)
    requires offset + |PackedEntries(es)| <= view.Length
    modifies view
    ensures size == |PackedEntries(es)|
    ensures view[..] == Overlay(old(view[..]), offset, PackedEntries(es))
    decreases es, 0
  {
    hide Representable, Encodable, PackedEntry;
    size := 0;
    for i := 0 to |es|
      invariant Overlay(view[..], offset + size, PackedEntries(es[i..]))
        == Overlay(old(view[..]), offset, PackedEntries(es))
      invariant size + |PackedEntries(es[i..])| == |PackedEntries(es)|
    {
      assert es[i..][1..] == es[i + 1..];
      OverlayConcat(view[..], offset + size, PackedEntry(es[i]), PackedEntries(es[i + 1..]));
      var n := EncodeEntry(es[i], view, offset + size);
      size := size + n;
    }
  }

  method EncodeEntry(e: Entry, view: array<byte>, offset: nat) returns (size: nat)
    requires Representable(e.value) && |Utf8.Encode(e.key)| < LIMIT && Encodable(e.value)
    requires offset + |PackedEntry(e)| <= view.Length
    modifies view
    ensures size == |PackedEntry(e)|
    ensures view[..] == Overlay(old(view[..]), offset, PackedEntry(e))
    decreases e, 0
  {
    hide Representable, Encodable, Packed, PackedStr, Overlay;
    OverlayConcat(view[..], offset, PackedStr(e.key), Packed(e.value));
    size := EncodeStr(e.key, view, offset);
    var n := Encode(e.value, view, offset + size);
    size := size + n;
  }

  /** exports.encode: the buffer is just large enough for the encoding, and holds it. */
  method ExportsEncode(v: Value) returns (buffer: Option<array<byte>>)
    requires Representable(v)
    ensures buffer.Some? <==> Encodable(v)
    ensures buffer.Some? ==> fresh(buffer.value) && buffer.value[..] == Packed(v)
  {
    var size := EncodedSize(v);
    if size == None { return None; }
    var view := new byte[size.value](_ => 0);
    OverlayFills(view[..], Packed(v));
    var _ := Encode(v, view, 0);
    return Some(view);
  }
}
