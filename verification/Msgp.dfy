/**
 The primitives of tinylib/msgp that the generated Go code calls, by what they do to
 bytes. A Go string is the sequence of its bytes. A reader is given what is left of the
 input and hands back what is left after it.
 */
module Msgp {
  import opened Bytes
  import opened Formats

  datatype Read<+T> = Fail | Got(value: T, rest: seq<byte>)

  const STR_LIMIT: nat := 0x1_0000_0000

  const UINT64_SIZE: nat := 9

  const UINT32_SIZE: nat := 5

  const STRING_PREFIX_SIZE: nat := 5

  const NIL_SIZE: nat := 1

  const NIL: byte := 0xc0

  /** AppendUint64 and WriteUint64: the shortest unsigned format. AppendUint32 agrees where it applies. */
  function AppendUint(n: uint64): (r: seq<byte>)
    ensures 1 <= |r| <= UINT64_SIZE
    ensures n < 0x1_0000_0000 ==> |r| <= UINT32_SIZE
  {
    if n < 0x80 then [n]
    else if n < 0x100 then [0xcc, n]
    else if n < 0x1_0000 then [0xcd] + Be16(n)
    else if n < 0x1_0000_0000 then [0xce] + Be32(n)
    else [0xcf] + Be64(n)
  }

  /** The shortest str header; the length is cut to 32 bits. */
  function StringHeader(length: nat): (r: seq<byte>)
    ensures |r| <= STRING_PREFIX_SIZE
  {
    if length < 0x20 then [0xa0 + length]
    else if length < 0x100 then [0xd9, length]
    else if length < 0x1_0000 then [0xda] + Be16(length)
    else [0xdb] + Be32(length % STR_LIMIT)
  }

  function AppendString(s: seq<byte>): (r: seq<byte>)
    ensures |r| <= STRING_PREFIX_SIZE + |s|
  {
    StringHeader(|s|) + s
  }

  /** Raw: an empty payload goes out as nil. */
  function AppendRaw(raw: seq<byte>): (r: seq<byte>)
    ensures |r| == if raw == [] then NIL_SIZE else |raw|
  {
    if raw == [] then [NIL] else raw
  }

  predicate IsNil(b: seq<byte>) {
    |b| > 0 && b[0] == NIL
  }

  function Take(b: seq<byte>, header: nat, length: nat): (r: Read<seq<byte>>)
    ensures r.Got? ==> |r.rest| + header <= |b|
  {
    if |b| < header + length then Fail else Got(b[header..header + length], b[header + length..])
  }

  function ReadUint64(b: seq<byte>): (r: Read<uint64>)
    ensures r.Got? ==> |r.rest| < |b|
  {
    if b == [] then Fail
    else if b[0] < 0x80 then Got(b[0], b[1..])
    else match b[0]
      case 0xcc => ReadUintOf(b, 1, false)
      case 0xcd => ReadUintOf(b, 2, false)
      case 0xce => ReadUintOf(b, 4, false)
      case 0xcf => ReadUintOf(b, 8, false)
      case 0xd0 => ReadUintOf(b, 1, true)
      case 0xd1 => ReadUintOf(b, 2, true)
      case 0xd2 => ReadUintOf(b, 4, true)
      case 0xd3 => ReadUintOf(b, 8, true)
      case _ => Fail
  }

  /** A number of the given width behind its tag; a negative one is an error. */
  function ReadUintOf(b: seq<byte>, width: nat, signed: bool): (r: Read<uint64>)
    ensures r.Got? ==> |r.rest| < |b|
  {
    if |b| <= width || width !in {1, 2, 4, 8} || (signed && 0x80 <= b[1]) then Fail
    else
      var n: nat := match width
        case 1 => b[1]
        case 2 => U16(b, 1)
        case 4 => U32(b, 1)
        case _ => U64(b, 1);
      Got(n, b[1 + width..])
  }

  /** ReadUint32Bytes: as ReadUint64, and a number that does not fit is an error. */
  function ReadUint32(b: seq<byte>): (r: Read<uint32>)
    ensures r.Got? ==> |r.rest| < |b|
  {
    match ReadUint64(b)
    case Fail => Fail
    case Got(n, rest) => if n < 0x1_0000_0000 then Got(n, rest) else Fail
  }

  function ReadString(b: seq<byte>): (r: Read<seq<byte>>)
    ensures r.Got? ==> |r.rest| < |b|
  {
    if b == [] then Fail
    else if 0xa0 <= b[0] < 0xc0 then Take(b, 1, b[0] - 0xa0)
    else if b[0] == 0xd9 && |b| >= 2 then Take(b, 2, b[1])
    else if b[0] == 0xda && |b| >= 3 then Take(b, 3, U16(b, 1))
    else if b[0] == 0xdb && |b| >= 5 then Take(b, 5, U32(b, 1))
    else Fail
  }

  /** ReadMapKeyZC: a str, or else a bin. */
  function ReadMapKey(b: seq<byte>): (r: Read<seq<byte>>)
    ensures r.Got? ==> |r.rest| < |b|
  {
    if b == [] then Fail
    else if b[0] == 0xc4 && |b| >= 2 then Take(b, 2, b[1])
    else if b[0] == 0xc5 && |b| >= 3 then Take(b, 3, U16(b, 1))
    else if b[0] == 0xc6 && |b| >= 5 then Take(b, 5, U32(b, 1))
    else ReadString(b)
  }

  function ReadArrayHeader(b: seq<byte>): (r: Read<nat>)
    ensures r.Got? ==> |r.rest| < |b|
  {
    if b == [] then Fail
    else if 0x90 <= b[0] < 0xa0 then Got(b[0] - 0x90, b[1..])
    else if b[0] == 0xdc && |b| >= 3 then Got(U16(b, 1), b[3..])
    else if b[0] == 0xdd && |b| >= 5 then Got(U32(b, 1), b[5..])
    else Fail
  }

  function ReadMapHeader(b: seq<byte>): (r: Read<nat>)
    ensures r.Got? ==> |r.rest| < |b|
  {
    if b == [] then Fail
    else if 0x80 <= b[0] < 0x90 then Got(b[0] - 0x80, b[1..])
    else if b[0] == 0xde && |b| >= 3 then Got(U16(b, 1), b[3..])
    else if b[0] == 0xdf && |b| >= 5 then Got(U32(b, 1), b[5..])
    else Fail
  }

  /** Skip: one well-formed object, whatever it is. The value is the bytes of the object. */
  function ReadObject(b: seq<byte>): (r: Read<seq<byte>>)
    ensures r.Got? ==> |r.rest| < |b|
  {
    match Skip(b, 0, 1)
    case None => Fail
    case Some(k) => Got(b[..k], b[k..])
  }

  /** Raw: one object, verbatim, except that nil is the empty payload. */
  function ReadRaw(b: seq<byte>): (r: Read<seq<byte>>)
    ensures r.Got? ==> |r.rest| < |b|
  {
    match ReadObject(b)
    case Fail => Fail
    case Got(raw, rest) => Got(if IsNil(raw) then [] else raw, rest)
  }

  /** A payload that Raw brings across as it is. */
  predicate Payload(raw: seq<byte>) {
    raw == [] || (OneObject(raw) && !IsNil(raw))
  }

  // ---- reading what was written --------------------------------------------------------

  lemma Behind(x: seq<byte>, rest: seq<byte>)
    ensures At(x + rest, 0, x) && (x + rest)[|x|..] == rest
  {
    assert (x + rest)[0..|x|] == x;
  }

  lemma UintBack(n: uint64, rest: seq<byte>)
    ensures ReadUint64(AppendUint(n) + rest) == Got(n, rest)
  {
    var x := AppendUint(n);
    var b := x + rest;
    Behind(x, rest);
    assert b[0] == x[0];
    if 0x80 <= n {
      assert x == [x[0]] + x[1..];
      AtConcat(b, 0, [x[0]], x[1..]);
      if n < 0x100 {
        assert b[1] == x[1];
      } else if n < 0x1_0000 {
        ReadBe16(n, b, 1);
      } else if n < 0x1_0000_0000 {
        ReadBe32(n, b, 1);
      } else {
        ReadBe64(n, b, 1);
      }
    }
  }

  /** Whatever bytes are read as n, those of AppendUint are no more. */
  lemma ShortestUint(n: uint64, b: seq<byte>)
    requires ReadUint64(b) == Got(n, [])
    ensures |AppendUint(n)| <= |b|
  {
  }

  /** Whatever bytes are read as the string s, those of AppendString are no more. */
  lemma ShortestString(s: seq<byte>, b: seq<byte>)
    requires ReadString(b) == Got(s, [])
    ensures |AppendString(s)| <= |b|
  {
  }

  lemma StringHeaderBack(n: nat, b: seq<byte>)
    requires n < STR_LIMIT && At(b, 0, StringHeader(n))
    ensures ReadString(b) == Take(b, |StringHeader(n)|, n)
  {
    var h := StringHeader(n);
    assert b[0] == b[0..|h|][0];
    if 0x20 <= n {
      assert h == [h[0]] + h[1..];
      AtConcat(b, 0, [h[0]], h[1..]);
      if n < 0x100 {
        assert b[1] == b[0..|h|][1];
      } else if n < 0x1_0000 {
        ReadBe16(n, b, 1);
      } else {
        ReadBe32(n, b, 1);
      }
    }
  }

  lemma StringBack(s: seq<byte>, rest: seq<byte>)
    requires |s| < STR_LIMIT
    ensures ReadString(AppendString(s) + rest) == Got(s, rest)
  {
    hide StringHeader, ReadString;
    var h := StringHeader(|s|);
    var b := AppendString(s) + rest;
    assert b == h + (s + rest);
    Behind(h, s + rest);
    StringHeaderBack(|s|, b);
    assert b[|h|..|h| + |s|] == s && b[|h| + |s|..] == rest;
  }

  /** Exactly the payloads come back from Raw as they went in. */
  lemma RawBack(raw: seq<byte>, rest: seq<byte>)
    ensures Payload(raw) ==> ReadRaw(AppendRaw(raw) + rest) == Got(raw, rest)
    ensures ReadRaw(AppendRaw(raw) + rest).Got? ==> Payload(ReadRaw(AppendRaw(raw) + rest).value)
  {
    var x := AppendRaw(raw);
    var b := x + rest;
    if Payload(raw) {
      assert OneObject(x);
      SkipExtends(x, 0, 1, rest);
      assert b[..|x|] == x && b[|x|..] == rest;
    }
    RawIsPayload(b);
  }

  lemma RawIsPayload(b: seq<byte>)
    ensures ReadRaw(b).Got? ==> Payload(ReadRaw(b).value)
  {
    if ReadRaw(b).Got? {
      SkipExact(b, 0, 1);
    }
  }

  // ---- readers do not look behind what they take ----------------------------------------

  lemma TakeExtends(b: seq<byte>, header: nat, length: nat, x: seq<byte>)
    requires Take(b, header, length).Got?
    ensures Take(b + x, header, length) == Got(Take(b, header, length).value, Take(b, header, length).rest + x)
  {
    assert (b + x)[header..header + length] == b[header..header + length];
    assert (b + x)[header + length..] == b[header + length..] + x;
  }

  lemma UintOfExtends(b: seq<byte>, width: nat, signed: bool, x: seq<byte>)
    requires ReadUintOf(b, width, signed).Got?
    ensures ReadUintOf(b + x, width, signed) ==
      Got(ReadUintOf(b, width, signed).value, ReadUintOf(b, width, signed).rest + x)
  {
    assert forall i :: 0 <= i < |b| ==> (b + x)[i] == b[i];
    assert (b + x)[1 + width..] == b[1 + width..] + x;
  }

  lemma UintExtends(b: seq<byte>, x: seq<byte>)
    ensures ReadUint64(b).Got? ==> ReadUint64(b + x) == Got(ReadUint64(b).value, ReadUint64(b).rest + x)
  {
    hide ReadUintOf;
    if ReadUint64(b).Got? {
      assert (b + x)[0] == b[0];
      if b[0] < 0x80 {
        assert (b + x)[1..] == b[1..] + x;
      } else {
        var t: int := b[0];
        var width := if t % 4 == 0 then 1 else if t % 4 == 1 then 2 else if t % 4 == 2 then 4 else 8;
        UintOfExtends(b, width, 0xd0 <= t, x);
      }
    }
  }

  lemma ArrayHeaderExtends(b: seq<byte>, x: seq<byte>)
    ensures ReadArrayHeader(b).Got? ==>
      ReadArrayHeader(b + x) == Got(ReadArrayHeader(b).value, ReadArrayHeader(b).rest + x)
  {
    assert forall i :: 0 <= i < |b| ==> (b + x)[i] == b[i];
    if ReadArrayHeader(b).Got? {
      var k := |b| - |ReadArrayHeader(b).rest|;
      assert (b + x)[k..] == b[k..] + x;
    }
  }

  lemma StringExtends(b: seq<byte>, x: seq<byte>)
    ensures ReadString(b).Got? ==> ReadString(b + x) == Got(ReadString(b).value, ReadString(b).rest + x)
  {
    assert forall i :: 0 <= i < |b| ==> (b + x)[i] == b[i];
    if ReadString(b).Got? {
      var (header, length) :=
        if b[0] < 0xc0 then (1, b[0] as int - 0xa0)
        else if b[0] == 0xd9 then (2, b[1] as int)
        else if b[0] == 0xda then (3, U16(b, 1))
        else (5, U32(b, 1));
      TakeExtends(b, header, length, x);
    }
  }

  lemma RawExtends(b: seq<byte>, x: seq<byte>)
    ensures ReadObject(b).Got? ==> ReadObject(b + x) == Got(ReadObject(b).value, ReadObject(b).rest + x)
    ensures ReadRaw(b).Got? ==> ReadRaw(b + x) == Got(ReadRaw(b).value, ReadRaw(b).rest + x)
  {
    if ReadObject(b).Got? {
      var k := Skip(b, 0, 1).value;
      SkipExtends(b, 0, 1, x);
      assert (b + x)[..k] == b[..k] && (b + x)[k..] == b[k..] + x;
    }
  }

  lemma LeafObject(b: seq<byte>, size: nat)
    requires HeaderAt(b, 0) == Some(Leaf(size)) && size <= |b|
    ensures ReadObject(b) == Got(b[..size], b[size..])
  {
    assert Skip(b, size, 0) == Some(size);
  }

  /** A string, a map key or a number is one object: reading it takes what Skip takes. */
  lemma KeyIsObject(b: seq<byte>)
    ensures ReadMapKey(b).Got? ==> ReadObject(b).Got? && ReadObject(b).rest == ReadMapKey(b).rest
  {
    if ReadMapKey(b).Got? && 0xc4 <= b[0] <= 0xc6 {
      BinOnly(b);
      hide ReadString, Skip;
      LeafObject(b, |b| - |ReadMapKey(b).rest|);
    } else {
      hide ReadString, HeaderAt, Skip;
      StringIsObject(b);
    }
  }

  lemma StringIsObject(b: seq<byte>)
    ensures ReadString(b).Got? ==> ReadObject(b).Got? && ReadObject(b).rest == ReadString(b).rest
  {
    if ReadString(b).Got? {
      LeafObject(b, |b| - |ReadString(b).rest|);
    }
  }

  lemma UintIsObject(b: seq<byte>)
    ensures ReadUint64(b).Got? ==> ReadObject(b).Got? && ReadObject(b).rest == ReadUint64(b).rest
  {
    if ReadUint64(b).Got? {
      LeafObject(b, |b| - |ReadUint64(b).rest|);
    }
  }

  /** b begins with n objects, and rest is what stands behind them. */
  predicate Objects(b: seq<byte>, n: nat, rest: seq<byte>) {
    |rest| <= |b| && Skip(b, 0, n) == Some(|b| - |rest|) && rest == b[|b| - |rest|..]
  }

  lemma NoObjects(b: seq<byte>)
    ensures Objects(b, 0, b)
  {
  }

  lemma OneMoreObject(b: seq<byte>, n: nat, rest: seq<byte>)
    requires ReadObject(b).Got? && Objects(ReadObject(b).rest, n, rest)
    ensures Objects(b, n + 1, rest)
  {
    hide HeaderAt, Skip;
    var k := |b| - |ReadObject(b).rest|;
    assert ReadObject(b).rest == b[k..];
    SkipShift(b, k, 0, n);
    SkipSum(b, 0, 1, n);
  }

  lemma ArrayIsObject(b: seq<byte>, rest: seq<byte>)
    requires ReadArrayHeader(b).Got? && Objects(ReadArrayHeader(b).rest, ReadArrayHeader(b).value, rest)
    ensures ReadObject(b).Got? && ReadObject(b).rest == rest
  {
    hide Skip;
    var n, body := ReadArrayHeader(b).value, ReadArrayHeader(b).rest;
    ArrayHeaderIsNode(b);
    var size := |b| - |body|;
    SkipNode(b, size, n);
    SkipShift(b, size, 0, n);
  }

  lemma ArrayHeaderIsNode(b: seq<byte>)
    requires ReadArrayHeader(b).Got?
    ensures HeaderAt(b, 0) == Some(Node(|b| - |ReadArrayHeader(b).rest|, ReadArrayHeader(b).value))
    ensures ReadArrayHeader(b).rest == b[|b| - |ReadArrayHeader(b).rest|..]
  {
  }

  lemma SkipNode(b: seq<byte>, size: nat, children: nat)
    requires HeaderAt(b, 0) == Some(Node(size, children))
    ensures Skip(b, 0, 1) == Skip(b, size, children)
  {
    hide HeaderAt;
  }

  lemma NilIsObject(b: seq<byte>)
    ensures IsNil(b) ==> ReadObject(b).Got? && ReadObject(b).rest == b[1..]
  {
    if IsNil(b) {
      LeafObject(b, 1);
    }
  }

  // ---- what is read, by the formats of the specification ------------------------------------

  /** A number is read exactly from the integers of any format that are not negative, and is their value. */
  lemma UintExactly(b: seq<byte>, n: uint64, k: nat)
    requires k <= |b|
    ensures ReadUint64(b) == Got(n, b[k..]) <==> IsInteger(b[..k], n)
  {
    hide Number;
    if k > 0 { assert b[..k][0] == b[0]; }
    if k - 1 in {1, 2, 4, 8} {
      NumberBehind(b, k - 1);
      assert b[..k][1] == b[1];
    }
  }

  /** Nothing else is read as a number, and a negative number is refused. */
  lemma UintFails(b: seq<byte>)
    ensures ReadUint64(b).Fail? <==> forall k: nat, n: uint64 :: k <= |b| ==> !IsInteger(b[..k], n)
  {
    if ReadUint64(b).Got? {
      var n, rest := ReadUint64(b).value, ReadUint64(b).rest;
      var k := |b| - |rest|;
      assert rest == b[k..];
      UintExactly(b, n, k);
    }
    forall k: nat, n: uint64 | k <= |b| && IsInteger(b[..k], n) ensures ReadUint64(b).Got? {
      UintExactly(b, n, k);
    }
  }

  lemma HeaderBytes(b: seq<byte>, k: nat)
    requires 0 < k <= |b|
    ensures b[..k][0] == b[0] && (k - 1 in {1, 2, 4} ==> b[..k][1..] == b[1..k])
    ensures k - 1 in {1, 2, 4} ==>
      Number(b[..k][1..]) == match k - 1 case 1 => b[1] as nat case 2 => U16(b, 1) case _ => U32(b, 1)
  {
    if k - 1 in {1, 2, 4} { NumberBehind(b, k - 1); }
  }

  lemma TakeExactly(b: seq<byte>, header: nat, length: nat, s: seq<byte>, k: nat)
    requires k <= |b|
    ensures Take(b, header, length) == Got(s, b[k..]) <==>
      |s| == length && k == header + length && b[header..k] == s
  {
    if Take(b, header, length) == Got(s, b[k..]) {
      assert |b[k..]| == |b[header + length..]|;
    }
  }

  /** A string is read exactly from the str formats. */
  lemma StringExactly(b: seq<byte>, s: seq<byte>, k: nat)
    requires k <= |b|
    ensures ReadString(b) == Got(s, b[k..]) <==> IsStr(b[..k], s)
  {
    hide Number, U16, U32, Take;
    if |s| < k {
      var h := k - |s|;
      assert b[..k][..h] == b[..h] && b[..k][h..] == b[h..k];
      HeaderBytes(b, h);
      TakeExactly(b, h, |s|, s, k);
    }
    if ReadString(b) == Got(s, b[k..]) {
      var (header, length) :=
        if b[0] < 0xc0 then (1, b[0] as int - 0xa0)
        else if b[0] == 0xd9 then (2, b[1] as int)
        else if b[0] == 0xda then (3, U16(b, 1))
        else (5, U32(b, 1));
      TakeExactly(b, header, length, s, k);
    }
  }

  /** A map key is read exactly from the str and bin formats. */
  lemma MapKeyExactly(b: seq<byte>, s: seq<byte>, k: nat)
    requires k <= |b|
    ensures ReadMapKey(b) == Got(s, b[k..]) <==> IsStr(b[..k], s) || IsBin(b[..k], s)
  {
    hide Number, U16, U32, Take, ReadString;
    StringExactly(b, s, k);
    if |s| < k {
      var h := k - |s|;
      assert b[..k][..h] == b[..h] && b[..k][h..] == b[h..k];
      HeaderBytes(b, h);
      TakeExactly(b, h, |s|, s, k);
    }
    if ReadMapKey(b) == Got(s, b[k..]) && 0xc4 <= b[0] <= 0xc6 {
      BinOnly(b);
      var (header, length) :=
        if b[0] == 0xc4 then (2, b[1] as int) else if b[0] == 0xc5 then (3, U16(b, 1)) else (5, U32(b, 1));
      TakeExactly(b, header, length, s, k);
    }
  }

  lemma BinOnly(b: seq<byte>)
    requires b != [] && 0xc4 <= b[0] <= 0xc6
    ensures ReadString(b).Fail?
  {
  }

  /** The array and map headers are read exactly from their formats. */
  lemma HeadersExactly(b: seq<byte>, n: nat, k: nat)
    requires k <= |b|
    ensures ReadArrayHeader(b) == Got(n, b[k..]) <==> IsArrayHeader(b[..k], n)
    ensures ReadMapHeader(b) == Got(n, b[k..]) <==> IsMapHeader(b[..k], n)
  {
    hide Number, U16, U32;
    if 0 < k { HeaderBytes(b, k); }
    if ReadArrayHeader(b) == Got(n, b[k..]) {
      assert |ReadArrayHeader(b).rest| == |b| - k;
    }
    if ReadMapHeader(b) == Got(n, b[k..]) {
      assert |ReadMapHeader(b).rest| == |b| - k;
    }
  }
}
