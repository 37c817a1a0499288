/** chat.js against what the formats of the MessagePack specification stand for: what it reads, and what it writes. */
module JsFormats {
  import opened Bytes
  import Formats
  import opened JsEncoder
  import opened JsDecoder
  import Utf8

  /** x is nil, false or true. */
  predicate IsConstant(x: seq<byte>, v: Value) {
    || (x == [0xc0] && v == Null)
    || (x == [0xc2] && v == Bool(false))
    || (x == [0xc3] && v == Bool(true))
  }

  predicate IsSized(x: seq<byte>, kind: Kind, n: nat) {
    match kind
    case StrKind => Formats.IsStrHeader(x, n)
    case BinKind => Formats.IsBinHeader(x, n)
    case MapKind => Formats.IsMapHeader(x, n)
    case ArrayKind => Formats.IsArrayHeader(x, n)
  }

  /** The number behind the tag of a piece that stands in the buffer. */
  lemma NumberInside(b: seq<byte>, off: nat, x: seq<byte>)
    requires At(b, off, x) && |x| - 1 in {1, 2, 4, 8}
    ensures b[off] == x[0] && b[off + 1] == x[1]
    ensures Number(b, off, |x| - 1) == Some(Formats.Number(x[1..]))
  {
    var y := b[off..off + |x|];
    assert forall i :: 0 <= i < |x| ==> b[off + i] == y[i] == x[i];
    assert x[..|x|] == x;
    Formats.NumberBehind(x, |x| - 1);
  }

  /** An integer in any of the integer formats is read as the double next to its value. */
  lemma IntegerRead(b: seq<byte>, off: nat, x: seq<byte>, v: int)
    requires At(b, off, x) && Formats.IsInteger(x, v)
    ensures HeadAt(b, off) == Some(Scalar(Int(Rounded(v)), |x|))
  {
    hide Formats.Number, Rounded, At;
    SmallRounded(v);
    if |x| == 1 {
      OneByte(b, off, x);
    } else {
      NumberInside(b, off, x);
      hide Number;
    }
  }

  lemma OneByte(b: seq<byte>, off: nat, x: seq<byte>)
    requires At(b, off, x) && |x| == 1
    ensures off < |b| && b[off] == x[0]
  {
    assert b[off] == b[off..off + 1][0];
  }

  lemma SmallRounded(v: int)
    ensures -SAFE <= v <= SAFE ==> Rounded(v) == v
  {
  }

  /** A header of any str, bin, map or array format is read as the length that it stands for. */
  lemma HeaderRead(b: seq<byte>, off: nat, x: seq<byte>, kind: Kind, n: nat)
    requires At(b, off, x) && IsSized(x, kind, n)
    ensures HeadAt(b, off) == Some(Sized(kind, |x|, n))
  {
    hide Formats.Number, At;
    if |x| == 1 {
      OneByte(b, off, x);
    } else {
      NumberInside(b, off, x);
      hide Number;
    }
  }

  lemma ConstantRead(b: seq<byte>, off: nat, x: seq<byte>, v: Value)
    requires At(b, off, x) && IsConstant(x, v)
    ensures HeadAt(b, off) == Some(Scalar(v, 1))
  {
    OneByte(b, off, x);
  }

  lemma ByteNumber(x: seq<byte>)
    requires |x| == 2
    ensures Formats.Number(x[1..]) == x[1]
  {
    assert x[..2] == x;
    Formats.NumberBehind(x, 1);
  }

  lemma Be16Number(tag: byte, n: nat)
    requires n < 0x1_0000
    ensures var x := [tag] + Be16(n); |x| == 3 && x[0] == tag && Formats.Number(x[1..]) == n && x[1] == n / 0x100
  {
    var x := [tag] + Be16(n);
    assert x[..3] == x && x[1..3] == Be16(n);
    Formats.NumberBehind(x, 2);
    ReadBe16(n, x, 1);
  }

  lemma Be32Number(tag: byte, n: nat)
    requires n < LIMIT
    ensures var x := [tag] + Be32(n); |x| == 5 && x[0] == tag && Formats.Number(x[1..]) == n && x[1] == n / 0x100_0000
  {
    var x := [tag] + Be32(n);
    assert x[..5] == x && x[1..5] == Be32(n);
    Formats.NumberBehind(x, 4);
    ReadBe32(n, x, 1);
    assert n / 0x1_0000 / 0x100 == n / 0x100_0000;
  }

  /** Every integer is written in one of the integer formats, with its value. */
  lemma IntegerWritten(n: int)
    requires -0x8000_0000 <= n < 0x8000_0000
    ensures Formats.IsInteger(PackedInt(n), n)
  {
    hide Formats.Number, Be16, Be32;
    if 0x80 <= n < 0x100 { ByteNumber([0xcc, n]); }
    if 0x100 <= n < 0x1_0000 { Be16Number(0xcd, n); }
    if 0x1_0000 <= n { Be32Number(0xce, n); }
    if -0x80 <= n < -0x20 { ByteNumber([0xd0, n + 0x100]); }
    if -0x8000 <= n < -0x80 { Be16Number(0xd1, n + 0x1_0000); }
    if n < -0x8000 { Be32Number(0xd2, n + LIMIT); }
  }

  /** Every string, buffer, array and object is written with a header for its length, where there is one. */
  lemma HeadersWritten(n: nat)
    requires n < LIMIT
    ensures Formats.IsStrHeader(StrHeader(n), n) && Formats.IsBinHeader(BinHeader(n), n)
    ensures Formats.IsArrayHeader(ContainerHeader(n, true), n) && Formats.IsMapHeader(ContainerHeader(n, false), n)
  {
    hide Formats.Number, Be16, Be32;
    if n < 0x100 {
      ByteNumber([0xd9, n]);
      ByteNumber([0xc4, n]);
    } else if n < 0x1_0000 {
      Be16Number(0xda, n);
      Be16Number(0xc5, n);
    } else {
      Be32Number(0xdb, n);
      Be32Number(0xc6, n);
    }
    if n < 0x1_0000 {
      Be16Number(0xdc, n);
      Be16Number(0xde, n);
    } else {
      Be32Number(0xdd, n);
      Be32Number(0xdf, n);
    }
  }

  lemma ConstantsWritten(v: Value)
    requires v.Null? || v.Bool?
    ensures IsConstant(Packed(v), v)
  {
  }
}
