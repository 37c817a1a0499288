/**
 utf8Write, utf8Read and utf8ByteCount of chat.js, over JavaScript strings: sequences
 of 16-bit units, surrogates included.

 The masks and shifts of the original are written as ranges, divisions and remainders:
 x >>> 6 & 0x1f is x / 0x40 % 0x20, and x & 0xe0 === 0xc0 is 0xc0 <= x < 0xe0.
 */
module Utf8 {
  import opened Bytes

  type unit = x: int | 0 <= x < 0x1_0000

  type JsString = seq<unit>

  /**
   What utf8Write stores for one unit. A char code is below 0x10000, so the four byte
   form of the original and the error behind it are never reached.
   */
  function UnitBytes(c: unit): (r: seq<byte>)
    ensures 1 <= |r| <= 3
  {
    if c < 0x80 then [c % 0x80]
    else if c < 0x800 then [c / 0x40 % 0x20 + 0xc0, c % 0x40 + 0x80]
    else [c / 0x1000 % 0x10 + 0xe0, c / 0x40 % 0x40 + 0x80, c % 0x40 + 0x80]
  }

  function Encode(s: JsString): seq<byte> {
    if s == [] then [] else UnitBytes(s[0]) + Encode(s[1..])
  }

  /** A run of DataView.setUint8 calls at consecutive offsets; ok is false once one of them is out of range. */
  method SetBytes(view: array<byte>, offset: nat, bytes: seq<byte>) returns (ok: bool)
    modifies view
    ensures ok == Fits(view.Length, offset, bytes)
    ensures view[..] == Overlay(old(view[..]), offset, bytes)
  {
    for i := 0 to |bytes|
      invariant Fits(view.Length, offset, bytes[..i])
      invariant Overlay(view[..], offset + i, bytes[i..]) == Overlay(old(view[..]), offset, bytes)
    {
      if view.Length <= offset + i {
        return false;
      }
      ghost var before := view[..];
      view[offset + i] := bytes[i];
      assert view[..] == before[offset + i := bytes[i..][0]] && bytes[i..][1..] == bytes[i + 1..];
    }
    return true;
  }

  method Write(view: array<byte>, offset: nat, s: JsString) returns (ok: bool)
    modifies view
    ensures ok == Fits(view.Length, offset, Encode(s))
    ensures view[..] == Overlay(old(view[..]), offset, Encode(s))
  {
    var at: nat := offset;
    for i := 0 to |s|
      invariant Overlay(view[..], at, Encode(s[i..])) == Overlay(old(view[..]), offset, Encode(s))
      invariant at + |Encode(s[i..])| == offset + |Encode(s)|
      invariant at == offset || at <= view.Length
    {
      ghost var before, rest := view[..], Encode(s[i + 1..]);
      assert s[i..][1..] == s[i + 1..];
      var bytes := UnitBytes(s[i]);
      ok := SetBytes(view, at, bytes);
      OverlayConcat(before, at, bytes, rest);
      if !ok {
        OverlayRefused(before, at, bytes, rest);
        return;
      }
      at := at + |bytes|;
    }
    ok := true;
  }

  method ByteCount(s: JsString) returns (count: nat)
    ensures count == |Encode(s)|
  {
    count := 0;
    for i := 0 to |s|
      invariant count + |Encode(s[i..])| == |Encode(s)|
    {
      assert s[i..][1..] == s[i + 1..];
      if s[i] < 0x80 {
        count := count + 1;
      } else if s[i] < 0x800 {
        count := count + 2;
      } else {
        count := count + 3;
      }
    }
  }

  /** The unit read from the lead byte at i, with how many bytes it took; None where utf8Read throws. */
  function ReadUnit(b: seq<byte>, i: nat): (r: Option<(unit, nat)>)
    ensures r.Some? ==> 1 <= r.value.1 <= 4 && i + r.value.1 <= |b|
  {
    if |b| <= i then None else
    var lead: int := b[i];
    if lead < 0x80 then Some((lead, 1))
    else if 0xc0 <= lead < 0xe0 then
      if |b| <= i + 1 then None else Some((lead % 0x10 * 0x40 + b[i + 1] as int % 0x40, 2))
    else if 0xe0 <= lead < 0xf0 then
      if |b| <= i + 2 then None
      else Some((lead % 0x10 * 0x1000 + b[i + 1] as int % 0x40 * 0x40 + b[i + 2] as int % 0x40, 3))
    else if 0xf0 <= lead < 0xf8 then
      if |b| <= i + 3 then None
      else
        var codePoint := lead % 8 * 0x4_0000 + b[i + 1] as int % 0x40 * 0x1000
          + b[i + 2] as int % 0x40 * 0x40 + b[i + 3] as int % 0x40;
        Some((codePoint % 0x1_0000, 4))
    else None
  }

  /** Units from i until end is reached or passed: a character cut by end is still read in full. */
  function Decode(b: seq<byte>, i: nat, end: nat): Option<JsString>
    decreases end - i
  {
    if end <= i then Some([]) else
    match ReadUnit(b, i)
    case None => None
    case Some((c, n)) => Prepend([c], Decode(b, i + n, end))
  }

  function Prepend(first: JsString, s: Option<JsString>): Option<JsString> {
    if s.Some? then Some(first + s.value) else None
  }

  lemma PrependTwice(first: JsString, second: JsString, s: Option<JsString>)
    ensures Prepend(first, Prepend(second, s)) == Prepend(first + second, s)
  {
    if s.Some? { assert first + (second + s.value) == first + second + s.value; }
  }

  method Read(b: seq<byte>, offset: nat, length: nat) returns (s: Option<JsString>)
    ensures s == Decode(b, offset, offset + length)
  {
    var read: JsString := [];
    assert forall t: JsString :: [] + t == t;
    var i, end := offset, offset + length;
    while i < end
      invariant Decode(b, offset, end) == Prepend(read, Decode(b, i, end))
    {
      var step := ReadUnit(b, i);
      if step.None? { return None; }
      PrependTwice(read, [step.value.0], Decode(b, i + step.value.1, end));
      read, i := read + [step.value.0], i + step.value.1;
    }
    assert read + [] == read;
    return Some(read);
  }

  /** What comes back for a unit: the mask 0x0f of the two byte case drops the bit worth 0x400. */
  function RecodeUnit(c: unit): unit {
    if 0x400 <= c < 0x800 then c - 0x400 else c
  }

  function Recode(s: JsString): (r: JsString)
    ensures |r| == |s| && forall i :: 0 <= i < |s| ==> r[i] == RecodeUnit(s[i])
  {
    if s == [] then [] else [RecodeUnit(s[0])] + Recode(s[1..])
  }

  /** No unit that utf8Read gets wrong. */
  predicate Clean(s: JsString) {
    forall c :: c in s ==> !(0x400 <= c < 0x800)
  }

  lemma TwoByteUnit(c: unit)
    requires 0x80 <= c < 0x800
    ensures var lead := c / 0x40 % 0x20 + 0xc0;
      && 0xc0 <= lead < 0xe0
      && lead % 0x10 * 0x40 + (c % 0x40 + 0x80) % 0x40 == RecodeUnit(c)
      && c == 0x40 * (lead - 0xc0) + c % 0x40
  {
    var q, r := c / 0x40, c % 0x40;
    assert c == 0x40 * q + r && 2 <= q < 0x20;
    assert q % 0x20 == q && (r + 0x80) % 0x40 == r;
    assert (q + 0xc0) % 0x10 == if q < 0x10 then q else q - 0x10;
  }

  lemma ThreeByteUnit(c: unit)
    requires 0x800 <= c
    ensures var lead, mid := c / 0x1000 % 0x10 + 0xe0, c / 0x40 % 0x40 + 0x80;
      && 0xe0 <= lead < 0xf0
      && lead % 0x10 * 0x1000 + mid % 0x40 * 0x40 + (c % 0x40 + 0x80) % 0x40 == c
      && c == 0x1000 * (lead - 0xe0) + 0x40 * (mid - 0x80) + c % 0x40
  {
    var p, q, r := c / 0x1000, c / 0x40 % 0x40, c % 0x40;
    assert c / 0x40 == 0x40 * p + q;
    assert c == 0x1000 * p + 0x40 * q + r && p < 0x10;
    assert (p + 0xe0) % 0x10 == p && (q + 0x80) % 0x40 == q && (r + 0x80) % 0x40 == r;
  }

  lemma ReadUnitBytes(b: seq<byte>, i: nat, c: unit)
    requires At(b, i, UnitBytes(c))
    ensures ReadUnit(b, i) == Some((RecodeUnit(c), |UnitBytes(c)|))
  {
    var u := UnitBytes(c);
    var got := b[i..i + |u|];
    assert b[i] == got[0];
    if 0x80 <= c < 0x800 {
      TwoByteUnit(c);
      assert b[i + 1] == got[1];
    } else if 0x800 <= c {
      ThreeByteUnit(c);
      assert b[i + 1] == got[1] && b[i + 2] == got[2];
    }
  }

  /** Reading what was written gives Recode of it, wherever it was written. */
  lemma {:induction false} ReadBack(b: seq<byte>, i: nat, s: JsString)
    requires At(b, i, Encode(s))
    ensures Decode(b, i, i + |Encode(s)|) == Some(Recode(s))
    decreases |s|
  {
    hide UnitBytes, ReadUnit, RecodeUnit;
    if s == [] {
    } else {
      AtConcat(b, i, UnitBytes(s[0]), Encode(s[1..]));
      ReadUnitBytes(b, i, s[0]);
      ReadBack(b, i + |UnitBytes(s[0])|, s[1..]);
    }
  }

  lemma RecodeIsClean(s: JsString)
    ensures Clean(Recode(s))
    ensures Recode(s) == s <==> Clean(s)
  {
    hide Recode, RecodeUnit;
    forall c | c in Recode(s) ensures !(0x400 <= c < 0x800) {
      var i :| 0 <= i < |s| && Recode(s)[i] == c;
      UnitIsClean(s[i]);
    }
    if Clean(s) {
      forall i | 0 <= i < |s| ensures Recode(s)[i] == s[i] {
        assert s[i] in s;
        UnitIsClean(s[i]);
      }
    }
  }

  lemma UnitIsClean(c: unit)
    ensures !(0x400 <= RecodeUnit(c) < 0x800)
    ensures RecodeUnit(c) == c <==> !(0x400 <= c < 0x800)
  {
  }

  /** The round trip of a string is the identity exactly when no unit lies in 0x400..0x7FF. */
  lemma RoundTripExactly(s: JsString)
    ensures Decode(Encode(s), 0, |Encode(s)|) == Some(Recode(s))
    ensures Decode(Encode(s), 0, |Encode(s)|) == Some(s) <==> Clean(s)
  {
    hide Encode, Decode, Recode, Clean;
    assert Encode(s)[0..|Encode(s)|] == Encode(s);
    ReadBack(Encode(s), 0, s);
    RecodeIsClean(s);
  }

  /** For one, the Cyrillic letter U+044F comes back as the Latin letter O. */
  lemma CyrillicIsLost()
    ensures Decode(Encode([0x44f]), 0, |Encode([0x44f])|) == Some([0x4f])
  {
    var s: JsString := [0x44f];
    RoundTripExactly(s);
    assert Recode(s) == [0x4f];
  }

  /** More bytes behind the buffer never change a read that succeeded. */
  lemma {:induction false} DecodeExtends(b: seq<byte>, i: nat, end: nat, x: seq<byte>)
    requires Decode(b, i, end).Some?
    ensures Decode(b + x, i, end) == Decode(b, i, end)
    decreases end - i
  {
    if end <= i {
    } else {
      assert forall k :: 0 <= k < |b| ==> (b + x)[k] == b[k];
      assert ReadUnit(b + x, i) == ReadUnit(b, i);
      DecodeExtends(b, i + ReadUnit(b, i).value.1, end, x);
    }
  }

  /** The table of section 3 of RFC 3629: o is the encoding of character number c. */
  predicate Rfc3629Char(c: nat, o: seq<byte>) {
    && !(0xd800 <= c <= 0xdfff)
    && (forall i :: 1 <= i < |o| ==> 0x80 <= o[i] < 0xc0)
    && match |o|
       case 1 => c <= 0x7f && o[0] == c
       case 2 => 0x80 <= c <= 0x7ff && 0xc0 <= o[0] < 0xe0 &&
         c == 0x40 * (o[0] as int - 0xc0) + (o[1] as int - 0x80)
       case 3 => 0x800 <= c <= 0xffff && 0xe0 <= o[0] < 0xf0 &&
         c == 0x1000 * (o[0] as int - 0xe0) + 0x40 * (o[1] as int - 0x80) + (o[2] as int - 0x80)
       case 4 => 0x1_0000 <= c <= 0x10_ffff && 0xf0 <= o[0] < 0xf8 &&
         c == 0x4_0000 * (o[0] as int - 0xf0) + 0x1000 * (o[1] as int - 0x80)
              + 0x40 * (o[2] as int - 0x80) + (o[3] as int - 0x80)
       case _ => false
  }

  predicate Rfc3629(s: seq<nat>, o: seq<byte>) {
    if s == [] then o == []
    else exists k :: 1 <= k <= |o| && Rfc3629Char(s[0], o[..k]) && Rfc3629(s[1..], o[k..])
  }

  predicate HasSurrogate(s: JsString) {
    exists c :: c in s && 0xd800 <= c <= 0xdfff
  }

  lemma SextetsOf(a: nat, b: nat, d: nat)
    requires b < 0x40 && d < 0x40
    ensures var c := 0x1000 * a + 0x40 * b + d;
      c / 0x1000 == a && c / 0x40 % 0x40 == b && c % 0x40 == d
  {
    var c := 0x1000 * a + 0x40 * b + d;
    assert c == 0x40 * (0x40 * a + b) + d;
    assert c / 0x40 == 0x40 * a + b && c % 0x40 == d;
  }

  lemma TwoRfcBytes(c: unit, lead: byte, last: byte)
    requires 0x80 <= c < 0x800 && 0xc0 <= lead < 0xe0 && 0x80 <= last < 0xc0
    requires c == 0x40 * (lead - 0xc0) + (last - 0x80)
    ensures UnitBytes(c) == [lead, last]
  {
    SextetsOf(0, lead - 0xc0, last - 0x80);
  }

  lemma ThreeRfcBytes(c: unit, lead: byte, mid: byte, last: byte)
    requires 0x800 <= c && 0xe0 <= lead < 0xf0 && 0x80 <= mid < 0xc0 && 0x80 <= last < 0xc0
    requires c == 0x1000 * (lead - 0xe0) + 0x40 * (mid - 0x80) + (last - 0x80)
    ensures UnitBytes(c) == [lead, mid, last]
  {
    SextetsOf(lead - 0xe0, mid - 0x80, last - 0x80);
  }

  lemma RfcBytesUnique(c: unit, o: seq<byte>)
    requires Rfc3629Char(c, o)
    ensures o == UnitBytes(c)
  {
    if |o| == 1 {
      assert UnitBytes(c) == [c];
    } else {
      hide UnitBytes;
      if |o| == 2 {
        TwoRfcBytes(c, o[0], o[1]);
      } else if |o| == 3 {
        ThreeRfcBytes(c, o[0], o[1], o[2]);
      }
    }
  }

  lemma CharBytes(c: unit, o: seq<byte>)
    ensures Rfc3629Char(c, o) <==> !(0xd800 <= c <= 0xdfff) && o == UnitBytes(c)
  {
    if 0x80 <= c < 0x800 {
      TwoByteUnit(c);
    } else if 0x800 <= c {
      ThreeByteUnit(c);
    }
    if Rfc3629Char(c, o) {
      RfcBytesUnique(c, o);
    }
  }

  lemma SurrogateInTail(s: JsString)
    requires s != []
    ensures HasSurrogate(s) <==> 0xd800 <= s[0] <= 0xdfff || HasSurrogate(s[1..])
  {
    assert s == [s[0]] + s[1..];
    assert s[0] in s;
    assert forall c :: c in s[1..] ==> c in s;
    assert forall c :: c in s ==> c == s[0] || c in s[1..];
  }

  /** utf8Write follows RFC 3629, and only it does, on exactly the strings without surrogates. */
  lemma {:induction false} FollowsRfc3629(s: JsString, o: seq<byte>)
    ensures Rfc3629(s, o) <==> !HasSurrogate(s) && o == Encode(s)
  {
    if s == [] {
    } else {
      var first := UnitBytes(s[0]);
      SurrogateInTail(s);
      forall k | 1 <= k <= |o|
        ensures Rfc3629Char(s[0], o[..k]) && Rfc3629(s[1..], o[k..])
          <==> !HasSurrogate(s) && o == Encode(s) && k == |first|
      {
        CharBytes(s[0], o[..k]);
        FollowsRfc3629(s[1..], o[k..]);
        assert o == o[..k] + o[k..];
        if o == Encode(s) && k == |first| {
          assert o[..k] == first && o[k..] == Encode(s[1..]);
        }
      }
      if !HasSurrogate(s) && o == Encode(s) {
        assert 1 <= |first| <= |o|;
        assert Rfc3629Char(s[0], o[..|first|]) && Rfc3629(s[1..], o[|first|..]);
      }
    }
  }

  /** What utf8Read makes of a character: a unit, without the bits that it drops. */
  function SeenAs(c: nat): unit {
    if 0x400 <= c < 0x800 then c - 0x400 else c % 0x1_0000
  }

  function AllSeen(s: seq<nat>): JsString {
    if s == [] then [] else [SeenAs(s[0])] + AllSeen(s[1..])
  }

  lemma ReadChar(b: seq<byte>, i: nat, c: nat, o: seq<byte>)
    requires At(b, i, o) && Rfc3629Char(c, o)
    ensures ReadUnit(b, i) == Some((SeenAs(c), |o|))
  {
    assert forall k :: 0 <= k < |o| ==> b[i..i + |o|][k] == b[i + k] == o[k];
    if |o| == 2 {
      TwoByteChar(c, o[0], o[1]);
    } else if |o| == 3 {
      ThreeByteChar(c, o[0], o[1], o[2]);
    } else if |o| == 4 {
      FourByteChar(c, o[0], o[1], o[2], o[3]);
    }
  }

  lemma TwoByteChar(c: nat, lead: byte, last: byte)
    requires 0xc0 <= lead < 0xe0 && 0x80 <= last < 0xc0 && 0x80 <= c < 0x800
    requires c == 0x40 * (lead as int - 0xc0) + (last as int - 0x80)
    ensures lead % 0x10 * 0x40 + last % 0x40 == SeenAs(c)
  {
  }

  lemma ThreeByteChar(c: nat, lead: byte, mid: byte, last: byte)
    requires 0xe0 <= lead < 0xf0 && 0x80 <= mid < 0xc0 && 0x80 <= last < 0xc0 && 0x800 <= c
    requires c == 0x1000 * (lead as int - 0xe0) + 0x40 * (mid as int - 0x80) + (last as int - 0x80)
    ensures lead % 0x10 * 0x1000 + mid % 0x40 * 0x40 + last % 0x40 == SeenAs(c)
  {
  }

  lemma FourByteChar(c: nat, lead: byte, second: byte, third: byte, last: byte)
    requires 0xf0 <= lead < 0xf8 && 0x80 <= second < 0xc0 && 0x80 <= third < 0xc0 && 0x80 <= last < 0xc0
    requires 0x800 <= c && c == 0x4_0000 * (lead as int - 0xf0) + 0x1000 * (second as int - 0x80)
      + 0x40 * (third as int - 0x80) + (last as int - 0x80)
    ensures lead % 8 * 0x4_0000 + second % 0x40 * 0x1000 + third % 0x40 * 0x40 + last % 0x40 == c
  {
  }

  /**
   utf8Read takes any text that follows RFC 3629, one unit to a character: the character itself below 0x400
   and from 0x800 to 0xffff, and otherwise what is left of it without its highest bits.
   */
  lemma {:induction false} ReadsRfc3629(b: seq<byte>, i: nat, s: seq<nat>, o: seq<byte>)
    requires At(b, i, o) && Rfc3629(s, o)
    ensures Decode(b, i, i + |o|) == Some(AllSeen(s))
    decreases |s|
  {
    hide ReadUnit, Rfc3629Char;
    if s == [] {
    } else {
      var k :| 1 <= k <= |o| && Rfc3629Char(s[0], o[..k]) && Rfc3629(s[1..], o[k..]);
      assert o == o[..k] + o[k..];
      AtConcat(b, i, o[..k], o[k..]);
      ReadChar(b, i, s[0], o[..k]);
      ReadsRfc3629(b, i + k, s[1..], o[k..]);
    }
  }

  /** The bytes that a lead byte announces, itself included, or none for what is no lead byte. */
  function Announced(lead: byte): nat {
    if lead < 0x80 then 1
    else if lead < 0xc0 || 0xf8 <= lead then 0
    else if lead < 0xe0 then 2
    else if lead < 0xf0 then 3
    else 4
  }

  /** utf8Read throws at a byte that can begin no character, or where the buffer ends within one, and nowhere else. */
  lemma ReadThrowsExactly(b: seq<byte>, i: nat, end: nat)
    ensures Decode(b, i, end) == None <==>
      i < end && (|b| <= i || Announced(b[i]) == 0 || |b| < i + Announced(b[i])
        || Decode(b, i + Announced(b[i]), end) == None)
  {
  }

  /** U+1F600 is written as its two surrogates, three bytes each, where RFC 3629 wants four bytes in all. */
  lemma PairTakesSixBytes()
    ensures Encode([0xd83d, 0xde00]) == [0xed, 0xa0, 0xbd, 0xed, 0xb8, 0x80]
    ensures Rfc3629([0x1_f600], [0xf0, 0x9f, 0x98, 0x80])
  {
    var pair: JsString, o: seq<byte> := [0xd83d, 0xde00], [0xf0, 0x9f, 0x98, 0x80];
    assert pair[1..] == [0xde00] && pair[1..][1..] == [];
    assert UnitBytes(0xd83d) == [0xed, 0xa0, 0xbd] && UnitBytes(0xde00) == [0xed, 0xb8, 0x80];
    assert o[..4] == o && o[4..] == [];
    assert Rfc3629Char(0x1_f600, o[..4]) && Rfc3629([], o[4..]);
  }
}
