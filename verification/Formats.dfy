/**
 The "Formats" section of the MessagePack specification, as far as the extent of
 an object goes: what the first byte and the length bytes behind it say about
 where the object ends.
 */
module Formats {
  import opened Bytes

  /** A leaf is size bytes long in all; a node is size bytes of header and then its children. */
  datatype Header = Leaf(size: nat) | Node(size: nat, children: nat)

  /** The tag at off is followed by a number of the given width, and its value is known. */
  function Length(b: seq<byte>, off: nat, width: nat): Option<nat> {
    if |b| <= off + width then None
    else match width
      case 1 => Some(b[off + 1])
      case 2 => Some(U16(b, off + 1))
      case 4 => Some(U32(b, off + 1))
      case _ => None
  }

  /** str, bin and ext: a length, for ext a type byte, then the data. */
  function SizedHeader(b: seq<byte>, off: nat, width: nat, typeByte: nat): (h: Option<Header>)
    ensures h.Some? ==> h.value.Leaf? && width < h.value.size && off + width < |b|
  {
    var n := Length(b, off, width);
    if n == None then None else Some(Leaf(1 + width + typeByte + n.value))
  }

  function ContainerHeader(b: seq<byte>, off: nat, width: nat, perEntry: nat): (h: Option<Header>)
    ensures h.Some? ==> h.value.Node? && h.value.size == 1 + width && off + width < |b|
  {
    var n := Length(b, off, width);
    if n == None then None else Some(Node(1 + width, perEntry * n.value))
  }

  /** What the object at off announces itself to be, if its header is complete. */
  function HeaderAt(b: seq<byte>, off: nat): (h: Option<Header>)
    ensures h.Some? ==> 1 <= h.value.size && off < |b|
    ensures h.Some? && h.value.Node? ==> off + h.value.size <= |b|
  {
    if |b| <= off then None else
    var t: int := b[off];
    if t < 0x80 || 0xe0 <= t then Some(Leaf(1))
    else if t < 0x90 then Some(Node(1, 2 * (t - 0x80)))
    else if t < 0xa0 then Some(Node(1, t - 0x90))
    else if t < 0xc0 then Some(Leaf(1 + t - 0xa0))
    else match t
      case 0xc0 => Some(Leaf(1))
      case 0xc2 => Some(Leaf(1))
      case 0xc3 => Some(Leaf(1))
      case 0xc4 => SizedHeader(b, off, 1, 0)
      case 0xc5 => SizedHeader(b, off, 2, 0)
      case 0xc6 => SizedHeader(b, off, 4, 0)
      case 0xc7 => SizedHeader(b, off, 1, 1)
      case 0xc8 => SizedHeader(b, off, 2, 1)
      case 0xc9 => SizedHeader(b, off, 4, 1)
      case 0xca => Some(Leaf(5))
      case 0xcb => Some(Leaf(9))
      case 0xcc => Some(Leaf(2))
      case 0xcd => Some(Leaf(3))
      case 0xce => Some(Leaf(5))
      case 0xcf => Some(Leaf(9))
      case 0xd0 => Some(Leaf(2))
      case 0xd1 => Some(Leaf(3))
      case 0xd2 => Some(Leaf(5))
      case 0xd3 => Some(Leaf(9))
      case 0xd4 => Some(Leaf(3))
      case 0xd5 => Some(Leaf(4))
      case 0xd6 => Some(Leaf(6))
      case 0xd7 => Some(Leaf(10))
      case 0xd8 => Some(Leaf(18))
      case 0xd9 => SizedHeader(b, off, 1, 0)
      case 0xda => SizedHeader(b, off, 2, 0)
      case 0xdb => SizedHeader(b, off, 4, 0)
      case 0xdc => ContainerHeader(b, off, 2, 1)
      case 0xdd => ContainerHeader(b, off, 4, 1)
      case 0xde => ContainerHeader(b, off, 2, 2)
      case 0xdf => ContainerHeader(b, off, 4, 2)
      case _ => None
  }

  /**
   Where the n objects that start at off end, or None if there are no n well-formed
   objects. The children of a container join the objects still to come.
   */
  function Skip(b: seq<byte>, off: nat, n: nat): (end: Option<nat>)
    ensures end.Some? ==> off + n <= end.value && (n > 0 || off <= |b| ==> end.value <= |b|)
    decreases |b| - off, n
  {
    if n == 0 then Some(off) else
    match HeaderAt(b, off)
    case None => None
    case Some(Leaf(size)) =>
      if |b| < off + size then None else Skip(b, off + size, n - 1)
    case Some(Node(size, children)) => Skip(b, off + size, children + n - 1)
  }

  /** The bytes are one well-formed object and nothing else. */
  predicate OneObject(b: seq<byte>) {
    Skip(b, 0, 1) == Some(|b|)
  }

  lemma LengthExtends(b: seq<byte>, off: nat, width: nat, x: seq<byte>)
    requires Length(b, off, width).Some?
    ensures Length(b + x, off, width) == Length(b, off, width)
  {
    assert forall i :: 0 <= i < |b| ==> (b + x)[i] == b[i];
  }

  lemma HeaderExtends(b: seq<byte>, off: nat, x: seq<byte>)
    requires HeaderAt(b, off).Some?
    ensures HeaderAt(b + x, off) == HeaderAt(b, off)
  {
    hide SizedHeader, ContainerHeader;
    forall width, typeByte | SizedHeader(b, off, width, typeByte).Some?
      ensures SizedHeader(b + x, off, width, typeByte) == SizedHeader(b, off, width, typeByte)
    {
      SizedExtends(b, off, width, typeByte, x);
    }
    forall width, perEntry | ContainerHeader(b, off, width, perEntry).Some?
      ensures ContainerHeader(b + x, off, width, perEntry) == ContainerHeader(b, off, width, perEntry)
    {
      ContainerExtends(b, off, width, perEntry, x);
    }
    assert (b + x)[off] == b[off];
  }

  lemma SizedExtends(b: seq<byte>, off: nat, width: nat, typeByte: nat, x: seq<byte>)
    requires SizedHeader(b, off, width, typeByte).Some?
    ensures SizedHeader(b + x, off, width, typeByte) == SizedHeader(b, off, width, typeByte)
  {
    hide Length;
    LengthExtends(b, off, width, x);
  }

  lemma ContainerExtends(b: seq<byte>, off: nat, width: nat, perEntry: nat, x: seq<byte>)
    requires ContainerHeader(b, off, width, perEntry).Some?
    ensures ContainerHeader(b + x, off, width, perEntry) == ContainerHeader(b, off, width, perEntry)
  {
    hide Length;
    LengthExtends(b, off, width, x);
  }

  lemma SkipNothing(b: seq<byte>, off: nat)
    ensures Skip(b, off, 0) == Some(off)
  {
  }

  /** Bytes behind complete objects do not change where they end. */
  lemma {:induction false} SkipExtends(b: seq<byte>, off: nat, n: nat, x: seq<byte>)
    requires Skip(b, off, n).Some?
    ensures Skip(b + x, off, n) == Skip(b, off, n)
    decreases |b| - off, n
  {
    hide HeaderAt;
    if n == 0 {
    } else {
      HeaderExtends(b, off, x);
      var h := HeaderAt(b, off).value;
      SkipExtends(b, off + h.size, if h.Leaf? then n - 1 else h.children + n - 1, x);
    }
  }

  /** Skipping n objects and then m more skips n + m. */
  lemma {:induction false} SkipSum(b: seq<byte>, off: nat, n: nat, m: nat)
    requires Skip(b, off, n).Some?
    ensures Skip(b, off, n + m) == Skip(b, Skip(b, off, n).value, m)
    decreases |b| - off, n
  {
    hide HeaderAt;
    if n == 0 {
    } else {
      var h := HeaderAt(b, off).value;
      SkipSum(b, off + h.size, if h.Leaf? then n - 1 else h.children + n - 1, m);
    }
  }

  lemma HeaderOfPrefix(b: seq<byte>, off: nat, k: nat)
    requires HeaderAt(b, off).Some? && off + HeaderAt(b, off).value.size <= k <= |b|
    ensures HeaderAt(b[..k], off) == HeaderAt(b, off)
  {
    hide SizedHeader, ContainerHeader;
    forall width, typeByte | SizedHeader(b, off, width, typeByte).Some? && off + width < k
      ensures SizedHeader(b[..k], off, width, typeByte) == SizedHeader(b, off, width, typeByte)
    {
      SizedOfPrefix(b, off, width, typeByte, k);
    }
    forall width, perEntry | ContainerHeader(b, off, width, perEntry).Some? && off + width < k
      ensures ContainerHeader(b[..k], off, width, perEntry) == ContainerHeader(b, off, width, perEntry)
    {
      ContainerOfPrefix(b, off, width, perEntry, k);
    }
    assert b[..k][off] == b[off];
  }

  lemma SizedOfPrefix(b: seq<byte>, off: nat, width: nat, typeByte: nat, k: nat)
    requires SizedHeader(b, off, width, typeByte).Some? && off + width < k <= |b|
    ensures SizedHeader(b[..k], off, width, typeByte) == SizedHeader(b, off, width, typeByte)
  {
    hide Length;
    LengthOfPrefix(b, off, width, k);
  }

  lemma ContainerOfPrefix(b: seq<byte>, off: nat, width: nat, perEntry: nat, k: nat)
    requires ContainerHeader(b, off, width, perEntry).Some? && off + width < k <= |b|
    ensures ContainerHeader(b[..k], off, width, perEntry) == ContainerHeader(b, off, width, perEntry)
  {
    hide Length;
    LengthOfPrefix(b, off, width, k);
  }

  lemma LengthOfPrefix(b: seq<byte>, off: nat, width: nat, k: nat)
    requires Length(b, off, width).Some? && off + width < k <= |b|
    ensures Length(b[..k], off, width) == Length(b, off, width)
  {
    assert forall i :: 0 <= i < k ==> b[..k][i] == b[i];
  }

  /** The objects that were skipped are as well-formed without the bytes behind them. */
  lemma {:induction false} SkipExact(b: seq<byte>, off: nat, n: nat)
    requires off <= |b| && Skip(b, off, n).Some?
    ensures Skip(b[..Skip(b, off, n).value], off, n) == Skip(b, off, n)
    decreases |b| - off, n
  {
    hide HeaderAt;
    if n == 0 {
    } else {
      var h := HeaderAt(b, off).value;
      HeaderOfPrefix(b, off, Skip(b, off, n).value);
      SkipExact(b, off + h.size, if h.Leaf? then n - 1 else h.children + n - 1);
    }
  }

  lemma LengthShift(b: seq<byte>, k: nat, off: nat, width: nat)
    requires k <= |b|
    ensures Length(b[k..], off, width) == Length(b, k + off, width)
  {
    assert forall i :: 0 <= i < |b| - k ==> b[k..][i] == b[k + i];
  }

  lemma HeaderShift(b: seq<byte>, k: nat, off: nat)
    requires k <= |b|
    ensures HeaderAt(b[k..], off) == HeaderAt(b, k + off)
  {
    hide Length;
    forall width ensures Length(b[k..], off, width) == Length(b, k + off, width) {
      LengthShift(b, k, off, width);
    }
    if k + off < |b| { assert b[k..][off] == b[k + off]; }
  }

  /** Where objects end does not depend on what stands before them. */
  lemma {:induction false} SkipShift(b: seq<byte>, k: nat, off: nat, n: nat)
    requires k <= |b|
    ensures Skip(b, k + off, n) == match Skip(b[k..], off, n) case None => None case Some(end) => Some(k + end)
    decreases |b| - off, n
  {
    hide HeaderAt;
    HeaderShift(b, k, off);
    var h := HeaderAt(b[k..], off);
    if n == 0 || h == None {
    } else {
      if h.value.Node? || k + off + h.value.size <= |b| {
        SkipShift(b, k, off + h.value.size, if h.value.Leaf? then n - 1 else h.value.children + n - 1);
      }
    }
  }

  // ---- what the formats stand for ---------------------------------------------------------------

  /** The number that bytes stand for, the most significant one first. */
  function Number(b: seq<byte>): nat {
    if b == [] then 0 else Number(b[..|b| - 1]) * 0x100 + b[|b| - 1]
  }

  /** x is the integer v in one of the integer formats: the fixints, uint 8 to uint 64 and int 8 to int 64. */
  predicate IsInteger(x: seq<byte>, v: int) {
    match |x|
    case 1 => (x[0] < 0x80 && v == x[0]) || (0xe0 <= x[0] && v == (x[0] as int) - 0x100)
    case 2 => Tagged(x, 0xcc, v) || TwosComplement(x, 0xd0, 0x100, v)
    case 3 => Tagged(x, 0xcd, v) || TwosComplement(x, 0xd1, 0x1_0000, v)
    case 5 => Tagged(x, 0xce, v) || TwosComplement(x, 0xd2, 0x1_0000_0000, v)
    case 9 => Tagged(x, 0xcf, v) || TwosComplement(x, 0xd3, 0x1_0000_0000_0000_0000, v)
    case _ => false
  }

  predicate Tagged(x: seq<byte>, tag: byte, v: int) {
    |x| > 1 && x[0] == tag && v == Number(x[1..])
  }

  predicate TwosComplement(x: seq<byte>, tag: byte, all: nat, v: int) {
    |x| > 1 && x[0] == tag && v == Number(x[1..]) - if x[1] < 0x80 then 0 else all
  }

  /** x is a header with the number n: in the tag, up to fix, or behind the tag, in the widths given. */
  predicate IsHeader(x: seq<byte>, first: byte, fix: nat, tags: map<nat, byte>, n: nat) {
    || (|x| == 1 && n <= fix && x[0] == first + n)
    || (|x| > 1 && |x| - 1 in tags && x[0] == tags[|x| - 1] && n == Number(x[1..]))
  }

  predicate IsStrHeader(x: seq<byte>, n: nat) {
    IsHeader(x, 0xa0, 31, map[1 := 0xd9, 2 := 0xda, 4 := 0xdb], n)
  }

  predicate IsBinHeader(x: seq<byte>, n: nat) {
    |x| > 1 && IsHeader(x, 0, 0, map[1 := 0xc4, 2 := 0xc5, 4 := 0xc6], n)
  }

  predicate IsArrayHeader(x: seq<byte>, n: nat) {
    IsHeader(x, 0x90, 15, map[2 := 0xdc, 4 := 0xdd], n)
  }

  predicate IsMapHeader(x: seq<byte>, n: nat) {
    IsHeader(x, 0x80, 15, map[2 := 0xde, 4 := 0xdf], n)
  }

  /** A header with the length of s, and s. */
  predicate IsStr(x: seq<byte>, s: seq<byte>) {
    |s| <= |x| && IsStrHeader(x[..|x| - |s|], |s|) && x[|x| - |s|..] == s
  }

  predicate IsBin(x: seq<byte>, data: seq<byte>) {
    |data| <= |x| && IsBinHeader(x[..|x| - |data|], |data|) && x[|x| - |data|..] == data
  }

  lemma NumberOf2(b: seq<byte>, i: nat)
    requires i + 2 <= |b|
    ensures Number(b[i..i + 2]) == U16(b, i)
  {
    var x := b[i..i + 2];
    assert x[..1][..0] == [] && x[..1][0] == b[i] && x[1] == b[i + 1];
    assert Number(x[..1]) == b[i];
  }

  lemma {:induction false} NumberConcat(x: seq<byte>, y: seq<byte>)
    requires |y| == 2
    ensures Number(x + y) == Number(x) * 0x1_0000 + U16(y, 0)
  {
    var z := x + y;
    assert z[..|z| - 1] == x + [y[0]] && (x + [y[0]])[..|x|] == x;
  }

  lemma NumberOf4(b: seq<byte>, i: nat)
    requires i + 4 <= |b|
    ensures Number(b[i..i + 4]) == U32(b, i)
  {
    assert b[i..i + 4] == b[i..i + 2] + b[i + 2..i + 4];
    NumberOf2(b, i);
    NumberConcat(b[i..i + 2], b[i + 2..i + 4]);
  }

  lemma NumberOf8(b: seq<byte>, i: nat)
    requires i + 8 <= |b|
    ensures Number(b[i..i + 8]) == U64(b, i)
  {
    var x, y, z := b[i..i + 4], b[i + 4..i + 6], b[i + 6..i + 8];
    assert b[i..i + 8] == x + y + z;
    NumberOf4(b, i);
    NumberConcat(x, y);
    NumberConcat(x + y, z);
    assert y[0] == b[i + 4] && y[1] == b[i + 5] && z[0] == b[i + 6] && z[1] == b[i + 7];
  }

  lemma NumberOf1(b: seq<byte>, i: nat)
    requires i < |b|
    ensures Number(b[i..i + 1]) == b[i]
  {
    assert b[i..i + 1][..0] == [];
  }

  /** The number behind a tag. */
  lemma NumberBehind(b: seq<byte>, width: nat)
    requires width in {1, 2, 4, 8} && width < |b|
    ensures b[..1 + width][1..] == b[1..1 + width]
    ensures Number(b[..1 + width][1..]) == match width
      case 1 => b[1] as nat
      case 2 => U16(b, 1)
      case 4 => U32(b, 1)
      case _ => U64(b, 1)
  {
    hide Number, U16, U32, U64;
    assert b[..1 + width][1..] == b[1..1 + width];
    match width
    case 1 => NumberOf1(b, 1);
    case 2 => NumberOf2(b, 1);
    case 4 => NumberOf4(b, 1);
    case _ => NumberOf8(b, 1);
  }

  /** x is a leaf with a tag, a number of data bytes and, if it is not known from the tag, their length. */
  predicate IsExt(x: seq<byte>, data: nat) {
    || (|x| == 2 + data && data in {1, 2, 4, 8, 16}
      && x[0] == match data case 1 => 0xd4 case 2 => 0xd5 case 4 => 0xd6 case 8 => 0xd7 case _ => 0xd8)
    || (|x| == 3 + data && x[0] == 0xc7 && Number(x[1..2]) == data)
    || (|x| == 4 + data && x[0] == 0xc8 && Number(x[1..3]) == data)
    || (|x| == 6 + data && x[0] == 0xc9 && Number(x[1..5]) == data)
  }

  /** Each ext format is one object with its type byte and data; 0xc1 begins none. */
  lemma ExtIsOneObject(x: seq<byte>, data: nat)
    requires IsExt(x, data)
    ensures OneObject(x)
  {
    hide Number, U16, U32;
    if |x| > 5 { NumberOf4(x, 1); }
    if |x| > 3 { NumberOf2(x, 1); }
    if |x| > 2 { NumberOf1(x, 1); }
    assert HeaderAt(x, 0) == Some(Leaf(|x|));
    assert Skip(x, |x|, 0) == Some(|x|);
  }

  lemma NeverUsed(b: seq<byte>)
    requires b != [] && b[0] == 0xc1
    ensures Skip(b, 0, 1) == None
  {
  }
}
