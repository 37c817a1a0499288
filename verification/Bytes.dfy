/** Bytes, big-endian numbers and in-place writes, shared by both codecs. */
module Bytes {

  type byte = x: int | 0 <= x < 0x100

  type uint32 = x: int | 0 <= x < 0x1_0000_0000

  type uint64 = x: int | 0 <= x < 0x1_0000_0000_0000_0000

  datatype Option<+T> = None | Some(value: T)

  datatype Result<+T, +E> = Ok(value: T) | Err(error: E)

  function Be16(n: nat): (r: seq<byte>)
    requires n < 0x1_0000
  {
    [n / 0x100, n % 0x100]
  }

  function Be32(n: nat): (r: seq<byte>)
    requires n < 0x1_0000_0000
  {
    Be16(n / 0x1_0000) + Be16(n % 0x1_0000)
  }

  function Be64(n: uint64): (r: seq<byte>) {
    Be32(n / 0x1_0000_0000) + Be32(n % 0x1_0000_0000)
  }

  function U16(b: seq<byte>, i: nat): (n: nat)
    requires i + 2 <= |b|
    ensures n < 0x1_0000
  {
    (b[i] as int) * 0x100 + b[i + 1] as int
  }

  function U32(b: seq<byte>, i: nat): (n: nat)
    requires i + 4 <= |b|
    ensures n < 0x1_0000_0000
  {
    U16(b, i) * 0x1_0000 + U16(b, i + 2)
  }

  function U64(b: seq<byte>, i: nat): (n: nat)
    requires i + 8 <= |b|
    ensures n < 0x1_0000_0000_0000_0000
  {
    U32(b, i) * 0x1_0000_0000 + U32(b, i + 4)
  }

  /** Reading back a big-endian number gives the number, wherever it stands. */
  lemma ReadBe16(n: nat, b: seq<byte>, i: nat)
    requires n < 0x1_0000
    requires i + 2 <= |b| && b[i..i + 2] == Be16(n)
    ensures U16(b, i) == n
  {
    assert b[i] == b[i..i + 2][0] && b[i + 1] == b[i..i + 2][1];
  }

  lemma ReadBe32(n: nat, b: seq<byte>, i: nat)
    requires n < 0x1_0000_0000
    requires i + 4 <= |b| && b[i..i + 4] == Be32(n)
    ensures U32(b, i) == n
  {
    assert b[i..i + 2] == b[i..i + 4][..2] == Be16(n / 0x1_0000);
    assert b[i + 2..i + 4] == b[i..i + 4][2..] == Be16(n % 0x1_0000);
    ReadBe16(n / 0x1_0000, b, i);
    ReadBe16(n % 0x1_0000, b, i + 2);
  }

  lemma ReadBe64(n: uint64, b: seq<byte>, i: nat)
    requires i + 8 <= |b| && b[i..i + 8] == Be64(n)
    ensures U64(b, i) == n
  {
    assert b[i..i + 4] == b[i..i + 8][..4] == Be32(n / 0x1_0000_0000);
    assert b[i + 4..i + 8] == b[i..i + 8][4..] == Be32(n % 0x1_0000_0000);
    ReadBe32(n / 0x1_0000_0000, b, i);
    ReadBe32(n % 0x1_0000_0000, b, i + 4);
  }

  /** The piece stands in b at off. */
  predicate At(b: seq<byte>, off: nat, piece: seq<byte>) {
    off + |piece| <= |b| && b[off..off + |piece|] == piece
  }

  /** A concatenation stands at off exactly when its parts stand one after the other. */
  lemma AtConcat(b: seq<byte>, off: nat, x: seq<byte>, y: seq<byte>)
    ensures At(b, off, x + y) <==> At(b, off, x) && At(b, off + |x|, y)
  {
    if off + |x| + |y| <= |b| {
      var whole := b[off..off + |x| + |y|];
      assert whole[..|x|] == b[off..off + |x|];
      assert whole[|x|..] == b[off + |x|..off + |x| + |y|];
      assert whole == whole[..|x|] + whole[|x|..];
      assert (x + y)[..|x|] == x && (x + y)[|x|..] == y;
    }
  }

  /** b after piece has been stored from off on, byte by byte, until a store is refused at the end of b. */
  function Overlay(b: seq<byte>, off: nat, piece: seq<byte>): (r: seq<byte>)
    ensures |r| == |b|
    decreases |piece|
  {
    if piece == [] || |b| <= off then b else Overlay(b[off := piece[0]], off + 1, piece[1..])
  }

  /** The bytes of piece stand from off on, as far as b reaches, and all others are left alone. */
  lemma {:induction false} OverlayIndex(b: seq<byte>, off: nat, piece: seq<byte>, i: nat)
    requires i < |b|
    ensures Overlay(b, off, piece)[i] == if off <= i < off + |piece| then piece[i - off] else b[i]
    decreases |piece|
  {
    if piece == [] || |b| <= off {
    } else {
      OverlayIndex(b[off := piece[0]], off + 1, piece[1..], i);
    }
  }

  /** Storing piece at off stays inside a buffer of the given size: no store is refused. */
  predicate Fits(size: nat, off: nat, piece: seq<byte>) {
    piece == [] || off + |piece| <= size
  }

  /** Storing x and then y behind it stores x + y. */
  lemma {:induction false} OverlayConcat(b: seq<byte>, off: nat, x: seq<byte>, y: seq<byte>)
    ensures Overlay(Overlay(b, off, x), off + |x|, y) == Overlay(b, off, x + y)
    decreases |x|
  {
    if x == [] {
      assert x + y == y;
    } else if off < |b| {
      assert (x + y)[1..] == x[1..] + y;
      OverlayConcat(b[off := x[0]], off + 1, x[1..], y);
    }
  }

  /** Once a store has been refused, what was to follow makes no difference. */
  lemma OverlayRefused(b: seq<byte>, off: nat, x: seq<byte>, y: seq<byte>)
    requires |b| <= off + |x|
    ensures Overlay(b, off, x) == Overlay(b, off, x + y)
  {
    OverlayConcat(b, off, x, y);
  }

  /** A piece that fills the buffer leaves nothing of what was there. */
  lemma OverlayFills(b: seq<byte>, piece: seq<byte>)
    requires |b| == |piece|
    ensures Overlay(b, 0, piece) == piece
  {
    forall i | 0 <= i < |b| ensures Overlay(b, 0, piece)[i] == piece[i] {
      OverlayIndex(b, 0, piece, i);
    }
  }
}
