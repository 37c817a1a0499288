/** How chat.js reads numbers: 64-bit integers as the nearest double, and doubles as what they are worth. */
module JsNumbers {
  import opened Bytes
  import Utf8
  import opened JsEncoder
  import opened JsDecoder

  // ---- integers of 64 bits ----------------------------------------------------------------

  function Abs(n: int): nat {
    if n < 0 then -n else n
  }

  /** Among the multiples of p, r is as near to n as any, and even if another is as near. */
  predicate Nearest(n: int, r: int, p: nat)
    requires 0 < p
  {
    && r % p == 0 && n * 2 <= r * 2 + p && r * 2 <= n * 2 + p
    && (Abs(r - n) * 2 == p ==> r / p % 2 == 0)
  }

  lemma ToEvenIsNear(n: nat, p: nat)
    requires 0 < p && n < SAFE * p
    ensures Nearest(n, ToEven(n, p), p)
    ensures n % p == 0 ==> ToEven(n, p) == n
    ensures 0 <= ToEven(n, p) <= SAFE * p
  {
    hide ToEven, Nearest;
    var q, r := n / p, n % p;
    NextMultiples(n, p);
    ToEvenChoice(n, p, q, r);
    MultipleBound(q, p, n);
    if ToEven(n, p) == q * p {
      NearestAt(n, q, p);
    } else {
      NearestAt(n, q + 1, p);
    }
  }

  lemma NextMultiples(n: nat, p: nat)
    requires 0 < p
    ensures n == n / p * p + n % p && (n / p + 1) * p == n / p * p + p
  {
  }

  lemma ToEvenChoice(n: nat, p: nat, q: nat, r: nat)
    requires 0 < p && q == n / p && r == n % p
    ensures (ToEven(n, p) == q * p && 2 * r <= p && (2 * r == p ==> q % 2 == 0))
      || (ToEven(n, p) == (q + 1) * p && p <= 2 * r && (2 * r == p ==> (q + 1) % 2 == 0))
    ensures r == 0 ==> ToEven(n, p) == q * p
  {
  }

  lemma NearestAt(n: nat, k: nat, p: nat)
    requires 0 < p && n * 2 <= k * p * 2 + p && k * p * 2 <= n * 2 + p
    requires Abs(k * p - n) * 2 == p ==> k % 2 == 0
    ensures Nearest(n, k * p, p)
  {
    ProductDivides(k, p, k * p);
  }

  lemma MultipleBound(q: nat, p: nat, n: nat)
    requires 0 < p && q * p <= n < SAFE * p
    ensures 0 <= q * p && (q + 1) * p <= SAFE * p
  {
    var gap := SAFE - q;
    assert gap * p == SAFE * p - q * p && (q + 1) * p == q * p + p;
    NoSmallMultiple(gap, p);
    NoSmallMultiple(q, p);
  }

  lemma {:induction false} SpacingIsPower(n: nat, k: nat)
    ensures exists l :: Spacing(n, Pow2(k)) == Pow2(l)
    decreases n - Pow2(k)
  {
    if n < SAFE * Pow2(k) {
      assert Spacing(n, Pow2(k)) == Pow2(k);
    } else {
      SpacingIsPower(n, k + 1);
    }
  }

  /** No smaller power of two would do. */
  lemma {:induction false} SpacingIsLeast(n: nat, p: nat)
    requires 0 < p
    ensures Spacing(n, p) == p || SAFE * Spacing(n, p) <= 2 * n
    decreases n - p
  {
    if n < SAFE * p {
    } else {
      SpacingIsLeast(n, 2 * p);
    }
  }

  /**
   Rounded gives a double: at most SAFE times a power of two, the least there is for a number of this
   size, and a multiple of it. It moves a number by at most half that power, which is how far doubles of
   this size lie apart; of two doubles as near it takes the even one; up to 2^53 it changes nothing.
   */
  lemma RoundedIsNear(n: int)
    ensures var p := Spacing(Abs(n), 1);
      && (exists k :: p == Pow2(k)) && (p == 1 || SAFE * p <= 2 * Abs(n))
      && -SAFE * p <= Rounded(n) <= SAFE * p && Nearest(n, Rounded(n), p)
    ensures -SAFE <= n <= SAFE ==> Rounded(n) == n
  {
    var p := Spacing(Abs(n), 1);
    SpacingIsPower(Abs(n), 0);
    SpacingIsLeast(Abs(n), 1);
    SpacingOfSafe(Abs(n));
    hide ToEven, Spacing, Nearest, Pow2;
    ToEvenIsNear(Abs(n), p);
    if n < -SAFE {
      NearestNegated(-n, ToEven(-n, p), p);
    } else if n <= SAFE {
      NearestItself(n, p);
    }
  }

  lemma NearestNegated(n: int, r: int, p: nat)
    requires 0 < p && Nearest(n, r, p)
    ensures Nearest(-n, -r, p)
  {
    NegatedMultiple(r, p);
  }

  lemma NearestItself(n: int, p: nat)
    requires p == 1 || (p == 2 && n % 2 == 0)
    ensures Nearest(n, n, p)
  {
  }

  lemma SpacingOfSafe(m: nat)
    ensures m < SAFE ==> Spacing(m, 1) == 1
    ensures m == SAFE ==> Spacing(m, 1) == 2
  {
    assert Spacing(SAFE, 1) == Spacing(SAFE, 2);
  }

  lemma NegatedMultiple(n: int, p: nat)
    requires 0 < p && n % p == 0
    ensures -n % p == 0 && -n / p == -(n / p)
  {
    var q := n / p;
    assert n == q * p && -n == -q * p;
    var s, r := -n / p, -n % p;
    assert (-q - s) * p == r;
    NoSmallMultiple(-q - s, p);
  }

  lemma ProductDivides(a: nat, b: nat, c: nat)
    requires 0 < b && c == a * b
    ensures c / b == a && c % b == 0
  {
    var q, r := c / b, c % b;
    assert (a - q) * b == r;
    NoSmallMultiple(a - q, b);
  }

  lemma {:induction false} NoSmallMultiple(x: int, b: nat)
    ensures 0 < x ==> b <= x * b
    ensures x < 0 ==> x * b <= -(b as int)
    decreases if x < 0 then -x else x
  {
    if -1 <= x <= 1 {
    } else if 1 < x {
      NoSmallMultiple(x - 1, b);
      assert x * b == (x - 1) * b + b;
    } else {
      NoSmallMultiple(x + 1, b);
      assert x * b == (x + 1) * b - b;
    }
  }

  // ---- doubles ------------------------------------------------------------------------------

  const TOP: nat := 0x8000_0000_0000_0000

  /** 2^52, the leading bit that the fraction of a double leaves out. */
  const LEADING: nat := 0x10_0000_0000_0000

  /** The bits are sign, exponent and fraction of n, which lies between 2^power and 2^(power + 1). */
  predicate BitsOf(bits: uint64, n: int, power: nat) {
    && power <= 31 && Pow2(power) <= Abs(n) < 2 * Pow2(power)
    && bits == (if n < 0 then TOP else 0) + (1022 + power) * LEADING + Abs(n) * Pow2(52 - power)
  }

  /** The double with these bits is worth the integer n, by the layout of IEEE 754. */
  ghost predicate IsWorth(bits: uint64, n: int) {
    if n == 0 then bits == 0 || bits == TOP else exists power: nat :: BitsOf(bits, n, power)
  }

  lemma {:induction false} PowSum(a: nat, b: nat)
    ensures Pow2(a) * Pow2(b) == Pow2(a + b)
    decreases a
  {
    if a == 0 {
    } else {
      PowSum(a - 1, b);
      assert 2 * Pow2(a - 1) * Pow2(b) == 2 * (Pow2(a - 1) * Pow2(b));
    }
  }

  lemma Pow52()
    ensures Pow2(52) == LEADING
  {
    assert Pow2(13) == 0x2000;
    PowSum(13, 13);
    PowSum(26, 26);
  }

  lemma {:induction false} LessTimes(a: int, b: int, p: nat)
    requires 0 < p
    ensures a < b <==> a * p < b * p
  {
    assert (b - a) * p == b * p - a * p;
    NoSmallMultiple(b - a, p);
  }

  /** Scaling by 2^(52 - power) takes the numbers from 2^power below 2^(power + 1) to those from 2^52 below 2^53. */
  lemma Scaled(m: nat, power: nat)
    requires power <= 52
    ensures Pow2(power) <= m < 2 * Pow2(power) <==> LEADING <= m * Pow2(52 - power) < 2 * LEADING
  {
    Pow52();
    PowSum(power, 52 - power);
    hide Pow2;
    ScaledBy(m, Pow2(power), Pow2(52 - power));
  }

  lemma ScaledBy(m: nat, least: nat, unit: nat)
    requires 0 < unit
    ensures least <= m < 2 * least <==> least * unit <= m * unit < 2 * (least * unit)
  {
    LessTimes(m, least, unit);
    LessTimes(m, 2 * least, unit);
    assert 2 * least * unit == 2 * (least * unit);
  }

  /** The fields of the bits. */
  lemma Layout(bits: uint64)
    ensures var sign, exponent, fraction := bits / TOP, bits / LEADING % 0x800, bits % LEADING;
      sign <= 1 && bits == sign * TOP + exponent * LEADING + fraction && (sign == 1 <==> TOP <= bits)
  {
    var high, low := bits / LEADING, bits % LEADING;
    assert bits == high * LEADING + low;
    assert high == high / 0x800 * 0x800 + high % 0x800;
    assert high < 0x1000;
  }

  lemma Fields(bits: uint64, negative: bool, exponent: nat, fraction: nat)
    requires exponent < 0x800 && fraction < LEADING
    requires bits == (if negative then TOP else 0) + exponent * LEADING + fraction
    ensures bits / LEADING % 0x800 == exponent && bits % LEADING == fraction && (negative <==> TOP <= bits)
  {
    assert bits / LEADING == (if negative then 0x800 else 0) + exponent;
  }

  lemma DoubleOfInteger(bits: uint64, n: int, power: nat)
    requires -0x8000_0000 <= n < 0x8000_0000 && BitsOf(bits, n, power)
    ensures IntegerOf(bits) == Some(n)
  {
    Scaled(Abs(n), power);
    hide Pow2;
    var unit, significand := Pow2(52 - power), Abs(n) * Pow2(52 - power);
    Fields(bits, n < 0, 1023 + power, significand - LEADING);
    assert 1075 - (1023 + power) == 52 - power;
    ProductDivides(Abs(n), unit, significand);
    DoubleFields(bits, n, power, unit);
  }

  lemma DoubleFields(bits: uint64, n: int, power: nat, unit: nat)
    requires -0x8000_0000 <= n < 0x8000_0000 && power <= 31 && unit == Pow2(52 - power)
    requires bits / LEADING % 0x800 == 1023 + power && (n < 0 <==> TOP <= bits)
    requires (LEADING + bits % LEADING) / unit == Abs(n) && (LEADING + bits % LEADING) % unit == 0
    ensures IntegerOf(bits) == Some(n)
  {
    hide Pow2;
    assert 1075 - (1023 + power) == 52 - power;
  }

  lemma IntegerOfDouble(bits: uint64)
    requires IntegerOf(bits).Some?
    ensures IsWorth(bits, IntegerOf(bits).value)
  {
    hide Pow2;
    Layout(bits);
    var exponent, fraction := bits / LEADING % 0x800, bits % LEADING;
    if exponent == 0 && fraction == 0 {
    } else {
      var n, power := IntegerOf(bits).value, exponent - 1023;
      var unit, significand := Pow2(52 - power), LEADING + fraction;
      var m := significand / unit;
      assert significand == m * unit;
      Scaled(m, power);
      PowerPositive(power);
      assert Abs(n) == m;
      assert BitsOf(bits, n, power);
    }
  }

  lemma PowerPositive(n: nat)
    ensures 0 < Pow2(n)
  {
  }

  /** IntegerOf gives the 32-bit integer that a double is worth, for every double that is worth one and no other. */
  lemma IntegerOfExactly(bits: uint64, n: int)
    ensures IntegerOf(bits) == Some(n) <==> -0x8000_0000 <= n < 0x8000_0000 && IsWorth(bits, n)
  {
    if IntegerOf(bits) == Some(n) {
      IntegerOfDouble(bits);
      IntegerInRange(bits);
    }
    if -0x8000_0000 <= n < 0x8000_0000 && IsWorth(bits, n) {
      if n == 0 {
        ZeroBits(bits);
      } else {
        var power: nat :| BitsOf(bits, n, power);
        DoubleOfInteger(bits, n, power);
      }
    }
  }

  lemma IntegerInRange(bits: uint64)
    ensures IntegerOf(bits).Some? ==> -0x8000_0000 <= IntegerOf(bits).value < 0x8000_0000
  {
    hide Pow2;
  }

  lemma ZeroBits(bits: uint64)
    requires bits == 0 || bits == TOP
    ensures IntegerOf(bits) == Some(0)
  {
    hide Pow2;
  }

  /** The power of two below a number is one only, so its bits are, too. */
  lemma BitsUnique(x: uint64, y: uint64, n: int, k: nat, l: nat)
    requires BitsOf(x, n, k) && BitsOf(y, n, l)
    ensures x == y
  {
    if k < l {
      PowerGrows(k + 1, l);
    } else if l < k {
      PowerGrows(l + 1, k);
    }
  }

  lemma {:induction false} PowerGrows(k: nat, l: nat)
    requires k <= l
    ensures Pow2(k) <= Pow2(l)
    decreases l - k
  {
    if k == l {
    } else {
      PowerGrows(k, l - 1);
    }
  }

  lemma WordBack(x: seq<byte>)
    requires |x| == 8
    ensures Be64(U64(x, 0)) == x
  {
    hide Be32, U32;
    HalfBack(x, 0);
    HalfBack(x, 4);
    var high, low := U32(x, 0), U32(x, 4);
    assert U64(x, 0) / LIMIT == high && U64(x, 0) % LIMIT == low;
    assert x == x[0..4] + x[4..8];
  }

  lemma HalfBack(x: seq<byte>, i: nat)
    requires i + 4 <= |x|
    ensures Be32(U32(x, i)) == x[i..i + 4]
  {
    hide Be16, U16;
    PairBack(x, i);
    PairBack(x, i + 2);
    var high, low := U16(x, i), U16(x, i + 2);
    assert U32(x, i) / 0x1_0000 == high && U32(x, i) % 0x1_0000 == low;
    assert x[i..i + 4] == x[i..i + 2] + x[i + 2..i + 4];
  }

  lemma PairBack(x: seq<byte>, i: nat)
    requires i + 2 <= |x|
    ensures Be16(U16(x, i)) == x[i..i + 2]
  {
  }

  /** No two doubles are read as the same number. */
  lemma NumberOfInjective(x: seq<byte>, y: seq<byte>)
    requires |x| == 8 && |y| == 8 && NumberOf(x) == NumberOf(y)
    ensures x == y
  {
    hide IntegerOf, BitsOf;
    var u, v := U64(x, 0), U64(y, 0);
    if NumberOf(x).Int? {
      var n := NumberOf(x).n;
      IntegerOfExactly(u, n);
      IntegerOfExactly(v, n);
      if n != 0 {
        var k: nat :| BitsOf(u, n, k);
        var l: nat :| BitsOf(v, n, l);
        BitsUnique(u, v, n, k, l);
      }
    }
    WordBack(x);
    WordBack(y);
  }

  /** A double is read as -0, as the integer it is worth, or, if it is worth none, as its bits, a value of their own. */
  lemma NumberIs(bits: uint64)
    ensures bits == TOP ==> NumberOf(Be64(bits)) == NegativeZero
    ensures forall n :: bits != TOP && -0x8000_0000 <= n < 0x8000_0000 && IsWorth(bits, n) ==>
      NumberOf(Be64(bits)) == Int(n)
    ensures (forall n :: -0x8000_0000 <= n < 0x8000_0000 ==> !IsWorth(bits, n)) <==>
      NumberOf(Be64(bits)) == Double(Be64(bits)) && Representable(Double(Be64(bits)))
  {
    hide IntegerOf, BitsOf;
    var word := Be64(bits);
    assert word[0..8] == word;
    ReadBe64(bits, word, 0);
    hide Be64, U64;
    forall n | -0x8000_0000 <= n < 0x8000_0000 && IsWorth(bits, n) ensures IntegerOf(bits) == Some(n) {
      IntegerOfExactly(bits, n);
    }
    if IntegerOf(bits).Some? {
      IntegerOfExactly(bits, IntegerOf(bits).value);
    }
    if bits == TOP { assert IsWorth(bits, 0); }
  }

  /** Behind its tag a float is its bits, and a double the number that NumberOf makes of it. */
  lemma HeadOfFloat(b: seq<byte>, off: nat, bits: seq<byte>)
    ensures |bits| == 4 && At(b, off, [0xca] + bits) ==> HeadAt(b, off) == Some(Scalar(Float(bits), 5))
    ensures |bits| == 8 && At(b, off, [0xcb] + bits) ==> HeadAt(b, off) == Some(Scalar(NumberOf(bits), 9))
  {
    hide NumberOf;
    AtConcat(b, off, [0xca], bits);
    AtConcat(b, off, [0xcb], bits);
    if off < |b| { assert b[off] == b[off..off + 1][0]; }
  }

  /** A double behind its tag is read as -0, as the integer it is worth, or as its bits if it is worth none. */
  lemma DoubleRead(b: seq<byte>, off: nat, bits: uint64)
    requires At(b, off, [0xcb] + Be64(bits))
    ensures bits == TOP ==> HeadAt(b, off) == Some(Scalar(NegativeZero, 9))
    ensures forall n :: bits != TOP && -0x8000_0000 <= n < 0x8000_0000 && IsWorth(bits, n) ==>
      HeadAt(b, off) == Some(Scalar(Int(n), 9))
    ensures (forall n :: -0x8000_0000 <= n < 0x8000_0000 ==> !IsWorth(bits, n)) ==>
      HeadAt(b, off) == Some(Scalar(Double(Be64(bits)), 9))
  {
    assert |Be64(bits)| == 8;
    hide HeadAt, NumberOf, IsWorth, Be64;
    HeadOfFloat(b, off, Be64(bits));
    NumberIs(bits);
  }

  // ---- the values that the round trip is about ------------------------------------------------

  /** u is v, or inside of it; what an object inherits is not. */
  predicate Inside(u: Value, v: Value)
    decreases v
  {
    u == v || match v
      case Array(items) => exists i :: 0 <= i < |items| && Inside(u, items[i])
      case Object(es, _) => exists i :: 0 <= i < |es| && Inside(u, es[i].value)
      case _ => false
  }

  /** The values that JavaScript has, whatever is inside of them: a number is an int or a double, but not both. */
  ghost predicate ThereIs(u: Value) {
    match u
    case Int(n) => -0x8000_0000 <= n < 0x8000_0000
    case Double(bits) =>
      |bits| == 8 && forall n :: -0x8000_0000 <= n < 0x8000_0000 ==> !IsWorth(U64(bits, 0), n)
    case Float(_) => false
    case Object(es, proto) => proto.Plain? && forall i, j :: 0 <= i < j < |es| ==> es[i].key != es[j].key
    case _ => true
  }

  /** No length in u itself needs more than 32 bits. */
  predicate ShortEnough(u: Value) {
    match u
    case Str(s) => |Utf8.Encode(s)| < 0x1_0000_0000
    case Array(items) => |items| < 0x1_0000_0000
    case Object(es, _) =>
      |es| < 0x1_0000_0000 && forall i :: 0 <= i < |es| ==> |Utf8.Encode(es[i].key)| < 0x1_0000_0000
    case _ => true
  }

  lemma DoubleThereIs(bits: seq<byte>)
    ensures Representable(Double(bits)) <==> ThereIs(Double(bits))
  {
    hide IntegerOf, IsWorth;
    if |bits| == 8 {
      forall n | -0x8000_0000 <= n < 0x8000_0000 && IsWorth(U64(bits, 0), n) ensures IntegerOf(U64(bits, 0)).Some? {
        IntegerOfExactly(U64(bits, 0), n);
      }
      if IntegerOf(U64(bits, 0)).Some? {
        IntegerOfExactly(U64(bits, 0), IntegerOf(U64(bits, 0)).value);
      }
    }
  }

  /** The values of the round trip are those that JavaScript has all the way down. */
  lemma {:induction false} RepresentableExactly(v: Value)
    ensures Representable(v) <==> forall u :: Inside(u, v) ==> ThereIs(u)
    decreases v
  {
    hide IsWorth, IntegerOf;
    assert Inside(v, v);
    match v
    case Array(items) =>
      forall i | 0 <= i < |items| ensures Representable(items[i]) <==> forall u :: Inside(u, items[i]) ==> ThereIs(u) {
        RepresentableExactly(items[i]);
      }
      assert forall i, u :: 0 <= i < |items| && Inside(u, items[i]) ==> Inside(u, v);
    case Object(es, _) =>
      forall i | 0 <= i < |es|
        ensures Representable(es[i].value) <==> forall u :: Inside(u, es[i].value) ==> ThereIs(u)
      {
        RepresentableExactly(es[i].value);
      }
      assert forall i, u :: 0 <= i < |es| && Inside(u, es[i].value) ==> Inside(u, v);
    case Double(bits) => DoubleThereIs(bits);
    case _ =>
  }

  /** encode takes every value in which no string, key, array or object is too long for 32 bits, at any depth. */
  lemma {:induction false} EncodableExactly(v: Value)
    ensures Encodable(v) <==> forall u :: Inside(u, v) ==> ShortEnough(u)
    decreases v
  {
    hide Utf8.Encode;
    assert Inside(v, v);
    match v
    case Array(items) =>
      forall i | 0 <= i < |items| ensures Encodable(items[i]) <==> forall u :: Inside(u, items[i]) ==> ShortEnough(u) {
        EncodableExactly(items[i]);
      }
      assert forall i, u :: 0 <= i < |items| && Inside(u, items[i]) ==> Inside(u, v);
    case Object(es, _) =>
      forall i | 0 <= i < |es|
        ensures Encodable(es[i].value) <==> forall u :: Inside(u, es[i].value) ==> ShortEnough(u)
      {
        EncodableExactly(es[i].value);
      }
      assert forall i, u :: 0 <= i < |es| && Inside(u, es[i].value) ==> Inside(u, v);
    case _ =>
  }
}
