/**
 The maps that msgp generates code for: a struct goes out as a map from field names to
 values, and comes in from a map with any keys in any order. A struct is a record here,
 and which fields it has is its schema.
 */
module FieldMap {
  import opened Bytes
  import opened Formats
  import opened Msgp

  datatype Kind = StringField | Uint32Field

  datatype Value = Text(s: seq<byte>) | Number(n: uint32)

  type Schema = map<seq<byte>, Kind>

  type Record = map<seq<byte>, Value>

  /** An entry of a map: the key, and the bytes of the object that is its value. */
  datatype Pair = Pair(key: seq<byte>, value: seq<byte>)

  function ReadAs(kind: Kind, b: seq<byte>): (r: Read<Value>)
    ensures r.Got? ==> |r.rest| < |b|
  {
    match kind
    case StringField => (match ReadString(b) case Fail => Fail case Got(s, rest) => Got(Text(s), rest))
    case Uint32Field => (match ReadUint32(b) case Fail => Fail case Got(n, rest) => Got(Number(n), rest))
  }

  function Append(v: Value): seq<byte> {
    match v
    case Text(s) => AppendString(s)
    case Number(n) => AppendUint(n)
  }

  /** What stands behind some entries: the rest of the input, or an entry that cannot be read. */
  datatype Tail = Rest(b: seq<byte>) | BadKey | BadValue(key: seq<byte>)

  /** The record and the rest of the input, or an error, with the field it is about if there is one. */
  datatype Outcome = Decoded(v: Record, rest: seq<byte>) | Fault(field: Option<seq<byte>>)

  /** The next n entries, whatever they are, as far as they can be read. */
  function Pairs(b: seq<byte>, n: nat): (seq<Pair>, Tail) {
    if n == 0 then ([], Rest(b)) else
    match ReadMapKey(b)
    case Fail => ([], BadKey)
    case Got(key, b) =>
      match ReadObject(b)
      case Fail => ([], BadValue(key))
      case Got(value, b) => ([Pair(key, value)] + Pairs(b, n - 1).0, Pairs(b, n - 1).1)
  }

  /** Sets the field that the key names, if there is one; the error is the key. */
  function Assign(schema: Schema, z: Record, p: Pair): Result<Record, seq<byte>> {
    if p.key !in schema then Ok(z)
    else match ReadAs(schema[p.key], p.value)
      case Fail => Err(p.key)
      case Got(v, _) => Ok(z[p.key := v])
  }

  /** The left fold of Assign. */
  function AssignAll(schema: Schema, z: Record, ps: seq<Pair>): Result<Record, seq<byte>>
    decreases |ps|
  {
    if ps == [] then Ok(z)
    else match Assign(schema, z, ps[0])
      case Err(key) => Err(key)
      case Ok(next) => AssignAll(schema, next, ps[1..])
  }

  function DecodeEntries(schema: Schema, z: Record, b: seq<byte>, n: nat): Outcome {
    match AssignAll(schema, z, Pairs(b, n).0)
    case Err(key) => Fault(Some(key))
    case Ok(v) =>
      match Pairs(b, n).1
      case Rest(rest) => Decoded(v, rest)
      case BadKey => Fault(None)
      case BadValue(key) => Fault(if key in schema then Some(key) else None)
  }

  /** Decoding into z: first all entries are taken apart, then they are assigned in turn. */
  function Decode(schema: Schema, z: Record, b: seq<byte>): Outcome {
    match ReadMapHeader(b)
    case Fail => Fault(None)
    case Got(n, rest) => DecodeEntries(schema, z, rest, n)
  }

  // ---- one turn of the generated loop ---------------------------------------------------

  lemma StringOfObject(b: seq<byte>)
    requires ReadString(b).Got?
    ensures ReadString(b[..|b| - |ReadString(b).rest|]) == Got(ReadString(b).value, [])
  {
    var k := |b| - |ReadString(b).rest|;
    assert forall i :: 0 <= i < k ==> b[..k][i] == b[i];
    var s := ReadString(b).value;
    assert b[..k][k - |s|..k - |s| + |s|] == b[k - |s|..k];
  }

  lemma UintOfObject(b: seq<byte>)
    requires ReadUint64(b).Got?
    ensures ReadUint64(b[..|b| - |ReadUint64(b).rest|]) == Got(ReadUint64(b).value, [])
  {
    var k := |b| - |ReadUint64(b).rest|;
    assert forall i :: 0 <= i < k ==> b[..k][i] == b[i];
  }

  /** Reading a value in place is skipping it and reading what was skipped. */
  lemma ReadAsObject(kind: Kind, b: seq<byte>)
    ensures match ReadObject(b)
      case Fail => ReadAs(kind, b).Fail?
      case Got(raw, rest) =>
        ReadAs(kind, b) == match ReadAs(kind, raw) case Fail => Fail case Got(v, _) => Got(v, rest)
  {
    hide ReadString, ReadUint64;
    StringIsObject(b);
    UintIsObject(b);
    if ReadString(b).Got? { StringOfObject(b); }
    if ReadUint64(b).Got? { UintOfObject(b); }
    if ReadObject(b).Got? {
      var (raw, rest) := (ReadObject(b).value, ReadObject(b).rest);
      assert b == raw + rest;
      StringExtends(raw, rest);
      UintExtends(raw, rest);
    }
  }

  lemma Step(schema: Schema, z: Record, b: seq<byte>, n: nat)
    requires n > 0
    ensures DecodeEntries(schema, z, b, n) == match ReadMapKey(b)
      case Fail => Fault(None)
      case Got(key, b) =>
        if key in schema then
          match ReadAs(schema[key], b)
          case Fail => Fault(Some(key))
          case Got(v, b) => DecodeEntries(schema, z[key := v], b, n - 1)
        else
          match ReadObject(b)
          case Fail => Fault(None)
          case Got(_, b) => DecodeEntries(schema, z, b, n - 1)
  {
    hide ReadAs, ReadObject;
    match ReadMapKey(b)
    case Fail =>
    case Got(key, b') =>
      if key in schema { ReadAsObject(schema[key], b'); }
      if ReadObject(b').Got? {
        var p, ps := Pair(key, ReadObject(b').value), Pairs(ReadObject(b').rest, n - 1).0;
        assert ([p] + ps)[1..] == ps;
      }
  }

  // ---- what the fold comes to -------------------------------------------------------------

  /** The value of the last entry with the key. */
  function Last(ps: seq<Pair>, key: seq<byte>): Option<seq<byte>> {
    if ps == [] then None
    else if Last(ps[1..], key).Some? then Last(ps[1..], key)
    else if ps[0].key == key then Some(ps[0].value)
    else None
  }

  /** Every value of a known field is of the type of that field. */
  predicate Readable(schema: Schema, ps: seq<Pair>) {
    forall p :: p in ps && p.key in schema ==> ReadAs(schema[p.key], p.value).Got?
  }

  /** v is z with the known fields set as the entries say: the last one counts, and fields without one stay. */
  predicate Updated(schema: Schema, z: Record, ps: seq<Pair>, v: Record)
    requires z.Keys == schema.Keys
  {
    && v.Keys == schema.Keys
    && forall key :: key in schema ==>
      match Last(ps, key)
      case None => v[key] == z[key]
      case Some(raw) => ReadAs(schema[key], raw).Got? && v[key] == ReadAs(schema[key], raw).value
  }

  lemma LastIsThere(ps: seq<Pair>, key: seq<byte>)
    ensures Last(ps, key).Some? <==> exists p :: p in ps && p.key == key
    ensures Last(ps, key).Some? ==> Pair(key, Last(ps, key).value) in ps
  {
    if ps == [] {
    } else {
      LastIsThere(ps[1..], key);
      assert ps == [ps[0]] + ps[1..];
    }
  }

  predicate Unreadable(schema: Schema, p: Pair) {
    p.key in schema && ReadAs(schema[p.key], p.value).Fail?
  }

  /** How many entries come before the first with a value of the wrong type. */
  function FirstFault(schema: Schema, ps: seq<Pair>): (n: nat)
    ensures n <= |ps| && forall i :: 0 <= i < n ==> !Unreadable(schema, ps[i])
    ensures n < |ps| ==> Unreadable(schema, ps[n])
  {
    if ps == [] || Unreadable(schema, ps[0]) then 0 else 1 + FirstFault(schema, ps[1..])
  }

  /** An error is about the first value of the wrong type. */
  lemma {:induction false} FirstFaultCounts(schema: Schema, z: Record, ps: seq<Pair>)
    ensures AssignAll(schema, z, ps).Err? <==> FirstFault(schema, ps) < |ps|
    ensures AssignAll(schema, z, ps).Err? ==> AssignAll(schema, z, ps) == Err(ps[FirstFault(schema, ps)].key)
    decreases |ps|
  {
    hide ReadAs;
    if ps == [] {
    } else if !Unreadable(schema, ps[0]) {
      FirstFaultCounts(schema, Assign(schema, z, ps[0]).value, ps[1..]);
    }
  }

  /**
   Assigning succeeds exactly when every value of a known field has the right type. Then unknown keys
   are skipped, the last of several entries for a field wins, and a field without one is left alone.
   */
  lemma {:induction false} LastWins(schema: Schema, z: Record, ps: seq<Pair>)
    requires z.Keys == schema.Keys
    ensures AssignAll(schema, z, ps).Ok? <==> Readable(schema, ps)
    ensures AssignAll(schema, z, ps).Ok? ==> Updated(schema, z, ps, AssignAll(schema, z, ps).value)
    decreases |ps|
  {
    hide ReadAs;
    if ps == [] {
    } else {
      assert ps == [ps[0]] + ps[1..];
      assert Readable(schema, ps) <==> Readable(schema, [ps[0]]) && Readable(schema, ps[1..]);
      assert ps[0] in ps;
      var next := Assign(schema, z, ps[0]);
      if next.Ok? {
        LastWins(schema, next.value, ps[1..]);
      }
    }
  }

  /** No known field is given two values. */
  predicate Unambiguous(schema: Schema, ps: seq<Pair>) {
    forall p, q :: p in ps && q in ps && p.key in schema && p.key == q.key ==> p == q
  }

  /** Entries for different fields may come in any order, among any unknown ones. */
  lemma OrderIsIrrelevant(schema: Schema, z: Record, ps: seq<Pair>, qs: seq<Pair>)
    requires z.Keys == schema.Keys && Unambiguous(schema, ps)
    requires forall p: Pair :: p.key in schema ==> (p in ps <==> p in qs)
    ensures AssignAll(schema, z, ps).Ok? <==> AssignAll(schema, z, qs).Ok?
    ensures AssignAll(schema, z, ps).Ok? ==> AssignAll(schema, z, ps) == AssignAll(schema, z, qs)
  {
    hide ReadAs;
    LastWins(schema, z, ps);
    LastWins(schema, z, qs);
    forall key | key in schema ensures Last(ps, key) == Last(qs, key) {
      LastIsThere(ps, key);
      LastIsThere(qs, key);
    }
    if Readable(schema, ps) {
      assert Readable(schema, qs);
      assert AssignAll(schema, z, ps).value == AssignAll(schema, z, qs).value;
    } else {
      var p :| p in ps && p.key in schema && ReadAs(schema[p.key], p.value).Fail?;
      assert p in qs;
    }
  }

  // ---- one object ---------------------------------------------------------------------------

  lemma {:induction false} PairsAreObjects(b: seq<byte>, n: nat)
    requires Pairs(b, n).1.Rest?
    ensures |Pairs(b, n).1.b| <= |b|
    ensures Skip(b, 0, 2 * n) == Some(|b| - |Pairs(b, n).1.b|)
    ensures Pairs(b, n).1.b == b[|b| - |Pairs(b, n).1.b|..]
    decreases n
  {
    hide ReadMapKey, HeaderAt, Skip;
    if n == 0 {
      assert Skip(b, 0, 0) == Some(0) by { SkipNothing(b, 0); }
    } else {
      KeyIsObject(b);
      var b1 := ReadMapKey(b).rest;
      var b2 := ReadObject(b1).rest;
      var k1, k2 := |b| - |b1|, |b1| - |b2|;
      PairsAreObjects(b2, n - 1);
      assert b1 == b[k1..] && b2 == b[k1 + k2..];
      SkipShift(b, k1, 0, 1);
      SkipShift(b, k1 + k2, 0, 2 * (n - 1));
      SkipSum(b, 0, 1, 2 * n - 1);
      SkipSum(b, k1, 1, 2 * (n - 1));
    }
  }

  lemma MapHeaderIsNode(b: seq<byte>)
    requires ReadMapHeader(b).Got?
    ensures HeaderAt(b, 0) == Some(Node(|b| - |ReadMapHeader(b).rest|, 2 * ReadMapHeader(b).value))
    ensures ReadMapHeader(b).rest == b[|b| - |ReadMapHeader(b).rest|..]
  {
  }

  /** A decode that succeeds takes one object, no more and no less. */
  lemma DecodeTakesOneObject(schema: Schema, z: Record, b: seq<byte>)
    requires Decode(schema, z, b).Decoded?
    ensures ReadObject(b).Got? && ReadObject(b).rest == Decode(schema, z, b).rest
  {
    hide Pairs, AssignAll, Skip, HeaderAt, ReadMapHeader;
    var n, body := ReadMapHeader(b).value, ReadMapHeader(b).rest;
    var size := |b| - |body|;
    MapHeaderIsNode(b);
    SkipNode(b, size, 2 * n);
    PairsAreObjects(body, n);
    SkipShift(b, size, 0, 2 * n);
    var rest := Pairs(body, n).1.b;
    assert rest == b[|b| - |rest|..];
  }

  // ---- the round trip -------------------------------------------------------------------------

  function EncodePairs(ps: seq<Pair>): seq<byte> {
    if ps == [] then [] else AppendString(ps[0].key) + ps[0].value + EncodePairs(ps[1..])
  }

  predicate WellFormed(ps: seq<Pair>) {
    forall p :: p in ps ==> |p.key| < STR_LIMIT && OneObject(p.value)
  }

  lemma MapKeyBack(key: seq<byte>, rest: seq<byte>)
    requires |key| < STR_LIMIT
    ensures ReadMapKey(AppendString(key) + rest) == Got(key, rest)
  {
    StringBack(key, rest);
    var b := AppendString(key) + rest;
    assert b[0] == StringHeader(|key|)[0];
  }

  lemma ObjectBack(raw: seq<byte>, rest: seq<byte>)
    requires OneObject(raw)
    ensures ReadObject(raw + rest) == Got(raw, rest)
  {
    SkipExtends(raw, 0, 1, rest);
    assert (raw + rest)[..|raw|] == raw && (raw + rest)[|raw|..] == rest;
  }

  lemma {:induction false} PairsBack(ps: seq<Pair>, rest: seq<byte>)
    requires WellFormed(ps)
    ensures Pairs(EncodePairs(ps) + rest, |ps|) == (ps, Rest(rest))
    decreases |ps|
  {
    hide ReadMapKey, ReadObject, AppendString, OneObject;
    if ps == [] {
      assert [] + rest == rest;
    } else {
      var p, tail := ps[0], EncodePairs(ps[1..]) + rest;
      assert EncodePairs(ps) + rest == AppendString(p.key) + (p.value + tail);
      MapKeyBack(p.key, p.value + tail);
      ObjectBack(p.value, tail);
      PairsBack(ps[1..], rest);
      assert [p] + ps[1..] == ps;
    }
  }

  predicate Typed(schema: Schema, v: Record) {
    v.Keys == schema.Keys && forall key :: key in schema ==>
      if schema[key].StringField? then v[key].Text? && |v[key].s| < STR_LIMIT else v[key].Number?
  }

  /** Among other things the entries say all that v says, and nothing else about its fields. */
  predicate Says(schema: Schema, ps: seq<Pair>, v: Record)
    requires v.Keys == schema.Keys
  {
    && (forall p :: p in ps && p.key in schema ==> p.value == Append(v[p.key]))
    && (forall key :: key in schema ==> Last(ps, key).Some?)
  }

  lemma AppendBack(kind: Kind, v: Value)
    requires if kind.StringField? then v.Text? && |v.s| < STR_LIMIT else v.Number?
    ensures ReadAs(kind, Append(v)) == Got(v, [])
  {
    hide AppendString, AppendUint, ReadString, ReadUint64;
    assert Append(v) + [] == Append(v);
    if v.Text? { StringBack(v.s, []); } else { UintBack(v.n, []); }
  }

  /** A record comes back from its entries, in any order and with any other entries between them, into any target. */
  lemma RoundTrip(schema: Schema, z: Record, v: Record, header: seq<byte>, ps: seq<Pair>, rest: seq<byte>)
    requires z.Keys == schema.Keys && Typed(schema, v)
    requires WellFormed(ps) && Says(schema, ps, v)
    requires ReadMapHeader(header + EncodePairs(ps) + rest) == Got(|ps|, EncodePairs(ps) + rest)
    ensures Decode(schema, z, header + EncodePairs(ps) + rest) == Decoded(v, rest)
  {
    hide ReadMapHeader, ReadAs, Append, EncodePairs, Pairs;
    PairsBack(ps, rest);
    LastWins(schema, z, ps);
    forall key | key in schema ensures ReadAs(schema[key], Append(v[key])) == Got(v[key], []) {
      AppendBack(schema[key], v[key]);
    }
    forall key | key in schema ensures Last(ps, key) == Some(Append(v[key])) {
      LastIsThere(ps, key);
    }
    assert Readable(schema, ps);
    assert AssignAll(schema, z, ps).value == v;
  }
}
