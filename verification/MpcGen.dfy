/**
 The Message struct of mpc.go with the generated code of mpc_gen.go: decoded in place
 into whatever the struct and its Error pointer hold already, field by field.
 */
module MpcGen {
  import opened Bytes
  import opened Msgp
  import opened Wire

  /** A msgp.Raw: nil, or the first len bytes of an array. The capacity is the length of the array. */
  datatype Slice = Nil | Slice(data: array<byte>, len: nat) {
    predicate Valid() {
      Slice? ==> len <= data.Length
    }

    ghost function Storage(): set<object> {
      if Nil? then {} else {data}
    }

    function Cap(): nat {
      if Nil? then 0 else data.Length
    }

    function Contents(): seq<byte>
      requires Valid()
      reads Storage()
    {
      if Nil? then [] else data[..len]
    }

    /** raw[:0] */
    function Emptied(): Slice {
      if Nil? then Nil else Slice(data, 0)
    }
  }

  /** Makes the slice hold the bytes: in its own array if that is long enough, else in a new one. */
  method Fill(s: Slice, bytes: seq<byte>) returns (r: Slice)
    requires s.Valid()
    modifies s.Storage()
    ensures r.Valid() && r.Contents() == bytes
    ensures if s.Cap() < |bytes| then fresh(r.Storage()) && r.Cap() == |bytes|
      else r.Storage() == s.Storage() && r.Cap() == s.Cap()
  {
    if s.Cap() < |bytes| {
      var data := new byte[|bytes|](i requires 0 <= i < |bytes| => bytes[i]);
      assert data[..|bytes|] == bytes;
      return Slice(data, |bytes|);
    }
    if s.Nil? { return Nil; }
    forall i | 0 <= i < |bytes| {
      s.data[i] := bytes[i];
    }
    r := Slice(s.data, |bytes|);
    assert r.Contents() == bytes;
  }

  lemma Regroup(b: seq<byte>, m: Fields)
    ensures b + [0x95] + AppendUint(m.id) + AppendString(m.fn) + AppendRaw(m.args) + AppendRaw(m.result)
      + EncodeError(m.error) == b + Encode(m)
  {
    hide AppendUint, AppendString, AppendRaw, Encode, EncodeError;
    EncodeIs(m);
    var p1, p2, p3 := AppendUint(m.id), AppendString(m.fn), AppendRaw(m.args);
    var p4, p5 := AppendRaw(m.result), EncodeError(m.error);
    assert p3 + (p4 + p5) == p3 + p4 + p5;
    assert p2 + (p3 + p4 + p5) == p2 + p3 + p4 + p5;
    assert [0x95] + (p1 + (p2 + p3 + p4 + p5)) == [0x95] + p1 + p2 + p3 + p4 + p5;
    assert b + ([0x95] + p1 + p2 + p3 + p4 + p5) == b + [0x95] + p1 + p2 + p3 + p4 + p5;
  }

  class Error {
    var msg: seq<byte>

    constructor (msg: seq<byte>)
      ensures this.msg == msg
    {
      this.msg := msg;
    }
  }

  /** msgp.Reader: the bytes of the stream that have not been consumed. */
  class Reader {
    var rest: seq<byte>

    constructor (rest: seq<byte>)
      ensures this.rest == rest
    {
      this.rest := rest;
    }

    /** Moves on behind what a primitive has read; on a failure it is unknown how far the reader got. */
    method Advance<T>(read: Read<T>)
      modifies this
      ensures read.Got? ==> rest == read.rest
    {
      if read.Got? { rest := read.rest; }
    }
  }

  /**
   An io.Writer, and what becomes of the next writes to it: None for one that works, or else how
   many bytes get through before the error. After an error nothing gets through.
   */
  class Sink {
    var taken: seq<byte>
    var failed: bool
    var outcomes: seq<Option<nat>>

    constructor (outcomes: seq<Option<nat>>)
      ensures taken == [] && !failed && this.outcomes == outcomes
    {
      taken, failed, this.outcomes := [], false, outcomes;
    }

    /** No write has failed, and none will. */
    predicate Sound()
      reads this
    {
      !failed && outcomes == []
    }

    method Write(bytes: seq<byte>) returns (ok: bool)
      modifies this
      ensures ok ==> !old(failed) && !failed && taken == old(taken) + bytes
      ensures !ok ==> failed && taken <= old(taken) + bytes
      ensures old(Sound()) ==> ok && Sound()
    {
      if failed {
        ok := false;
      } else if outcomes == [] || outcomes[0] == None {
        taken, ok := taken + bytes, true;
      } else {
        taken, failed, ok := taken + bytes[..Least(outcomes[0].value, |bytes|)], true, false;
      }
      outcomes := if outcomes == [] then [] else outcomes[1..];
    }
  }

  function Least(a: nat, b: nat): nat {
    if a < b then a else b
  }

  /** msgp.Writer: a buffer of the given size in front of a sink. */
  class Writer {
    const size: nat
    var sink: Sink
    var buffered: seq<byte>

    constructor (sink: Sink, size: nat)
      ensures this.sink == sink && this.size == size && buffered == []
    {
      this.sink, this.size, buffered := sink, size, [];
    }

    method Reset(sink: Sink)
      modifies this
      ensures this.sink == sink && buffered == []
    {
      this.sink, buffered := sink, [];
    }

    /** Everything written so far. */
    ghost function Out(): seq<byte>
      reads this, sink
    {
      sink.taken + buffered
    }

    /** Adds the bytes, or the sink has failed and has taken no more than all, which they were to be a part of. */
    method Append(bytes: seq<byte>, ghost all: seq<byte>) returns (ok: bool)
      requires Out() + bytes <= all
      modifies this`buffered, sink
      ensures ok ==> Out() == old(Out()) + bytes && sink.failed == old(sink.failed)
      ensures !ok ==> sink.failed && sink.taken <= all
      ensures old(sink.Sound()) ==> ok && sink.Sound()
    {
      ghost var out := Out();
      Cut(out, bytes, all);
      if size < |buffered| + |bytes| {
        ok := Flush();
        Cut(sink.taken, out[|sink.taken|..], all);
        if !ok { return; }
        if size < |bytes| {
          ok := sink.Write(bytes);
          Cut(sink.taken, (out + bytes)[|sink.taken|..], all);
          return;
        }
      }
      assert out + bytes == sink.taken + (buffered + bytes);
      buffered := buffered + bytes;
      ok := true;
    }

    method Flush() returns (ok: bool)
      modifies this`buffered, sink
      ensures ok ==> sink.taken == old(Out()) && buffered == [] && sink.failed == old(sink.failed)
      ensures !ok ==> sink.failed && sink.taken <= old(Out())
      ensures old(sink.Sound()) ==> ok && sink.Sound()
    {
      if buffered == [] { return true; }
      ghost var before := sink.taken;
      ok := sink.Write(buffered);
      if ok { buffered := []; }
    }
  }

  lemma Cut(a: seq<byte>, b: seq<byte>, all: seq<byte>)
    ensures a + b <= all ==> a <= all
  {
    if a + b <= all {
      assert all[..|a|] == all[..|a + b|][..|a|] == (a + b)[..|a|] == a;
    }
  }

  class Message {
    var id: uint64
    var fn: seq<byte>
    var args: Slice
    var result: Slice
    var error: Error?

    /** The zero Message. */
    constructor ()
      ensures Valid() && Value() == Fields(0, [], [], [], None)
      ensures args == Nil && result == Nil && error == null && Repr() == {this}
    {
      id, fn, args, result, error := 0, [], Nil, Nil, null;
    }

    /** Everything the message may write to when it is used again. */
    ghost function Repr(): set<object>
      reads this
    {
      {this} + args.Storage() + result.Storage() + if error == null then {} else {error}
    }

    lemma ReprAllocated()
      ensures forall o :: o in Repr() ==> allocated(o)
    {
    }

    /** The two payload buffers never share storage. */
    ghost predicate Valid()
      reads this
    {
      args.Valid() && result.Valid() && args.Storage() !! result.Storage()
    }

    ghost function Value(): Fields
      requires Valid()
      reads this, Repr()
    {
      Fields(id, fn, args.Contents(), result.Contents(), if error == null then None else Some(error.msg))
    }

    /** Writes the whole encoding, or the sink has failed and has taken no more than a part of it. */
    method EncodeMsg(en: Writer) returns (ok: bool)
      requires Valid() && en !in Repr() && en.sink !in Repr()
      modifies en`buffered, en.sink
      ensures ok ==> en.Out() == old(en.Out()) + Encode(Value()) && en.sink.failed == old(en.sink.failed)
      ensures !ok ==> en.sink.failed && en.sink.taken <= old(en.Out()) + Encode(Value())
      ensures old(en.sink.Sound()) ==> ok && en.sink.Sound()
    {
      hide AppendUint, AppendString, AppendRaw, Encode, EncodeError, Writer.Out, Sink.Sound;
      Regroup(en.Out(), Value());
      ghost var all := en.Out() + Encode(Value());
      ghost var fields := en.Out() + [0x95] + AppendUint(id) + AppendString(fn)
        + AppendRaw(args.Contents()) + AppendRaw(result.Contents());
      Cut(fields, EncodeError(Value().error), all);
      ok := EncodeFields(en, all);
      if !ok { return; }
      ok := EncodeErrorTo(en, all);
    }

    method EncodeFields(en: Writer, ghost all: seq<byte>) returns (ok: bool)
      requires Valid() && en !in Repr() && en.sink !in Repr()
      requires en.Out() + [0x95] + AppendUint(id) + AppendString(fn)
        + AppendRaw(args.Contents()) + AppendRaw(result.Contents()) <= all
      modifies en`buffered, en.sink
      ensures ok ==> en.sink.failed == old(en.sink.failed)
      ensures ok ==>
        en.Out() == old(en.Out()) + [0x95] + AppendUint(id) + AppendString(fn)
          + AppendRaw(args.Contents()) + AppendRaw(result.Contents())
      ensures !ok ==> en.sink.failed && en.sink.taken <= all
      ensures old(en.sink.Sound()) ==> ok && en.sink.Sound()
    {
      hide AppendUint, AppendString, AppendRaw, Writer.Out, Sink.Sound;
      ghost var b1 := en.Out() + [0x95];
      ghost var b2 := b1 + AppendUint(id);
      ghost var b3 := b2 + AppendString(fn);
      ghost var b4 := b3 + AppendRaw(args.Contents());
      Cut(b4, AppendRaw(result.Contents()), all);
      Cut(b3, AppendRaw(args.Contents()), all);
      Cut(b2, AppendString(fn), all);
      Cut(b1, AppendUint(id), all);
      ok := en.Append([0x95], all);
      if !ok { return; }
      ok := en.Append(AppendUint(id), all);
      if !ok { return; }
      ok := en.Append(AppendString(fn), all);
      if !ok { return; }
      ok := en.Append(AppendRaw(args.Contents()), all);
      if !ok { return; }
      ok := en.Append(AppendRaw(result.Contents()), all);
    }

    method EncodeErrorTo(en: Writer, ghost all: seq<byte>) returns (ok: bool)
      requires Valid() && en !in Repr() && en.sink !in Repr()
      requires en.Out() + EncodeError(Value().error) <= all
      modifies en`buffered, en.sink
      ensures ok ==> en.Out() == old(en.Out()) + EncodeError(Value().error) && en.sink.failed == old(en.sink.failed)
      ensures !ok ==> en.sink.failed && en.sink.taken <= all
      ensures old(en.sink.Sound()) ==> ok && en.sink.Sound()
    {
      hide AppendString, Writer.Out, Sink.Sound;
      if error == null {
        ok := en.Append([NIL], all);
      } else {
        ghost var out, msg := en.Out(), AppendString(error.msg);
        assert out + ([0x91] + msg) == out + [0x91] + msg;
        Cut(out + [0x91], msg, all);
        ok := en.Append([0x91], all);
        if !ok { return; }
        ok := en.Append(AppendString(error.msg), all);
      }
    }

    method MarshalMsg(b: seq<byte>) returns (o: seq<byte>)
      requires Valid()
      ensures o == b + Encode(Value())
    {
      hide AppendUint, AppendString, AppendRaw, Encode;
      Regroup(b, Value());
      o := b + [0x95];
      o := o + AppendUint(id);
      o := o + AppendString(fn);
      o := o + AppendRaw(args.Contents());
      o := o + AppendRaw(result.Contents());
      if error == null {
        o := o + [NIL];
      } else {
        o := o + [0x91];
        o := o + AppendString(error.msg);
      }
    }

    /** Raw.UnmarshalMsg on Args. */
    method UnmarshalArgs(bts: seq<byte>) returns (r: Result<seq<byte>, WireFault>)
      requires Valid()
      modifies this`args, args.Storage()
      ensures Valid() && (args.Storage() == old(args.Storage()) || fresh(args.Storage()))
      ensures match ReadRaw(bts)
        case Fail => r == Err(BadField("Args"))
        case Got(raw, rest) => r == Ok(rest) && args.Contents() == raw
    {
      var read := ReadRaw(bts);
      if read.Fail? { return Err(BadField("Args")); }
      args := Fill(args, read.value);
      return Ok(read.rest);
    }

    method UnmarshalResult(bts: seq<byte>) returns (r: Result<seq<byte>, WireFault>)
      requires Valid()
      modifies this`result, result.Storage()
      ensures Valid() && (result.Storage() == old(result.Storage()) || fresh(result.Storage()))
      ensures match ReadRaw(bts)
        case Fail => r == Err(BadField("Result"))
        case Got(raw, rest) => r == Ok(rest) && result.Contents() == raw
    {
      var read := ReadRaw(bts);
      if read.Fail? { return Err(BadField("Result")); }
      result := Fill(result, read.value);
      return Ok(read.rest);
    }

    /** The Error field: a nil clears the pointer, anything else is decoded into what it points to. */
    method UnmarshalError(bts: seq<byte>) returns (r: Result<seq<byte>, WireFault>)
      requires Valid()
      modifies this`error, if error == null then {} else {error}
      ensures error == null || error == old(error) || fresh(error)
      ensures match ReadError(bts)
        case Err(e) => r == Err(e)
        case Ok((value, rest)) => r == Ok(rest) && (if error == null then None else Some(error.msg)) == value
    {
      if IsNil(bts) {
        error := null;
        return Ok(bts[1..]);
      }
      if error == null {
        error := new Error([]);
      }
      var header := ReadArrayHeader(bts);
      if header.Fail? { return Err(BadField("Error")); }
      if header.value != 1 { return Err(WrongArity(1, header.value)); }
      var msg := ReadString(header.rest);
      if msg.Fail? { return Err(BadField("Error.Msg")); }
      error.msg := msg.value;
      return Ok(msg.rest);
    }

    method UnmarshalHead(bts: seq<byte>) returns (r: Result<seq<byte>, WireFault>)
      modifies this`id, this`fn
      ensures match DecodeHead(bts)
        case Err(e) => r == Err(e)
        case Ok((n, s, rest)) => r == Ok(rest) && id == n && fn == s
    {
      var header := ReadArrayHeader(bts);
      if header.Fail? { return Err(BadField("")); }
      if header.value != 5 { return Err(WrongArity(5, header.value)); }
      var n := ReadUint64(header.rest);
      if n.Fail? { return Err(BadField("ID")); }
      id := n.value;
      var s := ReadString(n.rest);
      if s.Fail? { return Err(BadField("Func")); }
      fn := s.value;
      return Ok(s.rest);
    }

    method UnmarshalPayloads(bts: seq<byte>) returns (r: Result<seq<byte>, WireFault>)
      requires Valid()
      modifies this`args, this`result, args.Storage(), result.Storage()
      ensures Valid()
      ensures fresh(args.Storage() + result.Storage() - old(args.Storage() + result.Storage()))
      ensures match ReadRaw(bts)
        case Fail => r == Err(BadField("Args"))
        case Got(a, b) =>
          match ReadRaw(b)
          case Fail => r == Err(BadField("Result"))
          case Got(res, rest) => r == Ok(rest) && args.Contents() == a && result.Contents() == res
    {
      hide ReadRaw;
      r := UnmarshalArgs(bts);
      if r.Err? { return; }
      r := UnmarshalResult(r.value);
    }

    /** Args, Result and Error. */
    method UnmarshalTail(bts: seq<byte>) returns (r: Result<seq<byte>, WireFault>)
      requires Valid()
      modifies this`args, this`result, this`error, Repr() - {this}
      ensures Valid() && fresh(Repr() - old(Repr()))
      ensures match DecodeTail(bts)
        case Err(e) => r == Err(e)
        case Ok((a, res, e, rest)) => r == Ok(rest) && Value() == Fields(id, fn, a, res, e)
    {
      hide ReadRaw, ReadError;
      r := UnmarshalPayloads(bts);
      if r.Err? { return; }
      r := UnmarshalError(r.value);
    }

    /** Decodes into a message in any state: what it held before shows in no field. */
    method UnmarshalMsg(bts: seq<byte>) returns (r: Result<seq<byte>, WireFault>)
      requires Valid()
      modifies Repr()
      ensures Valid() && fresh(Repr() - old(Repr()))
      ensures match Decode(bts)
        case Err(e) => r == Err(e)
        case Ok((m, rest)) => r == Ok(rest) && Value() == m
    {
      hide DecodeHead, DecodeTail;
      r := UnmarshalHead(bts);
      if r.Err? { return; }
      r := UnmarshalTail(r.value);
    }

    method DecodeHeadFrom(dc: Reader) returns (r: Result<(), WireFault>)
      modifies this`id, this`fn, dc
      ensures match DecodeHead(old(dc.rest))
        case Err(e) => r == Err(e)
        case Ok((n, s, rest)) => r == Ok(()) && id == n && fn == s && dc.rest == rest
    {
      hide ReadArrayHeader, ReadUint64, ReadString;
      var header := ReadArrayHeader(dc.rest);
      dc.Advance(header);
      if header.Fail? { return Err(BadField("")); }
      if header.value != 5 { return Err(WrongArity(5, header.value)); }
      var n := ReadUint64(dc.rest);
      dc.Advance(n);
      if n.Fail? { return Err(BadField("ID")); }
      id := n.value;
      var s := ReadString(dc.rest);
      dc.Advance(s);
      if s.Fail? { return Err(BadField("Func")); }
      fn := s.value;
      return Ok(());
    }

    /** Raw.DecodeMsg on Args. */
    method DecodeArgs(dc: Reader) returns (r: Result<(), WireFault>)
      requires Valid()
      modifies this`args, args.Storage(), dc
      ensures Valid() && (args.Storage() == old(args.Storage()) || fresh(args.Storage()))
      ensures match ReadRaw(old(dc.rest))
        case Fail => r == Err(BadField("Args"))
        case Got(raw, rest) => r == Ok(()) && args.Contents() == raw && dc.rest == rest
    {
      hide ReadRaw;
      var read := ReadRaw(dc.rest);
      dc.Advance(read);
      if read.Fail? { return Err(BadField("Args")); }
      args := Fill(args, read.value);
      return Ok(());
    }

    method DecodeResult(dc: Reader) returns (r: Result<(), WireFault>)
      requires Valid()
      modifies this`result, result.Storage(), dc
      ensures Valid() && (result.Storage() == old(result.Storage()) || fresh(result.Storage()))
      ensures match ReadRaw(old(dc.rest))
        case Fail => r == Err(BadField("Result"))
        case Got(raw, rest) => r == Ok(()) && result.Contents() == raw && dc.rest == rest
    {
      hide ReadRaw;
      var read := ReadRaw(dc.rest);
      dc.Advance(read);
      if read.Fail? { return Err(BadField("Result")); }
      result := Fill(result, read.value);
      return Ok(());
    }

    method DecodeErrorFrom(dc: Reader) returns (r: Result<(), WireFault>)
      requires Valid()
      modifies this`error, dc, if error == null then {} else {error}
      ensures error == null || error == old(error) || fresh(error)
      ensures match ReadError(old(dc.rest))
        case Err(e) => r == Err(e)
        case Ok((value, rest)) =>
          r == Ok(()) && (if error == null then None else Some(error.msg)) == value && dc.rest == rest
    {
      hide ReadArrayHeader, ReadString;
      if IsNil(dc.rest) {
        dc.rest := dc.rest[1..];
        error := null;
        return Ok(());
      }
      if error == null {
        error := new Error([]);
      }
      var header := ReadArrayHeader(dc.rest);
      dc.Advance(header);
      if header.Fail? { return Err(BadField("Error")); }
      if header.value != 1 { return Err(WrongArity(1, header.value)); }
      var msg := ReadString(dc.rest);
      dc.Advance(msg);
      if msg.Fail? { return Err(BadField("Error.Msg")); }
      error.msg := msg.value;
      return Ok(());
    }

    method DecodePayloads(dc: Reader) returns (r: Result<(), WireFault>)
      requires Valid()
      modifies this`args, this`result, args.Storage(), result.Storage(), dc
      ensures Valid()
      ensures fresh(args.Storage() + result.Storage() - old(args.Storage() + result.Storage()))
      ensures match ReadRaw(old(dc.rest))
        case Fail => r == Err(BadField("Args"))
        case Got(a, b) =>
          match ReadRaw(b)
          case Fail => r == Err(BadField("Result"))
          case Got(res, rest) => r == Ok(()) && args.Contents() == a && result.Contents() == res && dc.rest == rest
    {
      hide ReadRaw;
      r := DecodeArgs(dc);
      if r.Err? { return; }
      r := DecodeResult(dc);
    }

    method DecodeTailFrom(dc: Reader) returns (r: Result<(), WireFault>)
      requires Valid() && dc !in Repr()
      modifies this`args, this`result, this`error, Repr() - {this}, dc
      ensures Valid() && fresh(Repr() - old(Repr())) && dc !in Repr()
      ensures match DecodeTail(old(dc.rest))
        case Err(e) => r == Err(e)
        case Ok((a, res, e, rest)) => r == Ok(()) && Value() == Fields(id, fn, a, res, e) && dc.rest == rest
    {
      hide ReadRaw, ReadError;
      r := DecodePayloads(dc);
      if r.Err? { return; }
      r := DecodeErrorFrom(dc);
    }

    /** The same from a stream, which is left behind the message. */
    method DecodeMsg(dc: Reader) returns (r: Result<(), WireFault>)
      requires Valid() && dc !in Repr()
      modifies Repr(), dc
      ensures Valid() && fresh(Repr() - old(Repr())) && dc !in Repr()
      ensures match Decode(old(dc.rest))
        case Err(e) => r == Err(e)
        case Ok((m, rest)) => r == Ok(()) && Value() == m && dc.rest == rest
    {
      hide DecodeHead, DecodeTail;
      r := DecodeHeadFrom(dc);
      if r.Err? { return; }
      r := DecodeTailFrom(dc);
    }
  }
}
