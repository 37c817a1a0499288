/** mpc.go: conversion between birpc messages and wire messages, and who owns the payload buffers. */
module Mpc {
  import opened Bytes
  import opened Msgp
  import opened Wire
  import opened MpcGen
  import Formats

  const MAX_KEPT_BUFFER: nat := 0x1_0000

  /**
   A value to be sent as arguments or result: a nil interface, a value without MarshalMsg,
   or one whose MarshalMsg fails or yields bytes. It appends to the buffer it is given, in
   place if it can and wants to, or else in storage of its own with some capacity to spare.
   */
  datatype Argument =
    | Absent
    | NotMarshaler
    | Failing
    | Marshals(bytes: seq<byte>, inPlace: bool, spare: nat)

  /** A birpc message to be sent. */
  datatype Call = Call(id: uint64, fn: seq<byte>, args: Argument, result: Argument, error: Option<seq<byte>>)

  datatype ToWireFault = MarshalingArgs | MarshalingResult

  /** The bytes that stand for the value, if it can be sent. */
  function Marshaled(v: Argument): Option<seq<byte>> {
    match v
    case Absent => Some([])
    case Marshals(bytes, _, _) => Some(bytes)
    case _ => None
  }

  /** The wire message a call stands for, whatever message it is put into. */
  function WireOf(c: Call): Result<Fields, ToWireFault> {
    if Marshaled(c.args) == None then Err(MarshalingArgs)
    else if Marshaled(c.result) == None then Err(MarshalingResult)
    else Ok(Fields(c.id, c.fn, Marshaled(c.args).value, Marshaled(c.result).value, c.error))
  }

  /** No bytes stand for the value: it cannot be sent. */
  predicate Unsendable(v: Argument) {
    v.NotMarshaler? || v.Failing?
  }

  /** The bytes of a value that can be sent; an absent one has none. */
  function BytesOf(v: Argument): seq<byte> {
    if v.Marshals? then v.bytes else []
  }

  /** ToWire fails for the arguments, or else for the result, and otherwise nothing of the call is lost. */
  lemma RefusedExactly(c: Call)
    ensures WireOf(c) == Err(MarshalingArgs) <==> Unsendable(c.args)
    ensures WireOf(c) == Err(MarshalingResult) <==> !Unsendable(c.args) && Unsendable(c.result)
    ensures !Unsendable(c.args) && !Unsendable(c.result) ==>
      WireOf(c) == Ok(Fields(c.id, c.fn, BytesOf(c.args), BytesOf(c.result), c.error))
  {
  }

  /** A buffer of up to 65536 bytes is kept with all its storage, a larger one is not. */
  function Keep(raw: Slice): (r: Slice)
    requires raw.Valid()
    ensures r.Valid() && r.Contents() == [] && r.Storage() <= raw.Storage()
    ensures raw.Cap() <= 65536 ==> r.Cap() == raw.Cap() && r.Storage() == raw.Storage()
    ensures 65536 < raw.Cap() ==> r.Cap() == 0 && r.Storage() == {}
  {
    if MAX_KEPT_BUFFER < raw.Cap() then Nil else raw.Emptied()
  }

  method Marshal(buf: Slice, v: Argument) returns (r: Slice, ok: bool)
    requires buf.Valid()
    modifies buf.Storage()
    ensures r.Valid() && (r.Storage() == buf.Storage() || fresh(r.Storage()))
    ensures !ok <==> v.NotMarshaler? || v.Failing?
    ensures r.Contents() == if v.Marshals? then v.bytes else []
  {
    r := buf.Emptied();
    if v.Absent? { return r, true; }
    if !v.Marshals? { return r, false; }
    if v.inPlace && |v.bytes| <= buf.Cap() {
      r := Fill(r, v.bytes);
    } else {
      var data := new byte[|v.bytes| + v.spare](i => if 0 <= i < |v.bytes| then v.bytes[i] else 0);
      assert data[..|v.bytes|] == v.bytes;
      r := Slice(data, |v.bytes|);
    }
    return r, true;
  }

  method ToWire(m: Message, c: Call) returns (fault: Option<ToWireFault>)
    requires m.Valid()
    modifies m, m.Repr() - (if m.error == null then {} else {m.error})
    ensures m.Valid() && fresh(m.Repr() - old(m.Repr()))
    ensures match WireOf(c)
      case Ok(f) => fault == None && m.Value() == f
      case Err(e) => fault == Some(e)
    ensures fault == Some(MarshalingArgs) <==> Unsendable(c.args)
    ensures fault == Some(MarshalingResult) <==> !Unsendable(c.args) && Unsendable(c.result)
    ensures fault == None ==> m.Value() == Fields(c.id, c.fn, BytesOf(c.args), BytesOf(c.result), c.error)
  {
    RefusedExactly(c);
    hide WireOf, BytesOf;
    m.id, m.fn, m.error := c.id, c.fn, null;
    var ok := MarshalArgs(m, c.args);
    if !ok { return Some(MarshalingArgs); }
    ok := MarshalResult(m, c.result);
    if !ok { return Some(MarshalingResult); }
    SetError(m, c.error);
    return None;
  }

  method SetError(m: Message, error: Option<seq<byte>>)
    requires m.Valid() && m.error == null
    modifies m`error
    ensures m.Valid() && (m.error == null || fresh(m.error))
    ensures m.Value() == old(m.Value()).(error := error)
  {
    if error.Some? {
      m.error := new Error(error.value);
    }
  }

  method MarshalArgs(m: Message, v: Argument) returns (ok: bool)
    requires m.Valid()
    modifies m`args, m.args.Storage()
    ensures m.Valid() && (m.args.Storage() == old(m.args.Storage()) || fresh(m.args.Storage()))
    ensures !ok <==> Unsendable(v)
    ensures m.args.Contents() == BytesOf(v)
  {
    m.args, ok := Marshal(m.args, v);
  }

  method MarshalResult(m: Message, v: Argument) returns (ok: bool)
    requires m.Valid()
    modifies m`result, m.result.Storage()
    ensures m.Valid() && (m.result.Storage() == old(m.result.Storage()) || fresh(m.result.Storage()))
    ensures !ok <==> Unsendable(v)
    ensures m.result.Contents() == BytesOf(v)
  {
    m.result, ok := Marshal(m.result, v);
  }

  /** The error of a birpc message. */
  class BirpcError {
    var msg: seq<byte>

    constructor (msg: seq<byte>)
      ensures this.msg == msg
    {
      this.msg := msg;
    }
  }

  /** What a birpc message says once it has been read: None is a nil interface or pointer. */
  datatype Delivery = Delivery(
    id: uint64, fn: seq<byte>, args: Option<seq<byte>>, result: Option<seq<byte>>, error: Option<seq<byte>>)

  function HandedOver(raw: seq<byte>): Option<seq<byte>> {
    if raw == [] then None else Some(raw)
  }

  function DeliveryOf(m: Fields): Delivery {
    Delivery(m.id, m.fn, HandedOver(m.args), HandedOver(m.result), m.error)
  }

  ghost function StorageOf(payload: Option<Slice>): set<object> {
    if payload.Some? then payload.value.Storage() else {}
  }

  /** The bytes of a payload that has been handed over. */
  function Seen(payload: Option<Slice>): Option<seq<byte>>
    requires payload.Some? ==> payload.value.Valid()
    reads StorageOf(payload)
  {
    if payload.Some? then Some(payload.value.Contents()) else None
  }

  /** A birpc message being read: a payload is a nil interface or a msgp.Raw. */
  class BirpcMessage {
    var id: uint64
    var fn: seq<byte>
    var args: Option<Slice>
    var result: Option<Slice>
    var error: BirpcError?

    /** The zero message, which is what birpc passes in. */
    constructor ()
      ensures Valid() && View() == Delivery(0, [], None, None, None) && Handed() == {}
    {
      id, fn, args, result, error := 0, [], None, None, null;
    }

    ghost function Handed(): set<object>
      reads this
    {
      StorageOf(args) + StorageOf(result) + if error == null then {} else {error}
    }

    /** Assigns every field. */
    method Set(id: uint64, fn: seq<byte>, args: Option<Slice>, result: Option<Slice>, error: BirpcError?)
      requires (args.Some? ==> args.value.Valid()) && (result.Some? ==> result.value.Valid())
      modifies this
      ensures Valid() && Handed() == StorageOf(args) + StorageOf(result) + if error == null then {} else {error}
      ensures View() == Delivery(id, fn, old(Seen(args)), old(Seen(result)),
        if error == null then None else Some(old(error.msg)))
    {
      this.id, this.fn, this.args, this.result, this.error := id, fn, args, result, error;
    }

    ghost predicate Valid()
      reads this
    {
      (args.Some? ==> args.value.Valid()) && (result.Some? ==> result.value.Valid())
    }

    function View(): Delivery
      requires Valid()
      reads this, Handed()
    {
      Delivery(id, fn,
        Seen(args),
        Seen(result),
        if error == null then None else Some(error.msg))
    }
  }

  method HandOver(raw: Slice) returns (out: Option<Slice>)
    requires raw.Valid()
    ensures (out.Some? ==> out.value.Valid()) && fresh(StorageOf(out))
    ensures Seen(out) == HandedOver(raw.Contents())
  {
    if raw.Nil? || raw.len == 0 { return None; }
    var data := new byte[raw.len](
      i requires 0 <= i < raw.len && raw.len <= raw.data.Length reads raw.data => raw.data[i]);
    assert data[..raw.len] == raw.data[..raw.len];
    return Some(Slice(data, raw.len));
  }

  method CopyInto(msg: BirpcMessage, m: Message)
    requires m.Valid()
    modifies msg
    ensures msg.Valid() && msg.View() == DeliveryOf(old(m.Value())) && fresh(msg.Handed())
  {
    hide Seen, HandedOver;
    ghost var f := m.Value();
    var args := HandOver(m.args);
    var result := HandOver(m.result);
    var error := CopyError(m);
    assert Seen(args) == HandedOver(f.args) && Seen(result) == HandedOver(f.result);
    msg.Set(m.id, m.fn, args, result, error);
  }

  method CopyError(m: Message) returns (error: BirpcError?)
    requires m.Valid()
    ensures (if error == null then None else Some(error.msg)) == m.Value().error
    ensures error == null || fresh(error)
  {
    error := null;
    if m.error != null {
      error := new BirpcError(m.error.msg);
    }
  }

  /** Everything msg points to afterwards is new; m keeps its buffers, emptied, unless they are too large. */
  method FromWire(msg: BirpcMessage, m: Message)
    requires m.Valid()
    modifies msg, m`args, m`result
    ensures msg.Valid() && msg.View() == DeliveryOf(old(m.Value())) && fresh(msg.Handed())
    ensures m.Valid() && m.Repr() <= old(m.Repr())
    ensures m.args.Contents() == [] && m.result.Contents() == []
    ensures m.args == old(Keep(m.args)) && m.result == old(Keep(m.result))
  {
    CopyInto(msg, m);
    m.args, m.result := Keep(m.args), Keep(m.result);
  }

  /** An interface value passed to Unmarshal. */
  datatype Interface = NilInterface | RawInterface(bytes: seq<byte>) | OtherInterface

  /**
   Unmarshal into a target that has the given UnmarshalMsg, if any; None stands for an error.
   What is left behind the decoded object is ignored.
   */
  function Unmarshal<T>(i: Interface, target: T, unmarshalMsg: Option<(seq<byte>, T) -> Option<T>>): Option<T> {
    if unmarshalMsg == None then None
    else match i
      case NilInterface => Some(target)
      case OtherInterface => None
      case RawInterface(bytes) => if bytes == [] then Some(target) else unmarshalMsg.value(bytes, target)
  }

  function InterfaceOf(payload: Option<seq<byte>>): Interface {
    if payload == None then NilInterface else RawInterface(payload.value)
  }

  // ---- the whole way ------------------------------------------------------------------------

  /** The payloads are marshaled into one object each, or into nothing. */
  predicate Sendable(c: Call) {
    WireOf(c).Ok? && Transmittable(WireOf(c).value)
  }

  /** What of an argument is handed to the peer: an absent, an empty and an encoded nil payload are all nil. */
  function Delivered(v: Argument): Option<seq<byte>> {
    match Marshaled(v)
    case None => None
    case Some(raw) => if raw == [] || raw == [NIL] then None else Some(raw)
  }

  /** What a peer is handed for a call. */
  function Expected(c: Call): Delivery {
    Delivery(c.id, c.fn, Delivered(c.args), Delivered(c.result), c.error)
  }

  lemma NilIsOneByte(raw: seq<byte>)
    requires Formats.OneObject(raw) && IsNil(raw)
    ensures raw == [NIL]
  {
    assert Formats.Skip(raw, 1, 0) == Some(1);
  }

  /** ID, Func and Error arrive, and each payload as its marshaled bytes, or as nil where there is nothing in it. */
  lemma CallArrives(c: Call, rest: seq<byte>)
    requires Sendable(c)
    ensures var sent := WireOf(c).value;
      && Decode(Encode(sent) + rest) == Ok((Received(sent), rest))
      && DeliveryOf(Received(sent)) == Expected(c)
  {
    hide Decode, Encode;
    var sent := WireOf(c).value;
    Arrives(sent, rest);
    if IsNil(sent.args) { NilIsOneByte(sent.args); }
    if IsNil(sent.result) { NilIsOneByte(sent.result); }
  }

  /** A payload that has nothing in it, or just a nil, arrives as a nil interface, and any other as its bytes. */
  predicate ArrivesAs(v: Argument, payload: Option<seq<byte>>) {
    && (payload == None <==> v.Absent? || (v.Marshals? && (v.bytes == [] || v.bytes == [0xc0])))
    && (payload.Some? ==> v.Marshals? && payload.value == v.bytes)
  }

  /**
   What a call says arrives, and Unmarshal gives the bytes of its arguments or result to the target, once,
   unless there is nothing in them, when the target is left as it is.
   */
  lemma WhatArrives<T>(c: Call, rest: seq<byte>, target: T, unmarshalMsg: (seq<byte>, T) -> Option<T>)
    requires Sendable(c)
    ensures Decode(Encode(WireOf(c).value) + rest).Ok?
    ensures var (m, left) := Decode(Encode(WireOf(c).value) + rest).value; var d := DeliveryOf(m);
      && left == rest && d.id == c.id && d.fn == c.fn && d.error == c.error
      && ArrivesAs(c.args, d.args) && ArrivesAs(c.result, d.result)
      && Unmarshal(InterfaceOf(d.args), target, Some(unmarshalMsg)) ==
         (if d.args == None then Some(target) else unmarshalMsg(c.args.bytes, target))
      && Unmarshal(InterfaceOf(d.result), target, Some(unmarshalMsg)) ==
         (if d.result == None then Some(target) else unmarshalMsg(c.result.bytes, target))
  {
    hide Decode, Encode;
    CallArrives(c, rest);
  }

  /** What no codec hands out: a value that is no payload is refused, and so is a target without UnmarshalMsg. */
  lemma NotUnmarshaled<T>(i: Interface, target: T, unmarshalMsg: (seq<byte>, T) -> Option<T>)
    ensures Unmarshal(OtherInterface, target, Some(unmarshalMsg)) == None
    ensures Unmarshal(i, target, None) == None
    ensures Unmarshal(RawInterface([]), target, Some(unmarshalMsg)) == Some(target)
  {
  }

  method Send(c: Call, out: Message) returns (b: Result<seq<byte>, ToWireFault>)
    requires out.Valid()
    modifies out, out.Repr()
    ensures out.Valid() && fresh(out.Repr() - old(out.Repr()))
    ensures match WireOf(c)
      case Ok(f) => b == Ok(Encode(f))
      case Err(e) => b == Err(e)
  {
    hide WireOf, Encode;
    var fault := ToWire(out, c);
    if fault.Some? { return Err(fault.value); }
    var bytes := out.MarshalMsg([]);
    assert [] + Encode(out.Value()) == Encode(out.Value());
    return Ok(bytes);
  }

  /** A message that cannot be decoded leaves msg as it was. */
  method Receive(b: seq<byte>, into: Message, msg: BirpcMessage) returns (r: Result<seq<byte>, WireFault>)
    requires into.Valid() && msg !in into.Repr()
    modifies into, into.Repr(), msg
    ensures into.Valid() && fresh(into.Repr() - old(into.Repr()))
    ensures match Decode(b)
      case Err(e) => r == Err(e) && unchanged(msg)
      case Ok((m, rest)) =>
        && r == Ok(rest) && msg.Valid() && msg.View() == DeliveryOf(m)
        && fresh(msg.Handed()) && msg.Handed() !! into.Repr()
  {
    hide Decode, DeliveryOf, Message.Repr, Message.Valid, Message.Value;
    r := into.UnmarshalMsg(b);
    into.ReprAllocated();
    if r.Err? { return; }
    FromWire(msg, into);
  }

  /** DecodeMsg and FromWire, which is how a codec on a stream reads. */
  method ReceiveFrom(dc: Reader, into: Message, msg: BirpcMessage) returns (r: Result<(), WireFault>)
    requires into.Valid() && dc !in into.Repr() && msg !in into.Repr()
    modifies dc, into, into.Repr(), msg
    ensures into.Valid() && fresh(into.Repr() - old(into.Repr())) && dc !in into.Repr()
    ensures match Decode(old(dc.rest))
      case Err(e) => r == Err(e) && unchanged(msg)
      case Ok((m, rest)) =>
        && r == Ok(()) && dc.rest == rest && msg.Valid() && msg.View() == DeliveryOf(m)
        && fresh(msg.Handed()) && msg.Handed() !! into.Repr()
  {
    hide Decode, DeliveryOf, Message.Repr, Message.Valid, Message.Value;
    r := into.DecodeMsg(dc);
    into.ReprAllocated();
    if r.Err? { return; }
    FromWire(msg, into);
  }

  /** ToWire, MarshalMsg, UnmarshalMsg and FromWire in a row, through messages in any state. */
  method SendAndReceive(c: Call, out: Message, into: Message, msg: BirpcMessage, rest: seq<byte>)
    returns (r: Result<seq<byte>, WireFault>)
    requires Sendable(c)
    requires out.Valid() && into.Valid() && out.Repr() !! into.Repr() && msg !in into.Repr()
    modifies out.Repr(), into.Repr(), msg
    ensures r == Ok(rest)
    ensures msg.Valid() && msg.View() == Expected(c) && fresh(msg.Handed())
  {
    hide Decode, Encode, DeliveryOf, Expected;
    CallArrives(c, rest);
    var b := Send(c, out);
    r := Receive(b.value + rest, into, msg);
  }
}
