/** ReadMessage of generic.go: one wire message decoded into over and over, its payloads handed out as copies. */
module GenericCodec {
  import opened Bytes
  import opened Wire
  import opened MpcGen
  import opened Mpc
  import opened Pool
  import GenericRuns

  class Codec {
    const r: Reader
    const wire: Message

    /** The messages handed out so far and what they said when they were. */
    ghost var given: map<BirpcMessage, Delivery>

    /** Everything the messages handed out consist of. */
    ghost var theirs: set<object>

    constructor (r: Reader)
      ensures Valid() && this.r == r && given == map[]
      ensures fresh(wire)
    {
      this.r := r;
      wire := new Message();
      given, theirs := map[], {};
    }

    /** What the codec writes to. */
    ghost function Own(): set<object>
      reads this, wire
    {
      {this, r, wire} + wire.Repr()
    }

    /** The messages handed out share nothing with the codec, and say what they have always said. */
    ghost predicate Valid()
      reads this, wire, theirs
    {
      && wire.Valid() && this !in wire.Repr() && r !in wire.Repr()
      && theirs !! Own()
      && forall g :: g in given ==>
        g in theirs && g.Valid() && g.Handed() <= theirs && g.View() == given[g]
    }

    method ReadMessage(msg: BirpcMessage) returns (result: Result<(), WireFault>)
      requires Valid() && msg !in theirs && msg !in Own()
      modifies this`given, this`theirs, r, wire, wire.Repr(), msg
      ensures Valid() && fresh(Own() - old(Own()))
      ensures match Decode(old(r.rest))
        case Err(e) => result == Err(e) && given == old(given) && theirs == old(theirs) && unchanged(msg)
        case Ok((m, rest)) =>
          && result == Ok(()) && r.rest == rest
          && given == old(given)[msg := DeliveryOf(m)]
          && fresh(theirs - old(theirs) - {msg})
    {
      hide Decode, DeliveryOf, Message.Repr, Message.Valid, Message.Value;
      hide BirpcMessage.Valid, BirpcMessage.Handed, BirpcMessage.View;
      result := ReceiveFrom(r, wire, msg);
      wire.ReprAllocated();
      if result.Err? { return; }
      given, theirs := given[msg := msg.View()], theirs + {msg} + msg.Handed();
    }
  }

  lemma NextDelivery(b: seq<byte>)
    ensures GenericRuns.Deliveries(b) == match Decode(b)
      case Err(_) => []
      case Ok((m, rest)) => [DeliveryOf(m)] + GenericRuns.Deliveries(rest)
  {
    hide Decode, DeliveryOf;
  }

  lemma AllAsGiven(c: Codec, msgs: seq<BirpcMessage>)
    requires c.Valid() && forall i :: 0 <= i < |msgs| ==> msgs[i] in c.given
    ensures forall i :: 0 <= i < |msgs| ==> msgs[i].Valid() && msgs[i].View() == c.given[msgs[i]]
  {
    hide BirpcMessage.Valid, BirpcMessage.Handed, BirpcMessage.View, Message.Valid, Message.Repr;
  }

  /**
   Reads until a message cannot be decoded. When it is done, every message that was handed out
   on the way still says what it said, although the codec has decoded over its buffers since.
   */
  method ReadAll(c: Codec) returns (msgs: seq<BirpcMessage>)
    requires c.Valid()
    modifies c, c.r, c.wire, c.wire.Repr()
    ensures |msgs| == |GenericRuns.Deliveries(old(c.r.rest))|
    ensures forall i :: 0 <= i < |msgs| ==>
      msgs[i].Valid() && msgs[i].View() == GenericRuns.Deliveries(old(c.r.rest))[i]
    ensures c.Valid()
  {
    hide Decode, DeliveryOf, Message.Repr, Message.Valid, Message.Value;
    hide BirpcMessage.Valid, BirpcMessage.Handed, BirpcMessage.View, GenericRuns.Deliveries;
    ghost var all := GenericRuns.Deliveries(c.r.rest);
    msgs := [];
    while true
      invariant c.Valid()
      invariant forall o :: o in c.Own() && allocated(o) && o !in old(c.Own()) ==> fresh(o)
      invariant |msgs| + |GenericRuns.Deliveries(c.r.rest)| == |all|
      invariant GenericRuns.Deliveries(c.r.rest) == all[|msgs|..]
      invariant forall i :: 0 <= i < |msgs| ==> msgs[i] in c.given && c.given[msgs[i]] == all[i]
      decreases |c.r.rest|
    {
      ghost var own := c.Own();
      c.wire.ReprAllocated();
      var msg := new BirpcMessage();
      assert c.Own() == own;
      NextDelivery(c.r.rest);
      label Before:
      var result := c.ReadMessage(msg);
      assert forall o :: o in c.Own() ==> o in own || fresh@Before(o);
      if result.Err? {
        AllAsGiven(c, msgs);
        return;
      }
      msgs := msgs + [msg];
    }
  }

  datatype WriteFault = ConvertFault(fault: ToWireFault) | IoFault

  /**
   WriteMessage by itself: what one writer does to the pool and, while it has the lock, to the stream.
   A call that cannot be converted adds no bytes. A write that fails has let through a part of the
   encoding at most. The wire message goes back to the pool in any case.
   */
  method WriteMessage(g: nat, pool: Writers, pooled: Option<Message>, c: Call, w: Writer)
    returns (result: Result<(), WriteFault>, ghost used: Message)
    requires pool.Valid() && (forall m :: m in pool.storage ==> w !in pool.storage[m] && w.sink !in pool.storage[m])
    requires pooled.Some? ==> pooled.value in pool.owner && pool.owner[pooled.value] == None
    modifies pool, w`buffered, w.sink, if pooled.Some? then pool.storage[pooled.value] else {}
    ensures pool.Valid() && pool.owner == old(pool.owner)[used := None]
    ensures match WireOf(c)
      case Err(e) => result == Err(ConvertFault(e)) && w.Out() == old(w.Out())
      case Ok(f) =>
        && (result.Ok? ==> w.sink.taken == old(w.Out()) + Encode(f) && w.buffered == [])
        && (result.Err? ==> result.error == IoFault && w.sink.failed && w.sink.taken <= old(w.Out()) + Encode(f))
        && (old(w.sink.Sound()) ==> result.Ok?)
    ensures Unsendable(c.args) || Unsendable(c.result) ==>
      result.Err? && result.error.ConvertFault? && w.sink.taken == old(w.sink.taken) && w.buffered == old(w.buffered)
  {
    RefusedExactly(c);
    hide WireOf, Encode, Message.Repr, Message.Valid, Message.Value, Clean, Writers.Valid, Sink.Sound, Writer.Out;
    var m := pool.Get(g, pooled);
    used := m;
    var fault := pool.Fill(g, m, c);
    pool.Others(m);
    m.ReprAllocated();
    if fault.Some? {
      result := Err(ConvertFault(fault.value));
    } else {
      var ok := WriteOut(m, w);
      result := if ok then Ok(()) else Err(IoFault);
    }
    pool.Put(g, m);
  }

  /** The part under the lock: EncodeMsg, and Flush if that has worked. */
  method WriteOut(m: Message, w: Writer) returns (ok: bool)
    requires m.Valid() && w !in m.Repr() && w.sink !in m.Repr()
    modifies w`buffered, w.sink
    ensures ok ==> w.sink.taken == old(w.Out()) + Encode(m.Value()) && w.buffered == []
    ensures !ok ==> w.sink.failed && w.sink.taken <= old(w.Out()) + Encode(m.Value())
    ensures old(w.sink.Sound()) ==> ok && w.sink.Sound()
  {
    hide Encode, Message.Repr, Message.Valid, Message.Value, Sink.Sound, Writer.Out;
    m.ReprAllocated();
    ghost var f := m.Value();
    ok := m.EncodeMsg(w);
    assert m.Value() == f;
    if !ok { return; }
    ok := w.Flush();
    assert m.Value() == f;
  }
}
