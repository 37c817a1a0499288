/** websocket.go: one message to a binary frame, whatever went over the connection before. */
module Websocket {
  import opened Bytes
  import opened Wire
  import opened MpcGen
  import opened Mpc
  import opened Pool

  /** What NextReader yields: a frame, or an error in its place. */
  datatype Frame = Binary(payload: seq<byte>) | Text(payload: seq<byte>) | ReadError

  datatype ReadFault = ConnectionFault | InvalidMsg | DecodeFault(fault: WireFault)

  datatype WriteFault = ConvertFault(fault: ToWireFault) | IoFault

  /** What becomes of the next attempt to send a frame: no writer for it, or how its writes and its Close go. */
  datatype Attempt = NoWriter | Frames(writes: seq<Option<nat>>, closes: bool)

  /** The size of the buffer of a msgp.Writer. */
  const BUFFER_SIZE: nat := 2048

  /** What a frame says, by itself. Bytes behind the message are ignored. */
  function Meaning(frame: Frame): Result<Delivery, ReadFault> {
    match frame
    case ReadError => Err(ConnectionFault)
    case Text(_) => Err(InvalidMsg)
    case Binary(payload) =>
      match Decode(payload)
      case Err(e) => Err(DecodeFault(e))
      case Ok((m, _)) => Ok(DeliveryOf(m))
  }

  /** What NextWriter returns: the payload so far is what the sink has taken. */
  class FrameWriter {
    const sink: Sink
    const closes: bool

    constructor (writes: seq<Option<nat>>, closes: bool)
      ensures this.closes == closes && fresh(sink)
      ensures sink.taken == [] && !sink.failed && sink.outcomes == writes
    {
      this.closes := closes;
      sink := new Sink(writes);
    }
  }

  class Conn {
    var incoming: seq<Frame>
    var sent: seq<Frame>
    var attempts: seq<Attempt>

    /** The frame that has been begun and is not closed. */
    var open: FrameWriter?

    constructor (incoming: seq<Frame>, attempts: seq<Attempt>)
      ensures this.incoming == incoming && sent == [] && this.attempts == attempts && open == null
    {
      this.incoming, sent, this.attempts, open := incoming, [], attempts, null;
    }

    method NextWriter() returns (w: FrameWriter?)
      modifies this`attempts, this`open
      ensures open == if w == null then old(open) else w
      ensures w != null ==> fresh(w) && fresh(w.sink) && w.sink.taken == [] && !w.sink.failed
      ensures old(attempts) == [] ==> attempts == [] && w != null && w.closes && w.sink.Sound()
    {
      if attempts == [] {
        w := new FrameWriter([], true);
        open := w;
        return;
      }
      var attempt := attempts[0];
      attempts := attempts[1..];
      if attempt.NoWriter? { return null; }
      w := new FrameWriter(attempt.writes, attempt.closes);
      open := w;
    }

    /** Completes the frame, unless a write to it has failed or the connection breaks now. */
    method Close(w: FrameWriter) returns (ok: bool)
      modifies this`sent, this`open
      ensures ok == (!w.sink.failed && w.closes)
      ensures open == if old(open) == w then null else old(open)
      ensures sent == if ok then old(sent) + [Binary(w.sink.taken)] else old(sent)
    {
      ok := !w.sink.failed && w.closes;
      if ok { sent := sent + [Binary(w.sink.taken)]; }
      if open == w { open := null; }
    }
  }

  class Codec {
    const ws: Conn
    const r: Reader
    const w: Writer
    const wire: Message

    constructor (ws: Conn)
      ensures Valid() && this.ws == ws
      ensures fresh(r) && fresh(w) && fresh(wire)
    {
      this.ws := ws;
      r := new Reader([]);
      var none := new Sink([]);
      w := new Writer(none, BUFFER_SIZE);
      wire := new Message();
    }

    ghost predicate Valid()
      reads wire
    {
      wire.Valid() && r !in wire.Repr() && ws !in wire.Repr() && w !in wire.Repr()
    }

    /** Takes the next frame. The outcome is the meaning of that frame, and a failed read leaves msg alone. */
    method ReadMessage(msg: BirpcMessage) returns (result: Result<(), ReadFault>)
      requires Valid() && msg !in wire.Repr() && ws.incoming != []
      modifies ws`incoming, r, wire, wire.Repr(), msg
      ensures Valid() && fresh(wire.Repr() - old(wire.Repr()))
      ensures ws.incoming == old(ws.incoming)[1..]
      ensures match Meaning(old(ws.incoming)[0])
        case Err(e) => result == Err(e) && unchanged(msg)
        case Ok(d) => result == Ok(()) && msg.Valid() && msg.View() == d && fresh(msg.Handed())
      ensures result.Err? ==> unchanged(msg)
      ensures result == Err(ConnectionFault) <==> old(ws.incoming)[0].ReadError?
      ensures result == Err(InvalidMsg) <==> old(ws.incoming)[0].Text?
      ensures result.Err? && result.error.DecodeFault? <==>
        old(ws.incoming)[0].Binary? && Decode(old(ws.incoming)[0].payload).Err?
    {
      hide Decode, DeliveryOf, Message.Repr, Message.Valid, Message.Value;
      var frame := ws.incoming[0];
      ws.incoming := ws.incoming[1..];
      if frame.ReadError? { return Err(ConnectionFault); }
      if !frame.Binary? { return Err(InvalidMsg); }
      r.rest := frame.payload;
      assert wire.Repr() == old(wire.Repr());
      var received := ReceiveFrom(r, wire, msg);
      wire.ReprAllocated();
      if received.Err? { return Err(DecodeFault(received.error)); }
      return Ok(());
    }

    /**
     The part of WriteMessage under the lock. A frame is sent only by the last Close: the one behind
     a write that has failed closes a frame that will not go out.
     */
    method WriteFrame(m: Message) returns (ok: bool)
      requires m.Valid() && w !in m.Repr() && ws !in m.Repr()
      modifies ws`attempts, ws`sent, ws`open, w
      ensures old(ws.open) == null ==> ws.open == null
      ensures ws.sent == if ok then old(ws.sent) + [Binary(Encode(m.Value()))] else old(ws.sent)
      ensures old(ws.attempts) == [] ==> ok && ws.attempts == []
    {
      hide Encode, Message.Repr, Message.Valid, Message.Value;
      m.ReprAllocated();
      ghost var f := m.Value();
      var fw := ws.NextWriter();
      if fw == null { return false; }
      w.Reset(fw.sink);
      m.ReprAllocated();
      ok := m.EncodeMsg(w);
      assert m.Value() == f;
      if !ok {
        var _ := ws.Close(fw);
        return;
      }
      ok := w.Flush();
      if !ok {
        var _ := ws.Close(fw);
        return;
      }
      assert [] + [] + Encode(f) == Encode(f);
      ok := ws.Close(fw);
    }

    /** Sends one binary frame with one message, or nothing; the wire message goes back to the pool in any case. */
    method WriteMessage(g: nat, pool: Writers, pooled: Option<Message>, c: Call)
      returns (result: Result<(), WriteFault>, ghost used: Message)
      requires pool.Valid() && (forall m :: m in pool.storage ==> w !in pool.storage[m] && ws !in pool.storage[m])
      requires pooled.Some? ==> pooled.value in pool.owner && pool.owner[pooled.value] == None
      modifies pool, if pooled.Some? then pool.storage[pooled.value] else {}
      modifies ws`attempts, ws`sent, ws`open, w
      ensures old(ws.open) == null ==> ws.open == null
      ensures pool.Valid() && pool.owner == old(pool.owner)[used := None]
      ensures match WireOf(c)
        case Err(e) => result == Err(ConvertFault(e)) && ws.sent == old(ws.sent)
        case Ok(f) =>
          && ws.sent == (if result.Ok? then old(ws.sent) + [Binary(Encode(f))] else old(ws.sent))
          && (result.Err? ==> result.error == IoFault)
          && (old(ws.attempts) == [] ==> result.Ok?)
      ensures Unsendable(c.args) || Unsendable(c.result) ==>
        result.Err? && result.error.ConvertFault? && ws.sent == old(ws.sent) && ws.attempts == old(ws.attempts)
    {
      RefusedExactly(c);
      hide WireOf, Encode, Message.Repr, Message.Valid, Message.Value, Clean, Writers.Valid;
      var m := pool.Get(g, pooled);
      used := m;
      var fault := pool.Fill(g, m, c);
      pool.Others(m);
      if fault.Some? {
        result := Err(ConvertFault(fault.value));
      } else {
        ghost var f := m.Value();
        m.ReprAllocated();
        var ok := WriteFrame(m);
        assert m.Value() == f;
        result := if ok then Ok(()) else Err(IoFault);
      }
      pool.Put(g, m);
    }
  }

  /**
   Reads n frames with one codec. The outcome of each is what that frame means, whichever
   frames came before it: no failure, no stray frame and no left over bytes carry over.
   */
  method ReadFrames(c: Codec, n: nat) returns (outcomes: seq<Result<Delivery, ReadFault>>)
    requires c.Valid() && n <= |c.ws.incoming|
    modifies c.ws`incoming, c.r, c.wire, c.wire.Repr()
    ensures c.Valid() && |outcomes| == n && c.ws.incoming == old(c.ws.incoming)[n..]
    ensures forall i :: 0 <= i < n ==> outcomes[i] == Meaning(old(c.ws.incoming)[i])
  {
    hide Decode, DeliveryOf, Meaning, Message.Repr, Message.Valid, BirpcMessage.View;
    outcomes := [];
    ghost var frames := c.ws.incoming;
    for i := 0 to n
      invariant c.Valid() && |outcomes| == i && c.ws.incoming == frames[i..]
      invariant forall o :: o in c.wire.Repr() && allocated(o) && o !in old(c.wire.Repr()) ==> fresh(o)
      invariant outcomes == seq(i, j requires 0 <= j < i => Meaning(frames[j]))
    {
      ghost var own := c.wire.Repr();
      c.wire.ReprAllocated();
      var msg := new BirpcMessage();
      assert c.wire.Repr() == own;
      label Before:
      var result := c.ReadMessage(msg);
      assert forall o :: o in c.wire.Repr() ==> o in own || fresh@Before(o);
      outcomes := outcomes + [if result.Ok? then Ok(msg.View()) else Err(result.error)];
    }
  }

  /** A frame that has been written for a call that can be sent means that call to whoever reads it. */
  lemma FrameArrives(c: Call)
    requires Sendable(c)
    ensures Meaning(Binary(Encode(WireOf(c).value))) == Ok(Expected(c))
  {
    hide Encode, Decode, DeliveryOf, Expected;
    CallArrives(c, []);
    assert Encode(WireOf(c).value) + [] == Encode(WireOf(c).value);
  }
}
