/** redis.go: the codec over pub-sub channels as one goroutine at a time uses it, with everything that can go wrong. */
module Redis {
  import opened Bytes
  import opened Wire
  import opened MpcGen
  import opened Mpc
  import opened Pool

  datatype RedisError = RedisError(text: string)

  /** What Pop yields: an event, whose value may be nil, or an error. */
  datatype Popped = Lost(error: RedisError) | Event(kind: string, value: Option<seq<byte>>)

  /** How asking for a subscription goes, and how that subscription behaves from then on. */
  datatype Opening =
    | Refused(error: RedisError)
    | Opened(subscribeError: Option<RedisError>, unsubscribeError: Option<RedisError>,
             closeError: Option<RedisError>, events: seq<Popped>)

  /**
   How borrowing a connection and publishing over it goes: the connection may fail before the message
   is out or, its reply lost, after that, and redis may answer with a refusal.
   */
  datatype Attempt =
    | NoConnection(error: RedisError)
    | LostBefore(error: RedisError)
    | LostAfter(error: RedisError)
    | RefusedReply(error: RedisError)

  datatype ReadFault = SubscribeFault(cause: RedisError) | PopFault(cause: RedisError) | DecodeFault(fault: WireFault)

  /** Waiting stands for a read that is blocked in Pop, as nothing more has come over the channel. */
  datatype ReadOutcome = Read | Waiting | ReadFailed(fault: ReadFault)

  datatype WriteFault = ConvertFault(fault: ToWireFault) | IoFault(cause: RedisError)

  predicate Contains(s: string, part: string) {
    exists i :: 0 <= i <= |s| && part <= s[i..]
  }

  /** An event that ReadMessage passes over. */
  predicate Skipped(e: Popped) {
    e.Event? && (!Contains(e.kind, "message") || e.value == None)
  }

  /** How many events are passed over before one that is not. */
  function First(events: seq<Popped>): (n: nat)
    ensures n <= |events| && forall i :: 0 <= i < n ==> Skipped(events[i])
    ensures n < |events| ==> !Skipped(events[n])
  {
    if events == [] || !Skipped(events[0]) then 0 else 1 + First(events[1..])
  }

  class Subscription {
    const opening: Opening
    var channels: set<string>
    var events: seq<Popped>
    var closed: bool

    constructor (opening: Opening)
      requires opening.Opened?
      ensures this.opening == opening && channels == {} && events == opening.events && !closed
    {
      this.opening, channels, events, closed := opening, {}, opening.events, false;
    }

    method Subscribe(channel: string) returns (error: Option<RedisError>)
      requires opening.Opened?
      modifies this`channels
      ensures error == opening.subscribeError
      ensures channels == if error == None then old(channels) + {channel} else old(channels)
    {
      error := opening.subscribeError;
      if error == None { channels := channels + {channel}; }
    }

    method Unsubscribe(channel: string) returns (error: Option<RedisError>)
      requires opening.Opened?
      modifies this`channels
      ensures error == opening.unsubscribeError
      ensures channels == if error == None then old(channels) - {channel} else old(channels)
    {
      error := opening.unsubscribeError;
      if error == None { channels := channels - {channel}; }
    }

    method Close() returns (error: Option<RedisError>)
      requires opening.Opened?
      modifies this`closed
      ensures error == opening.closeError && closed
    {
      closed := true;
      error := opening.closeError;
    }

    method Pop() returns (popped: Popped)
      requires events != []
      modifies this`events
      ensures popped == old(events)[0] && events == old(events)[1..]
    {
      popped, events := events[0], events[1..];
    }
  }

  class Database {
    /** How the next requests for a subscription go. */
    var openings: seq<Opening>

    /** The subscriptions there have been, in the order in which they were asked for. */
    ghost var granted: seq<Subscription>

    /** What has been published, on which channel. */
    var published: seq<(string, seq<byte>)>

    /** How many connections are out of the pool for publishing. */
    var lent: nat

    /** What goes wrong with the next publications, None where nothing does; nothing either once these are used up. */
    var attempts: seq<Option<Attempt>>

    constructor (openings: seq<Opening>, attempts: seq<Option<Attempt>>)
      ensures this.openings == openings && granted == [] && published == [] && lent == 0
      ensures this.attempts == attempts
    {
      this.openings, granted, published, lent, this.attempts := openings, [], [], 0, attempts;
    }

    method Subscription() returns (sub: Subscription?, error: Option<RedisError>)
      modifies this`openings, this`granted
      ensures openings == old(openings)[if old(openings) == [] then 0 else 1..]
      ensures (sub == null <==> old(openings) == [] || old(openings)[0].Refused?) && (sub == null <==> error.Some?)
      ensures granted == if sub == null then old(granted) else old(granted) + [sub]
      ensures sub != null ==>
        && fresh(sub) && sub.opening == old(openings)[0] && sub.channels == {} && !sub.closed
        && sub.events == sub.opening.events
    {
      if openings == [] { return null, Some(RedisError("")); }
      var opening := openings[0];
      openings := openings[1..];
      if opening.Refused? { return null, Some(opening.error); }
      sub := new Subscription(opening);
      error := None;
      granted := granted + [sub];
    }

    method Connection() returns (error: Option<RedisError>)
      modifies this`lent, this`attempts
      ensures lent == if error == None then old(lent) + 1 else old(lent)
      ensures old(attempts) == [] ==> error == None && attempts == []
    {
      if attempts != [] && attempts[0].Some? && attempts[0].value.NoConnection? {
        error := Some(attempts[0].value.error);
        attempts := attempts[1..];
      } else {
        lent, error := lent + 1, None;
      }
    }

    method Return()
      requires 0 < lent
      modifies this`lent
      ensures lent == old(lent) - 1
    {
      lent := lent - 1;
    }

    /** An error tells that the reply was no number, not that the message did not go out. */
    method Publish(channel: string, bytes: seq<byte>) returns (error: Option<RedisError>)
      modifies this`published, this`attempts
      ensures published == old(published) || published == old(published) + [(channel, bytes)]
      ensures error == None ==> published == old(published) + [(channel, bytes)]
      ensures old(attempts) == [] ==> error == None && attempts == []
    {
      var attempt := if attempts == [] then None else attempts[0];
      attempts := if attempts == [] then [] else attempts[1..];
      if attempt == None || attempt.value.LostAfter? {
        published := published + [(channel, bytes)];
      }
      error := if attempt == None then None else Some(attempt.value.error);
    }
  }

  class Codec {
    const db: Database
    const inbound: string
    const outbound: string
    var sub: Subscription?
    const wire: Message
    var buf: seq<byte>

    constructor (db: Database, subscribe: string, publish: string)
      ensures Valid() && sub == null && this.db == db && inbound == subscribe && outbound == publish
      ensures fresh(wire)
    {
      this.db, inbound, outbound, sub, buf := db, subscribe, publish, null, [];
      wire := new Message();
    }

    /** sub is nil, or subscribed to the inbound channel. */
    ghost predicate Valid()
      reads this, sub, wire
    {
      && wire.Valid() && this !in wire.Repr() && db !in wire.Repr()
      && (sub != null ==> sub !in wire.Repr() && sub.opening.Opened? && inbound in sub.channels && !sub.closed)
    }

    /** The events that a read is going to see, or None if it will not get as far as Pop. */
    ghost function Upcoming(): Option<seq<Popped>>
      reads this, sub, db
    {
      if sub != null then Some(sub.events)
      else if db.openings == [] || db.openings[0].Refused? || db.openings[0].subscribeError.Some? then None
      else Some(db.openings[0].events)
    }

    /** A subscription that has been got is kept or closed. */
    method SetupSubscription() returns (error: Option<RedisError>)
      requires Valid() && sub == null
      modifies this`sub, db`openings, db`granted
      ensures Valid()
      ensures old(db.granted) <= db.granted && |db.granted| <= |old(db.granted)| + 1
      ensures error == None ==> db.granted == old(db.granted) + [sub]
      ensures error.Some? ==>
        forall s :: s in db.granted[|old(db.granted)|..] ==> fresh(s) && s.closed && inbound !in s.channels
      ensures db.openings == old(db.openings)[if old(db.openings) == [] then 0 else 1..]
      ensures match old(Upcoming())
        case None => error.Some? && sub == null
        case Some(events) => error == None && sub != null && fresh(sub) && sub.events == events
    {
      hide Message.Repr, Message.Valid;
      if sub == null {
        wire.ReprAllocated();
        var s;
        s, error := db.Subscription();
        if error.Some? { return; }
        sub := s;
      }
      error := sub.Subscribe(inbound);
      if error.Some? {
        var _ := sub.Close();
        sub := null;
      }
    }

    /**
     Hands out the first message among the events, whatever other events come before it, and nothing
     else. A read without a subscription asks for one, and a read that fails leaves msg alone.
     */
    method ReadMessage(msg: BirpcMessage) returns (outcome: ReadOutcome)
      requires Valid() && msg !in wire.Repr()
      modifies this`sub, db`openings, db`granted, sub, wire, wire.Repr(), msg
      ensures Valid() && fresh(wire.Repr() - old(wire.Repr()))
      ensures old(db.granted) <= db.granted && |db.granted| <= |old(db.granted)| + 1
      ensures outcome.ReadFailed? && outcome.fault.SubscribeFault? ==>
        forall s :: s in db.granted[|old(db.granted)|..] ==> s.closed
      ensures sub == null || sub == old(sub) || fresh(sub)
      ensures db.openings == old(db.openings)[if old(sub) != null || old(db.openings) == [] then 0 else 1..]
      ensures match old(Upcoming())
        case None => outcome.ReadFailed? && outcome.fault.SubscribeFault? && sub == null && unchanged(msg)
        case Some(events) =>
          var n := First(events);
          if n == |events| then
            outcome == Waiting && sub != null && sub.events == [] && unchanged(msg)
          else match events[n]
            case Lost(cause) => outcome == ReadFailed(PopFault(cause)) && sub == null && unchanged(msg)
            case Event(_, value) =>
              && sub != null && sub.events == events[n + 1..]
              && match Decode(value.value)
                 case Err(fault) => outcome == ReadFailed(DecodeFault(fault)) && unchanged(msg)
                 case Ok((m, _)) => outcome == Read && msg.Valid() && msg.View() == DeliveryOf(m) && fresh(msg.Handed())
    {
      hide Decode, DeliveryOf, Message.Repr, Message.Valid, Message.Value, Skipped, First, Contains;
      ghost var all := Upcoming();
      ghost var n := 0;
      while true
        invariant Valid() && unchanged(msg) && unchanged(wire) && wire.Repr() == old(wire.Repr())
        invariant sub == null || sub == old(sub) || fresh(sub)
        invariant sub == null ==> old(sub) == null && unchanged(db) && Upcoming() == all && n == 0
        invariant old(db.granted) <= db.granted && |db.granted| <= |old(db.granted)| + 1
        invariant sub != null ==> all.Some? && n <= First(all.value) && sub.events == all.value[n..]
        invariant sub != null ==>
          db.openings == old(db.openings)[if old(sub) != null || old(db.openings) == [] then 0 else 1..]
        decreases sub == null, if sub == null then 0 else |sub.events|
      {
        wire.ReprAllocated();
        if sub == null {
          var error := SetupSubscription();
          if error.Some? { return ReadFailed(SubscribeFault(error.value)); }
        }
        if sub.events == [] { return Waiting; }
        assert all.value[n..][0] == all.value[n] && all.value[n..][1..] == all.value[n + 1..];
        var popped := sub.Pop();
        if popped.Lost? {
          assert !Skipped(popped) by { LostIsNotSkipped(popped); }
          sub := null;
          return ReadFailed(PopFault(popped.error));
        }
        n := n + 1;
        if !Contains(popped.kind, "message") || popped.value == None {
          assert Skipped(popped) by { OtherIsSkipped(popped); }
          continue;
        }
        assert !Skipped(popped) by { MessageIsNotSkipped(popped); }
        var received := Receive(popped.value.value, wire, msg);
        wire.ReprAllocated();
        return if received.Err? then ReadFailed(DecodeFault(received.error)) else Read;
      }
    }

    /**
     The part of WriteMessage under the lock. The connection goes back in any case. After an error
     the message may or may not have gone out; if it has, it is whole.
     */
    method PublishMessage(m: Message) returns (error: Option<RedisError>)
      requires m.Valid() && this !in m.Repr() && db !in m.Repr()
      modifies this`buf, db`published, db`lent, db`attempts
      ensures db.lent == old(db.lent)
      ensures db.published == old(db.published)
        || db.published == old(db.published) + [(outbound, Encode(m.Value()))]
      ensures error == None ==> db.published == old(db.published) + [(outbound, Encode(m.Value()))]
      ensures old(db.attempts) == [] ==> error == None
    {
      hide Encode, Message.Repr, Message.Valid, Message.Value;
      ghost var f := m.Value();
      m.ReprAllocated();
      var b := m.MarshalMsg(buf[..0]);
      assert buf[..0] + Encode(f) == Encode(f);
      buf := b;
      error := db.Connection();
      if error.Some? { return; }
      error := db.Publish(outbound, b);
      db.Return();
    }

    /** Publishes one message on the outbound channel at most; the wire message goes back to the pool in any case. */
    method WriteMessage(g: nat, pool: Writers, pooled: Option<Message>, c: Call)
      returns (result: Result<(), WriteFault>, ghost used: Message)
      requires pool.Valid() && (forall m :: m in pool.storage ==> this !in pool.storage[m] && db !in pool.storage[m])
      requires pooled.Some? ==> pooled.value in pool.owner && pool.owner[pooled.value] == None
      modifies pool, if pooled.Some? then pool.storage[pooled.value] else {}
      modifies this`buf, db`published, db`lent, db`attempts
      ensures pool.Valid() && pool.owner == old(pool.owner)[used := None]
      ensures db.lent == old(db.lent)
      ensures match WireOf(c)
        case Err(e) => result == Err(ConvertFault(e)) && db.published == old(db.published)
        case Ok(f) =>
          && (result.Ok? ==> db.published == old(db.published) + [(outbound, Encode(f))])
          && (result.Err? ==> result.error.IoFault?)
          && (db.published == old(db.published) || db.published == old(db.published) + [(outbound, Encode(f))])
          && (old(db.attempts) == [] ==> result.Ok?)
      ensures Unsendable(c.args) || Unsendable(c.result) ==>
        result.Err? && result.error.ConvertFault? && db.published == old(db.published)
    {
      RefusedExactly(c);
      hide WireOf, Encode, Message.Repr, Message.Valid, Message.Value, Clean, Writers.Valid;
      var m := pool.Get(g, pooled);
      used := m;
      var fault := pool.Fill(g, m, c);
      pool.Others(m);
      m.ReprAllocated();
      if fault.Some? {
        result := Err(ConvertFault(fault.value));
      } else {
        var error := PublishMessage(m);
        result := if error == None then Ok(()) else Err(IoFault(error.value));
      }
      pool.Put(g, m);
    }

    /** Unsubscribes and closes, both whatever comes of it; the error of the first counts for more. */
    method Close() returns (error: Option<RedisError>)
      requires Valid()
      modifies this`sub, sub
      ensures Valid() && sub == null
      ensures old(sub) == null ==> error == None
      ensures old(sub) != null ==>
        && old(sub).closed
        && error == (if old(sub).opening.unsubscribeError.Some? then old(sub).opening.unsubscribeError
                     else old(sub).opening.closeError)
        && (error == None ==> inbound !in old(sub).channels)
    {
      hide Message.Repr, Message.Valid;
      if sub == null { return None; }
      error := sub.Unsubscribe(inbound);
      var closeError := sub.Close();
      if error == None { error := closeError; }
      sub := null;
    }
  }

  /** An event counts as a message if its kind has the word in it somewhere, and its value is not nil. */
  lemma SkippedExactly(kind: string, value: Option<seq<byte>>)
    ensures Skipped(Event(kind, value)) <==> value == None || forall a, b: string :: kind != a + "message" + b
  {
    if Contains(kind, "message") {
      var i :| 0 <= i <= |kind| && "message" <= kind[i..];
      assert kind == kind[..i] + "message" + kind[i + 7..];
    }
    forall a, b: string | kind == a + "message" + b ensures Contains(kind, "message") {
      assert kind[|a|..] == "message" + b;
    }
  }

  /** The confirmations of subscribing and unsubscribing are passed over, whatever they carry. */
  lemma ConfirmationsAreSkipped(value: Option<seq<byte>>)
    ensures Skipped(Event("subscribe", value)) && Skipped(Event("unsubscribe", value))
    ensures Skipped(Event("psubscribe", value)) && Skipped(Event("punsubscribe", value))
    ensures Skipped(Event("message", value)) == Skipped(Event("pmessage", value)) == (value == None)
  {
    assert "message" <= "message"[0..] && "message" <= "pmessage"[1..];
    WithoutM("subscribe");
    WithoutM("unsubscribe");
    WithoutM("psubscribe");
    WithoutM("punsubscribe");
  }

  lemma WithoutM(s: string)
    requires 'm' !in s
    ensures !Contains(s, "message")
  {
    forall i | 0 <= i <= |s| ensures !("message" <= s[i..]) {
      if i < |s| { assert s[i..][0] == s[i] != "message"[0]; }
    }
  }

  lemma LostIsNotSkipped(e: Popped)
    ensures e.Lost? ==> !Skipped(e)
  {
  }

  lemma OtherIsSkipped(e: Popped)
    requires e.Event? && (!Contains(e.kind, "message") || e.value == None)
    ensures Skipped(e)
  {
  }

  lemma MessageIsNotSkipped(e: Popped)
    requires e.Event? && Contains(e.kind, "message") && e.value.Some?
    ensures !Skipped(e)
  {
  }
}
