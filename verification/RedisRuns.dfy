/**
 Endpoints on redis pub-sub channels as a system of steps. Any number of codecs, each with any
 number of writers behind its lock, share one redis, which delivers a published message to
 whoever is subscribed to the channel at that moment. Nobody closes and no connection fails. What
 a writer publishes is what its call says; RedisWriterRuns has the wire messages and the buffers
 that this comes from, and its runs are runs of this.
 */
module RedisRuns {
  import opened Bytes
  import opened Wire
  import opened Mpc

  type Channel = seq<char>

  /** The channels that a codec was made for. */
  datatype Config = Config(subscribe: Channel, publish: Channel)

  /** A message that has been published; the call is the one whose writer published it. */
  datatype Publication = Publication(sender: nat, channel: Channel, call: Call, payload: seq<byte>)

  /** What Pop yields: the confirmation of the subscription, or a message. */
  datatype Event = Confirmation | Message(p: Publication)

  datatype Writer = Free | Locked(call: Call) | Sent

  /**
   since is the length of the log when the subscription took effect; popped is the history of the
   messages read so far, and order that of the calls whose writers have got the lock.
   */
  datatype Endpoint = Endpoint(
    since: Option<nat>, queue: seq<Event>, popped: seq<Publication>, writer: Writer, order: seq<Call>)

  datatype State = State(ends: seq<Endpoint>, log: seq<Publication>)

  datatype Step = Subscribe(e: nat) | Pop(e: nat) | Lock(e: nat, call: Call) | Publish(e: nat) | Unlock(e: nat)

  predicate Enabled(s: State, step: Step) {
    && step.e < |s.ends|
    && var end := s.ends[step.e];
       match step
       case Subscribe(_) => end.since == None
       case Pop(_) => end.since.Some? && end.queue != []
       case Lock(_, call) => end.writer.Free? && WireOf(call).Ok?
       case Publish(_) => end.writer.Locked?
       case Unlock(_) => end.writer.Sent?
  }

  /** Delivers p to the subscribers of its channel, the publisher included if it is one of them. */
  function Deliver(config: seq<Config>, ends: seq<Endpoint>, p: Publication): (r: seq<Endpoint>)
    requires |ends| == |config|
    ensures |r| == |ends|
  {
    seq(|ends|, i requires 0 <= i < |ends| =>
      if ends[i].since.Some? && config[i].subscribe == p.channel
      then ends[i].(queue := ends[i].queue + [Message(p)])
      else ends[i])
  }

  function Popped(end: Endpoint): Endpoint
    requires end.queue != []
  {
    end.(queue := end.queue[1..], popped := end.popped + Messages(end.queue[..1]))
  }

  /** What stands for a call on a channel. */
  function PayloadOf(call: Call): seq<byte> {
    if WireOf(call).Ok? then Encode(WireOf(call).value) else []
  }

  function Locking(s: State, e: nat, call: Call): (r: State)
    requires e < |s.ends|
    ensures |r.ends| == |s.ends|
  {
    s.(ends := s.ends[e := s.ends[e].(writer := Locked(call), order := s.ends[e].order + [call])])
  }

  function Publishing(config: seq<Config>, s: State, e: nat, payload: seq<byte>): (r: State)
    requires e < |s.ends| == |config| && s.ends[e].writer.Locked?
    ensures |r.ends| == |s.ends|
  {
    var p := Publication(e, config[e].publish, s.ends[e].writer.call, payload);
    State(Deliver(config, s.ends[e := s.ends[e].(writer := Sent)], p), s.log + [p])
  }

  function Next(config: seq<Config>, s: State, step: Step): (r: State)
    requires Enabled(s, step) && |s.ends| == |config|
    ensures |r.ends| == |s.ends|
  {
    var e, end := step.e, s.ends[step.e];
    match step
    case Subscribe(_) => s.(ends := s.ends[e := end.(since := Some(|s.log|), queue := [Confirmation])])
    case Pop(_) => s.(ends := s.ends[e := Popped(end)])
    case Lock(_, call) => Locking(s, e, call)
    case Publish(_) => Publishing(config, s, e, PayloadOf(end.writer.call))
    case Unlock(_) => s.(ends := s.ends[e := end.(writer := Free)])
  }

  function Start(config: seq<Config>): State {
    State(seq(|config|, _ => Endpoint(None, [], [], Free, [])), [])
  }

  function Run(config: seq<Config>, steps: seq<Step>): (s: Option<State>)
    ensures s.Some? ==> |s.value.ends| == |config|
  {
    if steps == [] then Some(Start(config))
    else
      var before := Run(config, steps[..|steps| - 1]);
      var step := steps[|steps| - 1];
      if before.Some? && Enabled(before.value, step) then Some(Next(config, before.value, step)) else None
  }

  /** The messages among the events. */
  function Messages(events: seq<Event>): seq<Publication> {
    if events == [] then []
    else Messages(events[..|events| - 1]) + match events[|events| - 1] case Confirmation => [] case Message(p) => [p]
  }

  /** The publications on a channel. */
  function On(log: seq<Publication>, channel: Channel): seq<Publication> {
    if log == [] then []
    else On(log[..|log| - 1], channel) + if log[|log| - 1].channel == channel then [log[|log| - 1]] else []
  }

  /** The calls that an endpoint has published. */
  function CallsBy(log: seq<Publication>, e: nat): seq<Call> {
    if log == [] then []
    else CallsBy(log[..|log| - 1], e) + if log[|log| - 1].sender == e then [log[|log| - 1].call] else []
  }

  function Calls(ps: seq<Publication>): (r: seq<Call>)
    ensures |r| == |ps| && forall i :: 0 <= i < |ps| ==> r[i] == ps[i].call
  {
    seq(|ps|, i requires 0 <= i < |ps| => ps[i].call)
  }

  /** What an endpoint has read or is still to read is what came over its channel since it subscribed. */
  predicate Received(config: Config, log: seq<Publication>, end: Endpoint) {
    match end.since
    case None => end.queue == [] && end.popped == []
    case Some(n) => n <= |log| && end.popped + Messages(end.queue) == On(log[n..], config.subscribe)
  }

  /** An endpoint publishes in lock order; at most the last call that got the lock is not out yet. */
  predicate Published(log: seq<Publication>, e: nat, end: Endpoint) {
    if end.writer.Locked? then end.order == CallsBy(log, e) + [end.writer.call] else end.order == CallsBy(log, e)
  }

  predicate Inv(config: seq<Config>, s: State) {
    && |s.ends| == |config|
    && (forall e :: 0 <= e < |s.ends| ==> Received(config[e], s.log, s.ends[e]) && Published(s.log, e, s.ends[e]))
    && (forall p :: p in s.log ==>
      p.sender < |config| && p.channel == config[p.sender].publish && p.payload == PayloadOf(p.call))
  }

  /** The call of a publication is one of those that its sender has published. */
  lemma {:induction false} LoggedIsOrdered(log: seq<Publication>, p: Publication)
    requires p in log
    ensures p.call in CallsBy(log, p.sender)
    decreases |log|
  {
    var last := |log| - 1;
    if log[last] == p {
    } else {
      assert log == log[..last] + [log[last]];
      LoggedIsOrdered(log[..last], p);
    }
  }

  /** Only calls that can be converted get a lock. */
  lemma {:induction false} OnlyConverted(config: seq<Config>, steps: seq<Step>)
    requires Run(config, steps).Some?
    ensures forall e, c :: 0 <= e < |config| && c in Run(config, steps).value.ends[e].order ==> WireOf(c).Ok?
    decreases |steps|
  {
    hide WireOf, Messages, PayloadOf;
    if steps == [] {
    } else {
      OnlyConverted(config, steps[..|steps| - 1]);
    }
  }

  lemma {:induction false} MessagesConcat(a: seq<Event>, b: seq<Event>)
    ensures Messages(a + b) == Messages(a) + Messages(b)
    decreases |b|
  {
    if b == [] {
      assert a + b == a;
    } else {
      assert (a + b)[..|a + b| - 1] == a + b[..|b| - 1];
      MessagesConcat(a, b[..|b| - 1]);
    }
  }

  lemma PopReceived(config: Config, log: seq<Publication>, end: Endpoint)
    requires Received(config, log, end) && end.since.Some? && end.queue != []
    ensures Received(config, log, Popped(end))
  {
    hide Messages, On;
    MessagesConcat(end.queue[..1], end.queue[1..]);
    assert end.queue[..1] + end.queue[1..] == end.queue;
  }

  lemma PublishReceived(config: Config, log: seq<Publication>, end: Endpoint, p: Publication)
    requires Received(config, log, end)
    ensures Received(config, log + [p],
      if end.since.Some? && config.subscribe == p.channel then end.(queue := end.queue + [Message(p)]) else end)
  {
    if end.since.Some? {
      var n := end.since.value;
      assert (log + [p])[n..] == log[n..] + [p];
      assert (log[n..] + [p])[..|log[n..]|] == log[n..];
      assert (end.queue + [Message(p)])[..|end.queue|] == end.queue;
      hide Messages, On;
    }
  }

  lemma PublishPublished(log: seq<Publication>, e: nat, end: Endpoint, p: Publication)
    requires Published(log, e, end) && (p.sender == e ==> end.writer == Locked(p.call))
    ensures Published(log + [p], e, if p.sender == e then end.(writer := Sent) else end)
  {
    assert (log + [p])[..|log|] == log;
  }

  lemma InvPublish(config: seq<Config>, s: State, e: nat)
    requires Inv(config, s) && Enabled(s, Publish(e))
    ensures Inv(config, Next(config, s, Publish(e)))
  {
    hide Received, Published, PayloadOf;
    var p := Publication(e, config[e].publish, s.ends[e].writer.call, PayloadOf(s.ends[e].writer.call));
    var after := Next(config, s, Publish(e));
    forall i | 0 <= i < |s.ends|
      ensures Received(config[i], after.log, after.ends[i]) && Published(after.log, i, after.ends[i])
    {
      var end := if i == e then s.ends[e].(writer := Sent) else s.ends[i];
      SameReceived(config[i], s.log, s.ends[i], end);
      PublishReceived(config[i], s.log, end, p);
      PublishPublished(s.log, i, s.ends[i], p);
      SamePublished(after.log, i, end, after.ends[i]);
    }
  }

  lemma SameReceived(config: Config, log: seq<Publication>, end: Endpoint, other: Endpoint)
    requires Received(config, log, end)
    requires other.since == end.since && other.queue == end.queue && other.popped == end.popped
    ensures Received(config, log, other)
  {
  }

  lemma SamePublished(log: seq<Publication>, e: nat, end: Endpoint, other: Endpoint)
    requires Published(log, e, end)
    requires other.writer == end.writer && other.order == end.order
    ensures Published(log, e, other)
  {
  }

  lemma InvStep(config: seq<Config>, s: State, step: Step)
    requires Inv(config, s) && Enabled(s, step)
    ensures Inv(config, Next(config, s, step))
  {
    var e, end := step.e, s.ends[step.e];
    match step
    case Publish(_) => InvPublish(config, s, e);
    case Pop(_) => PopReceived(config[e], s.log, end);
    case Subscribe(_) => assert [Confirmation][..0] == [] && s.log[|s.log|..] == [];
    case Lock(_, call) =>
    case Unlock(_) =>
  }

  lemma {:induction false} EveryRun(config: seq<Config>, steps: seq<Step>)
    requires Run(config, steps).Some?
    ensures Inv(config, Run(config, steps).value)
    decreases |steps|
  {
    hide Inv, Enabled, Next;
    if steps == [] {
      StartHolds(config);
    } else {
      EveryRun(config, steps[..|steps| - 1]);
      InvStep(config, Run(config, steps[..|steps| - 1]).value, steps[|steps| - 1]);
    }
  }

  lemma StartHolds(config: seq<Config>)
    ensures Inv(config, Start(config))
  {
  }

  // ---- what an endpoint hears ------------------------------------------------------------------

  lemma {:induction false} OnMembers(log: seq<Publication>, channel: Channel)
    ensures forall p :: p in On(log, channel) ==> p in log && p.channel == channel
    decreases |log|
  {
    if log == [] {
    } else {
      OnMembers(log[..|log| - 1], channel);
    }
  }

  /** Every message that an endpoint reads was published after it subscribed, on its channel. */
  lemma HeardOnChannel(config: seq<Config>, steps: seq<Step>, e: nat)
    requires Run(config, steps).Some? && e < |config|
    ensures forall p :: p in Run(config, steps).value.ends[e].popped ==>
      && p.channel == config[e].subscribe && p.sender < |config| && p.channel == config[p.sender].publish
      && p.payload == PayloadOf(p.call)
  {
    hide Messages, PayloadOf;
    EveryRun(config, steps);
    var s := Run(config, steps).value;
    var end := s.ends[e];
    if end.since.Some? {
      OnMembers(s.log[end.since.value..], config[e].subscribe);
      forall p | p in end.popped ensures p in On(s.log[end.since.value..], config[e].subscribe) {
        assert p in end.popped + Messages(end.queue);
      }
    }
  }

  /** After these steps e has read a message that it has published itself. */
  predicate HearsItself(config: seq<Config>, steps: seq<Step>, e: nat)
    requires e < |config|
  {
    Run(config, steps).Some? && exists p :: p in Run(config, steps).value.ends[e].popped && p.sender == e
  }

  lemma RunOn(config: seq<Config>, steps: seq<Step>, step: Step)
    requires Run(config, steps).Some? && Enabled(Run(config, steps).value, step)
    ensures Run(config, steps + [step]) == Some(Next(config, Run(config, steps).value, step))
  {
    hide Next, Enabled;
    assert (steps + [step])[..|steps|] == steps;
  }

  /** An endpoint that listens on the channel it publishes to does read its own message. */
  lemma OwnMessage(config: seq<Config>, e: nat, call: Call) returns (steps: seq<Step>)
    requires e < |config| && config[e].subscribe == config[e].publish && WireOf(call).Ok?
    ensures HearsItself(config, steps, e)
  {
    hide WireOf, Run, PayloadOf;
    var p := Publication(e, config[e].publish, call, PayloadOf(call));
    steps := [];
    assert Run(config, steps) == Some(Start(config)) by { EmptyRun(config); }
    RunOn(config, steps, Subscribe(e));
    steps := steps + [Subscribe(e)];
    RunOn(config, steps, Lock(e, call));
    steps := steps + [Lock(e, call)];
    RunOn(config, steps, Publish(e));
    steps := steps + [Publish(e)];
    assert Run(config, steps).value.ends[e].queue == [Confirmation, Message(p)];
    RunOn(config, steps, Pop(e));
    steps := steps + [Pop(e)];
    assert Run(config, steps).value.ends[e].queue == [Message(p)];
    RunOn(config, steps, Pop(e));
    steps := steps + [Pop(e)];
    assert [Message(p)][..1][..0] == [];
    assert p in Messages([Message(p)][..1]);
  }

  lemma EmptyRun(config: seq<Config>)
    ensures Run(config, []) == Some(Start(config))
  {
  }

  /** An endpoint can come to read its own messages exactly when its two channels are the same. */
  lemma HearsItselfExactly(config: seq<Config>, e: nat)
    requires e < |config|
    ensures (exists steps :: HearsItself(config, steps, e)) <==> config[e].subscribe == config[e].publish
  {
    hide Run, WireOf;
    if config[e].subscribe == config[e].publish {
      assert WireOf(Call(0, [], Absent, Absent, None)).Ok? by { EmptyCall(); }
      var steps := OwnMessage(config, e, Call(0, [], Absent, Absent, None));
      assert HearsItself(config, steps, e);
    }
    forall steps | HearsItself(config, steps, e) ensures config[e].subscribe == config[e].publish {
      HeardOnChannel(config, steps, e);
    }
  }

  lemma EmptyCall()
    ensures WireOf(Call(0, [], Absent, Absent, None)).Ok?
  {
  }

  // ---- two endpoints on mirrored channels --------------------------------------------------------

  predicate Mirrored(config: seq<Config>) {
    && |config| == 2
    && config[0].subscribe == config[1].publish && config[1].subscribe == config[0].publish
    && config[0].publish != config[1].publish
  }

  lemma {:induction false} CallsByConcat(a: seq<Publication>, b: seq<Publication>, e: nat)
    ensures CallsBy(a + b, e) == CallsBy(a, e) + CallsBy(b, e)
    decreases |b|
  {
    if b == [] {
      assert a + b == a;
    } else {
      assert (a + b)[..|a + b| - 1] == a + b[..|b| - 1];
      CallsByConcat(a, b[..|b| - 1], e);
    }
  }

  lemma {:induction false} OnIsByOther(config: seq<Config>, log: seq<Publication>, e: nat)
    requires Mirrored(config) && e < 2
    requires forall p :: p in log ==> p.sender < 2 && p.channel == config[p.sender].publish
    ensures Calls(On(log, config[e].subscribe)) == CallsBy(log, 1 - e)
    decreases |log|
  {
    if log == [] {
    } else {
      var before, last := log[..|log| - 1], log[|log| - 1];
      assert last in log;
      OnIsByOther(config, before, e);
    }
  }

  /** What ReadMessage makes of a message. */
  function Heard(p: Publication): Result<Delivery, WireFault> {
    match Decode(p.payload)
    case Err(fault) => Err(fault)
    case Ok((m, _)) => Ok(DeliveryOf(m))
  }

  lemma HeardAsSent(p: Publication)
    requires Sendable(p.call) && p.payload == PayloadOf(p.call)
    ensures Heard(p) == Ok(Expected(p.call))
  {
    hide Encode, Decode, DeliveryOf, Expected;
    CallArrives(p.call, []);
    assert Encode(WireOf(p.call).value) + [] == Encode(WireOf(p.call).value);
  }

  /**
   In every run of two endpoints on mirrored channels, each one reads what the other published since
   the subscription took effect, in the order in which the writers of the other got its lock, without
   gaps; it never reads a message of its own. Once nothing is under way it has read everything.
   */
  lemma MirroredPair(config: seq<Config>, steps: seq<Step>, e: nat)
    requires Mirrored(config) && e < 2 && Run(config, steps).Some?
    ensures var s := Run(config, steps).value;
      var end, other := s.ends[e], s.ends[1 - e];
      && (forall p :: p in end.popped ==> p.sender == 1 - e)
      && (forall p :: p in end.popped && Sendable(p.call) ==> Heard(p) == Ok(Expected(p.call)))
      && (end.since.Some? ==>
        && end.since.value <= |s.log|
        && var k := |CallsBy(s.log[..end.since.value], 1 - e)|;
           && k <= |other.order|
           && Calls(end.popped) <= other.order[k..]
           && (Messages(end.queue) == [] && !other.writer.Locked? ==> Calls(end.popped) == other.order[k..]))
  {
    hide Messages, CallsBy, Calls, Heard, Sendable, Expected, PayloadOf, Inv, Run;
    HeardOnChannel(config, steps, e);
    EveryRun(config, steps);
    var s := Run(config, steps).value;
    forall p | p in s.ends[e].popped && Sendable(p.call) ensures Heard(p) == Ok(Expected(p.call)) {
      HeardAsSent(p);
    }
    if s.ends[e].since.Some? {
      ReadInOrder(config, s, e);
    }
  }

  lemma ReadInOrder(config: seq<Config>, s: State, e: nat)
    requires Mirrored(config) && e < 2 && Inv(config, s) && s.ends[e].since.Some?
    ensures var end, other := s.ends[e], s.ends[1 - e];
      && end.since.value <= |s.log|
      && var k := |CallsBy(s.log[..end.since.value], 1 - e)|;
         && k <= |other.order|
         && Calls(end.popped) <= other.order[k..]
         && (Messages(end.queue) == [] && !other.writer.Locked? ==> Calls(end.popped) == other.order[k..])
  {
    hide Messages, On, CallsBy, PayloadOf;
    var end, other := s.ends[e], s.ends[1 - e];
    var n := end.since.value;
    var k := |CallsBy(s.log[..n], 1 - e)|;
    OnIsByOther(config, s.log[n..], e);
    CallsByConcat(s.log[..n], s.log[n..], 1 - e);
    assert s.log[..n] + s.log[n..] == s.log;
    var published := CallsBy(s.log, 1 - e);
    assert published[k..] == Calls(end.popped + Messages(end.queue));
    assert Calls(end.popped) <= published[k..] <= other.order[k..];
  }
}
