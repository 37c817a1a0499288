/**
 WriteMessage of redis.go with what it works on: the wire messages of the one pool that all codecs
 share, and the buffer of each codec, which is marshaled into under the lock and published from.
 Any number of codecs and goroutines take their steps in any order.
 */
module RedisWriterRuns {
  import opened Bytes
  import opened Wire
  import opened Mpc
  import Spec = RedisRuns
  import Writers = WriterRuns

  /**
   writers has the goroutines, their messages, the pool and the heap; redis has the endpoints and what
   they have published and read. bufs holds the buffer of each codec, holder who has its lock.
   */
  datatype State = State(
    writers: Writers.State, redis: Spec.State, bufs: map<nat, seq<byte>>, holder: map<nat, nat>)

  datatype Step =
    | Own(step: Writers.Step)
    | Lock(e: nat, g: nat)
    | Marshal(e: nat)
    | Publish(e: nat)
    | Unlock(e: nat)
    | Subscribe(e: nat)
    | Pop(e: nat)

  /** GetMessage, the steps of ToWire, PutMessage, and the pool being emptied. */
  predicate OutsideLock(step: Writers.Step) {
    step.Get? || step.FillHeader? || step.FillArgs? || step.FillResult? || step.FillError? || step.Put? || step.Forget?
  }

  /** Where the goroutine is that has the lock of e. */
  function Inside(s: State, e: nat): Writers.Pc {
    if e in s.holder then Writers.At(s.writers, s.holder[e]) else Writers.Idle
  }

  predicate Enabled(s: State, step: Step) {
    match step
    case Own(x) => OutsideLock(x) && Writers.Enabled(s.writers, x)
    case Lock(e, g) => e < |s.redis.ends| && e !in s.holder && Writers.At(s.writers, g).Ready?
    case Marshal(e) => e < |s.redis.ends| && Inside(s, e).Writing? && Inside(s, e).next == 0
    case Publish(e) => e < |s.redis.ends| && Inside(s, e).Writing? && Inside(s, e).next == 1
    case Unlock(e) => e < |s.redis.ends| && Inside(s, e).Flushed?
    case Subscribe(e) => Spec.Enabled(s.redis, Spec.Subscribe(e))
    case Pop(e) => Spec.Enabled(s.redis, Spec.Pop(e))
  }

  function Go(w: Writers.State, g: nat, pc: Writers.Pc): Writers.State {
    w.(pc := w.pc[g := pc])
  }

  function Buf(s: State, e: nat): seq<byte> {
    if e in s.bufs then s.bufs[e] else []
  }

  /** MarshalMsg of the message that the holder of the lock has, as it is now. */
  function MarshaledNow(s: State, e: nat): seq<byte>
    requires !Inside(s, e).Idle?
  {
    Encode(Writers.View(s.writers.heap, Writers.Message(s.writers, Inside(s, e).m)))
  }

  function Next(config: seq<Spec.Config>, s: State, step: Step): (r: State)
    requires Enabled(s, step) && |s.redis.ends| == |config|
    ensures |r.redis.ends| == |s.redis.ends|
  {
    match step
    case Own(x) => s.(writers := Writers.Next(s.writers, x))
    case Lock(e, g) =>
      var pc := Writers.At(s.writers, g);
      s.(writers := Go(s.writers, g, Writers.Writing(pc.call, pc.m, 0)),
         redis := Spec.Locking(s.redis, e, pc.call), holder := s.holder[e := g])
    case Marshal(e) =>
      s.(writers := Go(s.writers, s.holder[e], Inside(s, e).(next := 1)), bufs := s.bufs[e := MarshaledNow(s, e)])
    case Publish(e) =>
      var pc := Inside(s, e);
      s.(writers := Go(s.writers, s.holder[e], Writers.Flushed(pc.call, pc.m)),
         redis := if s.redis.ends[e].writer.Locked? then Spec.Publishing(config, s.redis, e, Buf(s, e)) else s.redis)
    case Unlock(e) =>
      var pc := Inside(s, e);
      s.(writers := Go(s.writers, s.holder[e], Writers.Done(pc.call, pc.m)),
         redis := s.redis.(ends := s.redis.ends[e := s.redis.ends[e].(writer := Spec.Free)]),
         holder := s.holder - {e})
    case Subscribe(e) => s.(redis := Spec.Next(config, s.redis, Spec.Subscribe(e)))
    case Pop(e) => s.(redis := Spec.Next(config, s.redis, Spec.Pop(e)))
  }

  function Start(config: seq<Spec.Config>): State {
    State(Writers.State(map[], map[], {}, map[], None, [], [], []), Spec.Start(config), map[], map[])
  }

  function Run(config: seq<Spec.Config>, steps: seq<Step>): (s: Option<State>)
    ensures s.Some? ==> |s.value.redis.ends| == |config|
  {
    if steps == [] then Some(Start(config))
    else
      var before := Run(config, steps[..|steps| - 1]);
      var step := steps[|steps| - 1];
      if before.Some? && Enabled(before.value, step) then Some(Next(config, before.value, step)) else None
  }

  // ---- what every step keeps -----------------------------------------------------------------

  /** Where the holder of a lock is, what the endpoint knows of it, and what is in the buffer by then. */
  predicate Consistent(pc: Writers.Pc, writer: Spec.Writer, buf: seq<byte>) {
    match pc
    case Writing(call, _, next) =>
      writer == Spec.Locked(call) && next <= 1 && (next == 1 ==> buf == Spec.PayloadOf(call))
    case Flushed(_, _) => writer == Spec.Sent
    case _ => false
  }

  predicate Locks(s: State) {
    && (forall e :: e in s.holder ==>
      e < |s.redis.ends| && Consistent(Inside(s, e), s.redis.ends[e].writer, Buf(s, e)))
    && (forall e :: 0 <= e < |s.redis.ends| && e !in s.holder ==> s.redis.ends[e].writer == Spec.Free)
    && (forall e, d :: e in s.holder && d in s.holder && s.holder[e] == s.holder[d] ==> e == d)
  }

  ghost predicate Inv(s: State) {
    Writers.Inv(s.writers) && Locks(s)
  }

  /** The steps outside of the locks move nobody who is inside. */
  lemma InsideStays(w: Writers.State, x: Writers.Step, g: nat)
    requires OutsideLock(x) && Writers.Enabled(w, x)
    requires Writers.At(w, g).Writing? || Writers.At(w, g).Flushed?
    ensures Writers.At(Writers.Next(w, x), g) == Writers.At(w, g)
  {
    hide Writers.Marshal, Writers.Kept;
  }

  lemma OwnStep(config: seq<Spec.Config>, s: State, x: Writers.Step)
    requires Inv(s) && Enabled(s, Own(x)) && |s.redis.ends| == |config|
    ensures Inv(Next(config, s, Own(x)))
  {
    hide Writers.Inv, Writers.Next, Writers.Enabled;
    Writers.InvStep(s.writers, x);
    forall e | e in s.holder ensures Inside(Next(config, s, Own(x)), e) == Inside(s, e) {
      InsideStays(s.writers, x, s.holder[e]);
    }
  }

  /** A holder, or a goroutine that becomes one, moves on without touching a message. */
  lemma Moves(w: Writers.State, g: nat, pc: Writers.Pc)
    requires Writers.Inv(w) && !Writers.At(w, g).Idle? && !pc.Idle? && pc.m == Writers.At(w, g).m
    requires Writers.Filled(Writers.View(w.heap, Writers.Message(w, pc.m)), pc)
    ensures Writers.Inv(Go(w, g, pc))
    ensures forall h :: Writers.At(Go(w, g, pc), h) == if h == g then pc else Writers.At(w, h)
  {
    hide Writers.Inv, Writers.View, Writers.Filled;
    Writers.MoveStep(w, g, pc, Go(w, g, pc));
  }

  /** g moves to pc, and nothing else changes but what concerns e. */
  ghost predicate OnlyAt(s: State, after: State, e: nat, g: nat, pc: Writers.Pc) {
    && after.writers == Go(s.writers, g, pc) && |after.redis.ends| == |s.redis.ends|
    && (forall d :: d != e ==> (d in after.holder <==> d in s.holder) && Buf(after, d) == Buf(s, d))
    && (forall d :: d != e && d in s.holder ==> after.holder[d] == s.holder[d])
    && (forall d :: d != e && 0 <= d < |s.redis.ends| ==> after.redis.ends[d].writer == s.redis.ends[d].writer)
  }

  lemma LocksKept(s: State, after: State, e: nat, g: nat, pc: Writers.Pc)
    requires Locks(s) && OnlyAt(s, after, e, g, pc) && e < |s.redis.ends|
    requires forall d :: d != e && d in s.holder ==> s.holder[d] != g
    requires if e in after.holder
      then after.holder[e] == g && Consistent(pc, after.redis.ends[e].writer, Buf(after, e))
      else after.redis.ends[e].writer == Spec.Free
    ensures Locks(after)
  {
    hide Consistent;
    assert forall d :: d != e && d in s.holder ==> Inside(after, d) == Inside(s, d);
  }

  lemma LockStep(config: seq<Spec.Config>, s: State, e: nat, g: nat)
    requires Inv(s) && Enabled(s, Lock(e, g)) && |s.redis.ends| == |config|
    ensures Inv(Next(config, s, Lock(e, g)))
    ensures WireOf(Writers.At(s.writers, g).call).Ok?
  {
    var pc := Writers.At(s.writers, g);
    Writers.HeldMessage(s.writers, g);
    hide Writers.Inv, Writers.View, Writers.Apart, OnlyAt, Locks;
    Moves(s.writers, g, Writers.Writing(pc.call, pc.m, 0));
    assert forall d :: d in s.holder ==> s.holder[d] != g by { HoldersInside(s); }
    assert OnlyAt(s, Next(config, s, Lock(e, g)), e, g, Writers.Writing(pc.call, pc.m, 0)) by {
      LockOnlyAt(config, s, e, g);
    }
    LocksKept(s, Next(config, s, Lock(e, g)), e, g, Writers.Writing(pc.call, pc.m, 0));
  }

  lemma LockOnlyAt(config: seq<Spec.Config>, s: State, e: nat, g: nat)
    requires Enabled(s, Lock(e, g)) && |s.redis.ends| == |config|
    ensures var pc := Writers.At(s.writers, g);
      OnlyAt(s, Next(config, s, Lock(e, g)), e, g, Writers.Writing(pc.call, pc.m, 0))
  {
  }

  lemma HoldersInside(s: State)
    requires Locks(s)
    ensures forall e :: e in s.holder ==>
      e < |s.redis.ends| && (Inside(s, e).Writing? || Inside(s, e).Flushed?)
      && Consistent(Inside(s, e), s.redis.ends[e].writer, Buf(s, e))
    ensures forall e, d :: e in s.holder && d in s.holder && e != d ==> s.holder[e] != s.holder[d]
  {
  }

  lemma MarshalStep(config: seq<Spec.Config>, s: State, e: nat)
    requires Inv(s) && Enabled(s, Marshal(e)) && |s.redis.ends| == |config|
    ensures Inv(Next(config, s, Marshal(e)))
  {
    var g, pc := s.holder[e], Inside(s, e);
    Writers.HeldMessage(s.writers, g);
    HoldersInside(s);
    assert 1 <= |Parts(Writers.View(s.writers.heap, Writers.Message(s.writers, pc.m)))|;
    hide Writers.Inv, Writers.View, Writers.Apart, Parts, WireOf, Encode, OnlyAt, Locks;
    Moves(s.writers, g, pc.(next := 1));
    assert OnlyAt(s, Next(config, s, Marshal(e)), e, g, pc.(next := 1)) by { MarshalOnlyAt(config, s, e); }
    LocksKept(s, Next(config, s, Marshal(e)), e, g, pc.(next := 1));
  }

  lemma MarshalOnlyAt(config: seq<Spec.Config>, s: State, e: nat)
    requires Enabled(s, Marshal(e)) && |s.redis.ends| == |config|
    ensures OnlyAt(s, Next(config, s, Marshal(e)), e, s.holder[e], Inside(s, e).(next := 1))
  {
    hide Encode;
  }

  lemma PublishStep(config: seq<Spec.Config>, s: State, e: nat)
    requires Inv(s) && Enabled(s, Publish(e)) && |s.redis.ends| == |config|
    ensures Inv(Next(config, s, Publish(e)))
  {
    var g, pc := s.holder[e], Inside(s, e);
    Writers.HeldMessage(s.writers, g);
    HoldersInside(s);
    hide Writers.Inv, Writers.View, Writers.Apart, Parts, WireOf, Spec.PayloadOf, OnlyAt, Locks;
    Moves(s.writers, g, Writers.Flushed(pc.call, pc.m));
    PublishOnlyAt(config, s, e);
    LocksKept(s, Next(config, s, Publish(e)), e, g, Writers.Flushed(pc.call, pc.m));
  }

  lemma PublishOnlyAt(config: seq<Spec.Config>, s: State, e: nat)
    requires Enabled(s, Publish(e)) && |s.redis.ends| == |config| && s.redis.ends[e].writer.Locked?
    ensures OnlyAt(s, Next(config, s, Publish(e)), e, s.holder[e], Writers.Flushed(Inside(s, e).call, Inside(s, e).m))
    ensures Next(config, s, Publish(e)).redis.ends[e].writer == Spec.Sent
  {
  }

  lemma UnlockStep(config: seq<Spec.Config>, s: State, e: nat)
    requires Inv(s) && Enabled(s, Unlock(e)) && |s.redis.ends| == |config|
    ensures Inv(Next(config, s, Unlock(e)))
  {
    var g, pc := s.holder[e], Inside(s, e);
    HoldersInside(s);
    hide Writers.Inv, Writers.View, WireOf, Spec.PayloadOf, OnlyAt, Locks;
    assert Writers.Filled(Writers.View(s.writers.heap, Writers.Message(s.writers, pc.m)), Writers.Done(pc.call, pc.m));
    Moves(s.writers, g, Writers.Done(pc.call, pc.m));
    UnlockOnlyAt(config, s, e);
    LocksKept(s, Next(config, s, Unlock(e)), e, g, Writers.Done(pc.call, pc.m));
  }

  lemma UnlockOnlyAt(config: seq<Spec.Config>, s: State, e: nat)
    requires Enabled(s, Unlock(e)) && |s.redis.ends| == |config|
    ensures OnlyAt(s, Next(config, s, Unlock(e)), e, s.holder[e], Writers.Done(Inside(s, e).call, Inside(s, e).m))
  {
  }

  lemma ReaderStep(config: seq<Spec.Config>, s: State, step: Step)
    requires Inv(s) && Enabled(s, step) && |s.redis.ends| == |config| && (step.Subscribe? || step.Pop?)
    ensures Inv(Next(config, s, step))
  {
    hide Writers.Inv, Spec.PayloadOf, Spec.Messages;
    var after := Next(config, s, step);
    assert forall d :: 0 <= d < |config| ==> after.redis.ends[d].writer == s.redis.ends[d].writer;
    assert forall d :: Inside(after, d) == Inside(s, d);
  }

  /** The step of redis and its endpoints that a step is, if it is one. */
  function SpecStep(s: State, step: Step): Option<Spec.Step>
    requires Enabled(s, step)
  {
    match step
    case Lock(e, g) => Some(Spec.Lock(e, Writers.At(s.writers, g).call))
    case Publish(e) => Some(Spec.Publish(e))
    case Unlock(e) => Some(Spec.Unlock(e))
    case Subscribe(e) => Some(Spec.Subscribe(e))
    case Pop(e) => Some(Spec.Pop(e))
    case _ => None
  }

  /** What is published is what the call of the lock holder says. */
  lemma RefinesPublish(config: seq<Spec.Config>, s: State, e: nat)
    requires Locks(s) && Enabled(s, Publish(e)) && |s.redis.ends| == |config|
    ensures Spec.Enabled(s.redis, Spec.Publish(e))
    ensures Next(config, s, Publish(e)).redis == Spec.Next(config, s.redis, Spec.Publish(e))
  {
    HoldersInside(s);
    hide Locks, Spec.PayloadOf, Spec.Publishing;
  }

  lemma RefinesUnlock(config: seq<Spec.Config>, s: State, e: nat)
    requires Locks(s) && Enabled(s, Unlock(e)) && |s.redis.ends| == |config|
    ensures Spec.Enabled(s.redis, Spec.Unlock(e))
    ensures Next(config, s, Unlock(e)).redis == Spec.Next(config, s.redis, Spec.Unlock(e))
  {
    HoldersInside(s);
    hide Locks;
  }

  /** Every step keeps the invariant and is a step of the specification, or changes nothing there. */
  lemma StepRefines(config: seq<Spec.Config>, s: State, step: Step)
    requires Inv(s) && Enabled(s, step) && |s.redis.ends| == |config|
    ensures Inv(Next(config, s, step))
    ensures match SpecStep(s, step)
      case None => Next(config, s, step).redis == s.redis
      case Some(x) => Spec.Enabled(s.redis, x) && Spec.Next(config, s.redis, x) == Next(config, s, step).redis
  {
    hide Writers.Inv, WireOf, Spec.PayloadOf, Spec.Messages;
    match step
    case Own(x) => OwnStep(config, s, x);
    case Lock(e, g) => LockStep(config, s, e, g);
    case Marshal(e) => MarshalStep(config, s, e);
    case Publish(e) =>
      PublishStep(config, s, e);
      RefinesPublish(config, s, e);
    case Unlock(e) =>
      UnlockStep(config, s, e);
      RefinesUnlock(config, s, e);
    case _ => ReaderStep(config, s, step);
  }

  function SpecSteps(config: seq<Spec.Config>, steps: seq<Step>): seq<Spec.Step>
    requires Run(config, steps).Some?
  {
    if steps == [] then []
    else
      var before, step := Run(config, steps[..|steps| - 1]).value, steps[|steps| - 1];
      SpecSteps(config, steps[..|steps| - 1]) + match SpecStep(before, step) case None => [] case Some(x) => [x]
  }

  lemma StartHolds(config: seq<Spec.Config>)
    ensures Inv(Start(config))
  {
    Writers.StartHolds();
  }

  /** Every run keeps who owns which message, and what it does to redis is a run of the specification. */
  lemma {:induction false} RunRefines(config: seq<Spec.Config>, steps: seq<Step>)
    requires Run(config, steps).Some?
    ensures Inv(Run(config, steps).value)
    ensures Spec.Run(config, SpecSteps(config, steps)) == Some(Run(config, steps).value.redis)
    decreases |steps|
  {
    hide Inv, Enabled, Next, SpecStep, Spec.Next, Spec.Enabled;
    if steps == [] {
      StartHolds(config);
    } else {
      var front, step := steps[..|steps| - 1], steps[|steps| - 1];
      var before := Run(config, front).value;
      RunRefines(config, front);
      StepRefines(config, before, step);
      if SpecStep(before, step) == None {
        assert SpecSteps(config, steps) == SpecSteps(config, front);
      } else {
        var x := SpecStep(before, step).value;
        assert SpecSteps(config, steps) == SpecSteps(config, front) + [x];
        assert (SpecSteps(config, front) + [x])[..|SpecSteps(config, front)|] == SpecSteps(config, front);
      }
    }
  }

  /**
   In every run of two endpoints on mirrored channels, with messages from one pool and a buffer for each
   codec, each one reads what the other published since the subscription took effect, in the order in which
   the writers of the other got its lock, without gaps and as it was sent; it never reads a message of its
   own. Once nothing is under way it has read everything.
   */
  lemma MirroredPair(config: seq<Spec.Config>, steps: seq<Step>, e: nat)
    requires Spec.Mirrored(config) && e < 2 && Run(config, steps).Some?
    ensures var s := Run(config, steps).value.redis;
      var end, other := s.ends[e], s.ends[1 - e];
      && (forall p :: p in end.popped ==> p.sender == 1 - e)
      && (forall p :: p in end.popped && Sendable(p.call) ==> Spec.Heard(p) == Ok(Expected(p.call)))
      && (end.since.Some? ==>
        && end.since.value <= |s.log|
        && var k := |Spec.CallsBy(s.log[..end.since.value], 1 - e)|;
           && k <= |other.order|
           && Spec.Calls(end.popped) <= other.order[k..]
           && (Spec.Messages(end.queue) == [] && !other.writer.Locked? ==> Spec.Calls(end.popped) == other.order[k..]))
  {
    hide Run, Spec.Run, SpecSteps, Spec.Heard, Spec.CallsBy, Spec.Messages, Sendable, Expected;
    RunRefines(config, steps);
    Spec.MirroredPair(config, SpecSteps(config, steps), e);
  }

  /** No run publishes a call whose arguments or result cannot be marshaled, or lets its writer have a lock. */
  lemma NothingRefusedIsPublished(config: seq<Spec.Config>, steps: seq<Step>)
    requires Run(config, steps).Some?
    ensures var s := Run(config, steps).value.redis;
      && (forall e, c :: 0 <= e < |config| && c in s.ends[e].order ==> !Unsendable(c.args) && !Unsendable(c.result))
      && forall p :: p in s.log ==>
        && !Unsendable(p.call.args) && !Unsendable(p.call.result)
        && p.payload == Encode(Fields(p.call.id, p.call.fn, BytesOf(p.call.args), BytesOf(p.call.result), p.call.error))
  {
    hide Run, Spec.Run, SpecSteps, Encode, BytesOf, Unsendable, Spec.CallsBy;
    RunRefines(config, steps);
    Spec.EveryRun(config, SpecSteps(config, steps));
    Spec.OnlyConverted(config, SpecSteps(config, steps));
    var s := Run(config, steps).value.redis;
    forall e, c | 0 <= e < |config| && c in s.ends[e].order ensures !Unsendable(c.args) && !Unsendable(c.result) {
      RefusedExactly(c);
    }
    forall p | p in s.log ensures !Unsendable(p.call.args) && !Unsendable(p.call.result)
      ensures p.payload == Encode(Fields(p.call.id, p.call.fn, BytesOf(p.call.args), BytesOf(p.call.result),
        p.call.error))
    {
      Spec.LoggedIsOrdered(s.log, p);
      RefusedExactly(p.call);
    }
  }
}
