/**
 WriteMessage of generic.go as it is meant: any number of goroutines, each of them anywhere in
 WriteMessage, taking their steps in any order, where what a goroutine writes is what its call
 says. There are no wire messages here; WriterRuns has them, and its runs are runs of this.
 The output is what has been flushed to the connection and what is still in the buffer of the
 msgp.Writer.
 */
module GenericRuns {
  import opened Bytes
  import opened Wire
  import opened Mpc

  /** Where a goroutine is. A message that is being written still has some of its parts to go. */
  datatype Pc =
    | Idle
    | Started(call: Call)
    | Ready(call: Call)
    | Writing(call: Call, todo: seq<seq<byte>>)
    | Flushed
    | Done

  /** order is the history of the calls whose writers have got the lock, in that order. */
  datatype State = State(
    pc: map<nat, Pc>, lock: Option<nat>, buffered: seq<byte>, flushed: seq<byte>, order: seq<Call>)

  datatype Step =
    | Start(g: nat, call: Call)
    | Convert(g: nat)
    | Lock(g: nat)
    | WritePart(g: nat)
    | Spill(n: nat)
    | Flush(g: nat)
    | Unlock(g: nat)
    | Return(g: nat)

  function At(s: State, g: nat): Pc {
    if g in s.pc then s.pc[g] else Idle
  }

  function Go(s: State, g: nat, pc: Pc): State {
    s.(pc := s.pc[g := pc])
  }

  predicate Enabled(s: State, step: Step) {
    match step
    case Start(g, _) => At(s, g).Idle?
    case Convert(g) => At(s, g).Started?
    case Lock(g) => At(s, g).Ready? && s.lock == None
    case WritePart(g) => At(s, g).Writing? && At(s, g).todo != []
    case Spill(n) => n <= |s.buffered|
    case Flush(g) => At(s, g).Writing? && At(s, g).todo == []
    case Unlock(g) => At(s, g).Flushed?
    case Return(g) => At(s, g).Done?
  }

  /**
   A call comes in; it is converted, or done if it cannot be; wmu.Lock; one write of EncodeMsg; the
   msgp.Writer making room; Flush; the deferred Unlock; the return.
   */
  function Next(s: State, step: Step): State
    requires Enabled(s, step)
  {
    match step
    case Start(g, call) => Go(s, g, Started(call))
    case Convert(g) =>
      var call := At(s, g).call;
      Go(s, g, if WireOf(call).Ok? then Ready(call) else Done)
    case Lock(g) =>
      var call := At(s, g).call;
      var todo := if WireOf(call).Ok? then Parts(WireOf(call).value) else [];
      Go(s, g, Writing(call, todo)).(lock := Some(g), order := s.order + [call])
    case WritePart(g) =>
      var pc := At(s, g);
      Go(s, g, pc.(todo := pc.todo[1..])).(buffered := s.buffered + pc.todo[0])
    case Spill(n) => s.(flushed := s.flushed + s.buffered[..n], buffered := s.buffered[n..])
    case Flush(g) => Go(s, g, Flushed).(flushed := s.flushed + s.buffered, buffered := [])
    case Unlock(g) => Go(s, g, Done).(lock := None)
    case Return(g) => Go(s, g, Idle)
  }

  /** The state after the given steps, if they can be taken one after the other. */
  function Run(steps: seq<Step>): Option<State> {
    if steps == [] then Some(State(map[], None, [], [], []))
    else
      var before := Run(steps[..|steps| - 1]);
      var step := steps[|steps| - 1];
      if before.Some? && Enabled(before.value, step) then Some(Next(before.value, step)) else None
  }

  /** The encodings of the calls, one behind the other. */
  function EncodeAll(calls: seq<Call>): seq<byte> {
    if calls == [] then []
    else EncodeAll(calls[..|calls| - 1]) + EncodeCall(calls[|calls| - 1])
  }

  function EncodeCall(call: Call): seq<byte> {
    if WireOf(call).Ok? then Encode(WireOf(call).value) else []
  }

  /** Every goroutine but the lock holder is outside of the critical section. */
  predicate Exclusive(s: State) {
    && (s.lock.Some? ==> At(s, s.lock.value).Writing? || At(s, s.lock.value).Flushed?)
    && forall g :: g in s.pc && (s.pc[g].Writing? || s.pc[g].Flushed?) ==> s.lock == Some(g)
  }

  /** What is on the wire or about to be: all but the last message whole, the last as far as its writer has got. */
  predicate Consistent(s: State) {
    match s.lock
    case None => s.buffered == [] && s.flushed == EncodeAll(s.order)
    case Some(g) =>
      && s.order != []
      && match At(s, g)
         case Writing(call, todo) =>
           && call == s.order[|s.order| - 1]
           && EncodeAll(s.order[..|s.order| - 1]) <= s.flushed
           && s.flushed + s.buffered + Concat(todo) == EncodeAll(s.order)
         case _ => s.buffered == [] && s.flushed == EncodeAll(s.order)
  }

  /** Only calls that can be converted get as far as the lock. */
  predicate Converted(s: State) {
    && (forall g :: g in s.pc && s.pc[g].Ready? ==> WireOf(s.pc[g].call).Ok?)
    && (forall c :: c in s.order ==> WireOf(c).Ok?)
  }

  predicate Inv(s: State) {
    Exclusive(s) && Consistent(s) && Converted(s)
  }

  lemma ExclusiveStep(s: State, step: Step)
    requires Exclusive(s) && Enabled(s, step)
    ensures Exclusive(Next(s, step))
  {
    hide WireOf, Parts;
  }

  lemma ConvertedStep(s: State, step: Step)
    requires Converted(s) && Enabled(s, step)
    ensures Converted(Next(s, step))
  {
    hide WireOf, Parts;
  }

  lemma LockStep(s: State, g: nat)
    requires Inv(s) && Enabled(s, Lock(g))
    ensures Consistent(Next(s, Lock(g)))
  {
    hide WireOf, Parts, Converted;
    var call := At(s, g).call;
    assert (s.order + [call])[..|s.order|] == s.order;
    assert WireOf(call).Ok? by { ReadyIsConverted(s, g); }
    assert EncodeAll(s.order + [call]) == EncodeAll(s.order) + EncodeCall(call);
    assert s.flushed + [] == s.flushed;
  }

  lemma WritePartStep(s: State, g: nat)
    requires Inv(s) && Enabled(s, WritePart(g))
    ensures Consistent(Next(s, WritePart(g)))
  {
    hide WireOf, Parts, Converted, EncodeAll;
    var todo := At(s, g).todo;
    assert s.flushed + s.buffered + (todo[0] + Concat(todo[1..]))
      == s.flushed + (s.buffered + todo[0]) + Concat(todo[1..]);
  }

  lemma SpillStep(s: State, n: nat)
    requires Inv(s) && Enabled(s, Spill(n))
    ensures Consistent(Next(s, Spill(n)))
  {
    hide WireOf, Parts, Converted, EncodeAll, Concat;
    assert s.flushed + s.buffered == s.flushed + s.buffered[..n] + s.buffered[n..];
  }

  lemma ConsistentStep(s: State, step: Step)
    requires Inv(s) && Enabled(s, step)
    ensures Consistent(Next(s, step))
  {
    hide WireOf, Parts, Converted, EncodeAll;
    match step
    case Lock(g) => LockStep(s, g);
    case WritePart(g) => WritePartStep(s, g);
    case Spill(n) => SpillStep(s, n);
    case Flush(g) => assert s.flushed + s.buffered + [] == s.flushed + s.buffered;
    case _ =>
  }

  lemma ReadyIsConverted(s: State, g: nat)
    requires Converted(s) && At(s, g).Ready?
    ensures WireOf(At(s, g).call).Ok?
  {
  }

  /** The invariant holds after every run. */
  lemma {:induction false} EveryRun(steps: seq<Step>)
    requires Run(steps).Some?
    ensures Inv(Run(steps).value)
    decreases |steps|
  {
    hide Exclusive, Consistent, Converted, Enabled, Next;
    if steps == [] {
      InitHolds();
    } else {
      var before, step := Run(steps[..|steps| - 1]).value, steps[|steps| - 1];
      EveryRun(steps[..|steps| - 1]);
      ExclusiveStep(before, step);
      ConsistentStep(before, step);
      ConvertedStep(before, step);
    }
  }

  lemma InitHolds()
    ensures Inv(State(map[], None, [], [], []))
  {
  }

  // ---- what this means for the connection ----------------------------------------------------

  /**
   In every state of every run the connection has been given the whole encodings of the
   calls before the last, in lock order, and a prefix of the last one; the rest of what has been
   written is in the buffer. Without a lock holder nothing is missing and nothing is buffered.
   */
  lemma OutputIsWholeMessages(steps: seq<Step>)
    requires Run(steps).Some?
    ensures var s := Run(steps).value;
      && (s.lock == None ==> s.buffered == [] && s.flushed == EncodeAll(s.order))
      && (s.lock.Some? ==> s.order != [])
      && (s.lock.Some? ==>
        var done, last := EncodeAll(s.order[..|s.order| - 1]), EncodeCall(s.order[|s.order| - 1]);
        done <= s.flushed && s.flushed[|done|..] + s.buffered <= last)
  {
    EveryRun(steps);
    var s := Run(steps).value;
    if s.lock.Some? {
      LockedOutput(s);
    }
  }

  lemma LockedOutput(s: State)
    requires Inv(s) && s.lock.Some?
    ensures s.order != []
    ensures var done, last := EncodeAll(s.order[..|s.order| - 1]), EncodeCall(s.order[|s.order| - 1]);
      done <= s.flushed && s.flushed[|done|..] + s.buffered <= last
  {
    hide WireOf, EncodeCall, Converted;
    var done, last := EncodeAll(s.order[..|s.order| - 1]), EncodeCall(s.order[|s.order| - 1]);
    var pc := At(s, s.lock.value);
    assert EncodeAll(s.order) == done + last;
    if pc.Writing? {
      var p := s.flushed[|done|..];
      assert s.flushed == done + p;
      assert done + (p + s.buffered + Concat(pc.todo)) == done + last;
      assert (done + last)[|done|..] == last;
      assert (done + (p + s.buffered + Concat(pc.todo)))[|done|..] == p + s.buffered + Concat(pc.todo);
    } else {
      assert (done + last)[|done|..] == last && last + [] == last;
    }
  }

  /** What a reader that loops ReadMessage over the stream hands out before it has to wait or fails. */
  function Deliveries(b: seq<byte>): seq<Delivery>
    decreases |b|
  {
    match Decode(b)
    case Err(_) => []
    case Ok((m, rest)) => [DeliveryOf(m)] + Deliveries(rest)
  }

  function ExpectedAll(calls: seq<Call>): (r: seq<Delivery>)
    ensures |r| == |calls|
  {
    if calls == [] then [] else ExpectedAll(calls[..|calls| - 1]) + [Expected(calls[|calls| - 1])]
  }

  lemma {:induction false} DeliveriesOfAll(calls: seq<Call>, p: seq<byte>)
    requires forall c :: c in calls ==> Sendable(c)
    ensures Deliveries(EncodeAll(calls) + p) == ExpectedAll(calls) + Deliveries(p)
    decreases |calls|
  {
    hide Decode, Encode, Sendable, Expected, WireOf, DeliveryOf;
    if calls == [] {
      assert [] + p == p && [] + Deliveries(p) == Deliveries(p);
    } else {
      var before, last := calls[..|calls| - 1], calls[|calls| - 1];
      assert EncodeAll(calls) + p == EncodeAll(before) + (EncodeCall(last) + p);
      DeliveriesOfAll(before, EncodeCall(last) + p);
      CallDelivered(last, p);
    }
  }

  lemma CallDelivered(call: Call, p: seq<byte>)
    requires Sendable(call)
    ensures Deliveries(EncodeCall(call) + p) == [Expected(call)] + Deliveries(p)
  {
    hide Decode, Encode, Expected, DeliveryOf;
    CallArrives(call, p);
  }

  lemma PartDelivers(call: Call, p: seq<byte>)
    requires Sendable(call) && p <= EncodeCall(call)
    ensures Deliveries(p) == if p == EncodeCall(call) then [Expected(call)] else []
  {
    hide Decode, Encode, Expected, DeliveryOf;
    if p == EncodeCall(call) {
      assert p + [] == p;
      CallDelivered(call, []);
      assert Decode([]).Err? by { NothingToDecode(); }
    } else {
      PrefixDoesNotDecode(WireOf(call).value, p);
    }
  }

  lemma NothingToDecode()
    ensures Decode([]).Err?
  {
  }

  /**
   The reader at the other end gets the calls in lock order: all of them once no writer holds
   the lock, and at most the last one less while one does.
   */
  lemma ReaderFollowsLockOrder(steps: seq<Step>)
    requires Run(steps).Some?
    requires forall c :: c in Run(steps).value.order ==> Sendable(c)
    ensures var s := Run(steps).value;
      var seen, sent := Deliveries(s.flushed), ExpectedAll(s.order);
      && (s.lock == None ==> seen == sent)
      && (s.lock.Some? ==> sent != [] && (seen == sent || seen == sent[..|sent| - 1]))
  {
    hide Sendable, EncodeCall, Expected, Deliveries;
    OutputIsWholeMessages(steps);
    var s := Run(steps).value;
    if s.lock == None {
      DeliveriesOfAll(s.order, []);
      assert EncodeAll(s.order) + [] == EncodeAll(s.order);
      assert Deliveries([]) == [] by { NothingDelivered(); }
      assert ExpectedAll(s.order) + [] == ExpectedAll(s.order);
    } else {
      var before, last := s.order[..|s.order| - 1], s.order[|s.order| - 1];
      var p := s.flushed[|EncodeAll(before)|..];
      assert s.flushed == EncodeAll(before) + p;
      assert p <= p + s.buffered <= EncodeCall(last);
      DeliveriesOfAll(before, p);
      PartDelivers(last, p);
    }
  }

  lemma NothingDelivered()
    ensures Deliveries([]) == []
  {
    NothingToDecode();
  }
}
