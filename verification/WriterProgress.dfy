/**
 That the runs of WriterRuns are there: whatever is written can be written in any order, nobody is ever
 stuck, and a reader may find the output cut anywhere. The lemmas with an out-parameter construct a run,
 step by step; there is nothing in them for Dafny to guess an induction over.
 */
module WriterProgress {
  import Bytes
  import opened Wire
  import opened Mpc
  import opened WriterRuns
  import Spec = GenericRuns

  lemma Extend(steps: seq<Step>, step: Step)
    requires Run(steps).Some? && Enabled(Run(steps).value, step)
    ensures Run(steps + [step]) == Bytes.Some(Next(Run(steps).value, step))
  {
    hide Enabled, Next;
    assert (steps + [step])[..|steps|] == steps;
  }

  /** There is a number above all of them. */
  lemma {:induction false} Fresh(taken: set<nat>) returns (n: nat)
    ensures forall x :: x in taken ==> x < n
    decreases taken
  {
    n := 0;
    if taken == {} {
    } else {
      var x :| x in taken;
      var m := Fresh(taken - {x});
      assert forall y :: y in taken ==> y == x || y in taken - {x};
      n := if m < x then x + 1 else m + 1;
    }
  }

  /** Nobody but g has moved, and what has been locked and written is the same. */
  ghost predicate Aside(s: State, t: State, g: nat) {
    && (forall h :: h != g ==> At(t, h) == At(s, h))
    && t.lock == s.lock && t.order == s.order && t.buffered == s.buffered && t.flushed == s.flushed
    && t.pool == s.pool && t.msgs.Keys == s.msgs.Keys
  }

  lemma {:induction false} Begin(steps: seq<Step>, g: nat, call: Call, m: nat) returns (after: seq<Step>)
    requires Run(steps).Some? && At(Run(steps).value, g).Idle?
    requires m in Run(steps).value.pool || m !in Run(steps).value.msgs
    ensures after == steps + [Get(g, call, m)] && Run(after).Some?
    ensures var s, t := Run(steps).value, Run(after).value;
      && (forall h :: At(t, h) == if h == g then Filling(call, m, Header) else At(s, h))
      && t.lock == s.lock && t.order == s.order && t.buffered == s.buffered && t.flushed == s.flushed
      && t.pool == s.pool - {m} && t.msgs.Keys == s.msgs.Keys + {m}
  {
    EveryRun(steps);
    PoolIsThere(Run(steps).value);
    Extend(steps, Get(g, call, m));
    hide Run, Inv;
    after := steps + [Get(g, call, m)];
  }

  lemma {:induction false} FillStep(s: State, g: nat) returns (step: Step)
    requires Inv(s) && At(s, g).Filling?
    ensures Enabled(s, step)
    ensures step.FillHeader? || step.FillArgs? || step.FillResult? || step.FillError?
    ensures var t, pc := Next(s, step), At(s, g);
      && Aside(s, t, g)
      && match pc.stage
         case Header => At(t, g) == pc.(stage := Args)
         case Args => At(t, g) == if Marshaled(pc.call.args).None? then Done(pc.call, pc.m) else pc.(stage := Result)
         case Result => At(t, g) == if Marshaled(pc.call.result).None? then Done(pc.call, pc.m) else pc.(stage := Error)
         case Error => At(t, g) == Ready(pc.call, pc.m)
  {
    HeldMessage(s, g);
    var loc := Fresh(s.heap.Keys);
    hide Inv, WriterRuns.Marshal, Apart, View, Filled;
    match At(s, g).stage
    case Header => step := FillHeader(g);
    case Args => step := FillArgs(g, loc);
    case Result => step := FillResult(g, loc);
    case Error => step := FillError(g);
  }

  function StagesLeft(stage: Stage): nat {
    match stage
    case Header => 3
    case Args => 2
    case Result => 1
    case Error => 0
  }

  lemma FilledSoFar(s: State, g: nat)
    requires Inv(s) && At(s, g).Filling?
    ensures var pc := At(s, g);
      && (pc.stage.Result? || pc.stage.Error? ==> Marshaled(pc.call.args).Some?)
      && (pc.stage.Error? ==> Marshaled(pc.call.result).Some?)
  {
    hide Apart, View;
    HeldMessage(s, g);
  }

  /** One step of ToWire: there is less of it to go, or it is over, and the call is ready if it can be converted. */
  lemma {:induction false} FillOne(s: State, g: nat) returns (step: Step)
    requires Inv(s) && At(s, g).Filling?
    ensures Enabled(s, step)
    ensures step.FillHeader? || step.FillArgs? || step.FillResult? || step.FillError?
    ensures var t, before, now := Next(s, step), At(s, g), At(Next(s, step), g);
      && Aside(s, t, g) && !now.Idle? && now.call == before.call && now.m == before.m
      && if now.Filling? then StagesLeft(now.stage) < StagesLeft(before.stage)
         else if WireOf(before.call).Ok? then now.Ready? else now.Done?
  {
    FilledSoFar(s, g);
    step := FillStep(s, g);
    hide Inv, Next, Enabled, Aside, Marshaled;
  }

  /** ToWire can be finished: the call is ready to be written, or done if it cannot be converted. */
  lemma {:induction false} Convert(steps: seq<Step>, g: nat) returns (after: seq<Step>)
    requires Run(steps).Some? && At(Run(steps).value, g).Filling?
    ensures steps <= after && Run(after).Some? && Aside(Run(steps).value, Run(after).value, g)
    ensures forall x :: x in after && x.Lock? ==> x in steps
    ensures var pc := At(Run(steps).value, g);
      At(Run(after).value, g) == if WireOf(pc.call).Ok? then Ready(pc.call, pc.m) else Done(pc.call, pc.m)
    decreases StagesLeft(At(Run(steps).value, g).stage)
  {
    var s := Run(steps).value;
    EveryRun(steps);
    var step := FillOne(s, g);
    Extend(steps, step);
    hide Enabled, Next, Run, WireOf, Inv;
    after := steps + [step];
    if At(Next(s, step), g).Filling? {
      after := Convert(after, g);
    }
  }

  /** Only the lock holder is between Lock and Unlock, and where a goroutine holds it, it is there. */
  lemma LockHolder(steps: seq<Step>)
    requires Run(steps).Some?
    ensures var s := Run(steps).value;
      && (s.lock.Some? ==> At(s, s.lock.value).Writing? || At(s, s.lock.value).Flushed?)
      && (forall g: nat :: At(s, g).Writing? || At(s, g).Flushed? ==> s.lock == Bytes.Some(g))
  {
    hide Run, Spec.Run, SpecSteps, Spec.Consistent, Spec.Converted;
    RunRefines(steps);
    Spec.EveryRun(SpecSteps(steps));
    var s := Run(steps).value;
    forall g: nat ensures Spec.At(Abstract(s), g) == SpecPc(At(s, g)) {
      AbstractAt(s, g);
    }
  }

  /** Nobody but g has moved, and no message has been got or put. */
  ghost predicate Alone(s: State, t: State, g: nat) {
    && (forall h :: h != g ==> At(t, h) == At(s, h))
    && t.pool == s.pool && t.msgs == s.msgs && t.heap == s.heap && t.order == s.order
  }

  /** All parts of a message can be written, into the buffer. */
  lemma {:induction false} WriteParts(steps: seq<Step>, g: nat) returns (after: seq<Step>)
    requires Run(steps).Some? && At(Run(steps).value, g).Writing?
    ensures steps <= after && Run(after).Some? && Alone(Run(steps).value, Run(after).value, g)
    ensures var s, t := Run(steps).value, Run(after).value;
      && t.lock == s.lock && t.flushed == s.flushed
      && At(t, g).Writing? && At(t, g).call == At(s, g).call && At(t, g).m == At(s, g).m
      && At(t, g).next == |PartsOf(t, g)|
    decreases |PartsOf(Run(steps).value, g)| - At(Run(steps).value, g).next
  {
    var s := Run(steps).value;
    after := steps;
    NextPart(steps, g);
    if At(s, g).next < |PartsOf(s, g)| {
      Extend(steps, WritePart(g));
      hide Run, Parts, View;
      after := WriteParts(steps + [WritePart(g)], g);
    }
  }

  lemma NextPart(steps: seq<Step>, g: nat)
    requires Run(steps).Some? && At(Run(steps).value, g).Writing?
    ensures At(Run(steps).value, g).next <= |PartsOf(Run(steps).value, g)|
  {
    hide Run, Apart, View, Parts;
    EveryRun(steps);
    HeldMessage(Run(steps).value, g);
  }

  /** The lock holder can go on to where it has returned the lock. */
  lemma {:induction false} Release(steps: seq<Step>, g: nat) returns (after: seq<Step>)
    requires Run(steps).Some? && (At(Run(steps).value, g).Writing? || At(Run(steps).value, g).Flushed?)
    ensures steps <= after && Run(after).Some? && Alone(Run(steps).value, Run(after).value, g)
    ensures var s, t := Run(steps).value, Run(after).value;
      t.lock.None? && At(t, g) == Done(At(s, g).call, At(s, g).m)
  {
    after := steps;
    if At(Run(steps).value, g).Writing? {
      var written := WriteParts(steps, g);
      Extend(written, Flush(g));
      after := written + [Flush(g)];
    }
    hide Run, Parts, View;
    Extend(after, Unlock(g));
    after := after + [Unlock(g)];
  }

  /** A call that is yet to get the lock, and will. */
  predicate Pending(s: State, g: nat) {
    (At(s, g).Filling? || At(s, g).Ready?) && WireOf(At(s, g).call).Ok?
  }

  /** g has returned from WriteMessage, and its call has been written if it was pending. */
  ghost predicate Returned(s: State, t: State, g: nat) {
    && (forall h :: h != g ==> At(t, h) == At(s, h))
    && At(t, g).Idle? && t.lock.None?
    && t.msgs.Keys == s.msgs.Keys && t.pool == s.pool + (if At(s, g).Idle? then {} else {At(s, g).m})
    && t.order == s.order + if Pending(s, g) then [At(s, g).call] else []
  }

  /** Whoever can have the lock, or has it, can return from WriteMessage. */
  lemma {:induction false} Finish(steps: seq<Step>, g: nat) returns (after: seq<Step>)
    requires Run(steps).Some? && !At(Run(steps).value, g).Idle?
    requires Run(steps).value.lock.None? || Run(steps).value.lock == Bytes.Some(g)
    ensures steps <= after && Run(after).Some? && Returned(Run(steps).value, Run(after).value, g)
  {
    var s := Run(steps).value;
    LockHolder(steps);
    after := steps;
    if s.lock.Some? {
      after := Release(steps, g);
    } else {
      if At(s, g).Filling? { after := Convert(steps, g); }
      if At(Run(after).value, g).Ready? {
        EveryRun(after);
        ReadyCanBeWritten(Run(after).value, g);
        after := LockAndRelease(after, g);
      }
    }
    after := PutBack(after, g);
  }

  lemma ReadyCanBeWritten(s: State, g: nat)
    requires Inv(s) && At(s, g).Ready?
    ensures WireOf(At(s, g).call).Ok?
  {
    hide Apart, View, WireOf;
    HeldMessage(s, g);
  }

  lemma {:induction false} TakeLock(steps: seq<Step>, g: nat) returns (after: seq<Step>)
    requires Run(steps).Some? && At(Run(steps).value, g).Ready? && Run(steps).value.lock.None?
    ensures steps <= after && Run(after).Some?
    ensures var s, t := Run(steps).value, Run(after).value; var Ready(call, m) := At(s, g);
      && Alone(s.(order := s.order + [call]), t, g) && At(t, g) == Writing(call, m, 0)
      && t.flushed == s.flushed && t.lock == Bytes.Some(g)
  {
    Extend(steps, Lock(g));
    hide Run;
    after := steps + [Lock(g)];
  }

  lemma {:induction false} LockAndRelease(steps: seq<Step>, g: nat) returns (after: seq<Step>)
    requires Run(steps).Some? && At(Run(steps).value, g).Ready? && Run(steps).value.lock.None?
    ensures steps <= after && Run(after).Some?
    ensures var s, t := Run(steps).value, Run(after).value; var call := At(s, g).call;
      && Alone(s.(order := s.order + [call]), t, g) && t.lock.None? && At(t, g) == Done(call, At(s, g).m)
  {
    hide Run;
    var locked := TakeLock(steps, g);
    after := Release(locked, g);
  }

  lemma {:induction false} PutBack(steps: seq<Step>, g: nat) returns (after: seq<Step>)
    requires Run(steps).Some? && At(Run(steps).value, g).Done?
    ensures steps <= after && Run(after).Some?
    ensures var s, t := Run(steps).value, Run(after).value;
      && (forall h :: h != g ==> At(t, h) == At(s, h)) && At(t, g).Idle?
      && t.lock == s.lock && t.order == s.order && t.msgs.Keys == s.msgs.Keys && t.pool == s.pool + {At(s, g).m}
  {
    EveryRun(steps);
    HeldMessage(Run(steps).value, g);
    Extend(steps, Put(g));
    hide Run, Kept, Inv, Filled, View, Apart;
    after := steps + [Put(g)];
  }

  // ---- every order of calls can be written -----------------------------------------------------

  /** The writers of the calls are ready, and nobody else has begun. */
  ghost predicate AllReady(s: State, calls: seq<Call>, from: nat) {
    && s.lock.None?
    && (forall i: nat :: from <= i < |calls| ==> At(s, i).Ready? && At(s, i).call == calls[i])
    && (forall i: nat :: !(from <= i < |calls|) ==> At(s, i).Idle?)
  }

  lemma {:induction false} GetReady(calls: seq<Call>) returns (steps: seq<Step>)
    requires forall c :: c in calls ==> WireOf(c).Ok?
    ensures Run(steps).Some? && AllReady(Run(steps).value, calls, 0) && Run(steps).value.order == []
    ensures forall x :: x in steps ==> !x.Lock?
    decreases |calls|
  {
    hide WireOf;
    if calls == [] {
      steps := [];
    } else {
      hide Run, AllReady;
      var front := calls[..|calls| - 1];
      var before := GetReady(front);
      assert calls == front + [calls[|calls| - 1]];
      steps := OneMoreReady(before, front, calls[|calls| - 1]);
    }
  }

  lemma {:induction false} OneMoreReady(before: seq<Step>, calls: seq<Call>, call: Call) returns (steps: seq<Step>)
    requires Run(before).Some? && AllReady(Run(before).value, calls, 0) && Run(before).value.order == []
    requires (forall x :: x in before ==> !x.Lock?) && WireOf(call).Ok?
    ensures Run(steps).Some? && AllReady(Run(steps).value, calls + [call], 0) && Run(steps).value.order == []
    ensures forall x :: x in steps ==> !x.Lock?
  {
    hide Run, WireOf;
    var m := Fresh(Run(before).value.msgs.Keys);
    var begun := Begin(before, |calls|, call, m);
    steps := Convert(begun, |calls|);
  }

  lemma {:induction false} WriteFirst(ready: seq<Step>, calls: seq<Call>, k: nat) returns (steps: seq<Step>)
    requires forall c :: c in calls ==> WireOf(c).Ok?
    requires k <= |calls|
    requires Run(ready).Some? && AllReady(Run(ready).value, calls, 0) && Run(ready).value.order == []
    ensures ready <= steps && Run(steps).Some? && AllReady(Run(steps).value, calls, k)
    ensures Run(steps).value.order == calls[..k]
    decreases k
  {
    hide Run, WireOf;
    if k == 0 {
      steps := ready;
    } else {
      var before := WriteFirst(ready, calls, k - 1);
      steps := Finish(before, k - 1);
      assert calls[..k] == calls[..k - 1] + [calls[k - 1]];
    }
  }

  /**
   Whatever calls there are that can be converted: their writers can all be waiting for the lock before
   any of them gets it, and be served in any order. Then every message has been flushed, whole, and
   all writers have returned.
   */
  lemma {:induction false} AllCanBeWritten(calls: seq<Call>) returns (ready: seq<Step>, steps: seq<Step>)
    requires forall c :: c in calls ==> WireOf(c).Ok?
    ensures Run(ready).Some? && (forall x :: x in ready ==> !x.Lock?)
    ensures forall i: nat :: i < |calls| ==>
      At(Run(ready).value, i).Ready? && At(Run(ready).value, i).call == calls[i]
    ensures ready <= steps && Run(steps).Some?
    ensures var s := Run(steps).value;
      && s.lock.None? && s.order == calls && s.flushed == Spec.EncodeAll(calls) && s.buffered == []
      && forall g :: At(s, g).Idle?
  {
    hide Run, WireOf, Spec.EncodeAll;
    ready := GetReady(calls);
    steps := WriteFirst(ready, calls, |calls|);
    assert calls[..|calls|] == calls;
    OutputIsWholeMessages(steps);
  }

  /** g is idle and can get the message m, from the pool or as a new one, and the lock is free. */
  predicate CanWrite(s: State, g: nat, m: nat) {
    At(s, g).Idle? && s.lock.None? && (m in s.pool || m !in s.msgs)
  }

  /** g has filled m as the call says, and waits for the lock. */
  ghost predicate Waits(s: State, t: State, g: nat, call: Call, m: nat) {
    && (forall h :: At(t, h) == if h == g then Ready(call, m) else At(s, h))
    && t.lock == s.lock && t.order == s.order && t.flushed == s.flushed
    && t.msgs.Keys == s.msgs.Keys + {m} && t.pool == s.pool - {m}
  }

  /** The call has been written with the message m, which is in the pool, and everybody is where they were. */
  ghost predicate Wrote(s: State, t: State, call: Call, m: nat) {
    && (forall h :: At(t, h) == At(s, h)) && t.lock.None? && t.order == s.order + [call]
    && t.msgs.Keys == s.msgs.Keys + {m} && t.pool == s.pool + {m}
  }

  lemma {:induction false} MakeReady(steps: seq<Step>, g: nat, call: Call, m: nat) returns (ready: seq<Step>)
    requires Run(steps).Some? && CanWrite(Run(steps).value, g, m) && WireOf(call).Ok?
    ensures Run(ready).Some? && Waits(Run(steps).value, Run(ready).value, g, call, m)
  {
    hide Run, WireOf;
    var begun := Begin(steps, g, call, m);
    ready := Convert(begun, g);
  }

  lemma {:induction false} WriteOne(steps: seq<Step>, g: nat, call: Call, m: nat) returns (after: seq<Step>)
    requires Run(steps).Some? && CanWrite(Run(steps).value, g, m) && WireOf(call).Ok?
    ensures Run(after).Some? && Wrote(Run(steps).value, Run(after).value, call, m)
  {
    hide Run, WireOf;
    var ready := MakeReady(steps, g, call, m);
    after := Finish(ready, g);
  }

  /** One writer can do with one message that it gets from the pool each time. */
  lemma {:induction false} OneMessageWillDo(calls: seq<Call>) returns (steps: seq<Step>)
    requires forall c :: c in calls ==> WireOf(c).Ok?
    ensures Run(steps).Some?
    ensures var s := Run(steps).value;
      && s.lock.None? && s.order == calls && s.flushed == Spec.EncodeAll(calls)
      && s.msgs.Keys == s.pool == (if calls == [] then {} else {0}) && forall g :: At(s, g).Idle?
    decreases |calls|
  {
    hide WireOf, Spec.EncodeAll;
    if calls == [] {
      steps := [];
    } else {
      hide Run;
      var before, last := calls[..|calls| - 1], calls[|calls| - 1];
      var written := OneMessageWillDo(before);
      assert WireOf(last).Ok?;
      steps := WriteOne(written, 0, last, 0);
      assert calls == before + [last];
    }
    OutputIsWholeMessages(steps);
  }

  /** What the connection has been given can end anywhere, inside of a message as well. */
  lemma {:induction false} AnyPrefixIsSeen(calls: seq<Call>, p: seq<Bytes.byte>) returns (steps: seq<Step>)
    requires (forall c :: c in calls ==> WireOf(c).Ok?) && p <= Spec.EncodeAll(calls)
    ensures Run(steps).Some? && Run(steps).value.flushed == p && Run(steps).value.order <= calls
    decreases |calls|
  {
    if calls == [] || p <= Spec.EncodeAll(calls[..|calls| - 1]) {
      if calls == [] {
        steps := [];
      } else {
        steps := AnyPrefixIsSeen(calls[..|calls| - 1], p);
      }
    } else {
      steps := CutLast(calls, p);
    }
  }

  lemma {:induction false} CutLast(calls: seq<Call>, p: seq<Bytes.byte>) returns (steps: seq<Step>)
    requires calls != [] && (forall c :: c in calls ==> WireOf(c).Ok?)
    requires p <= Spec.EncodeAll(calls) && !(p <= Spec.EncodeAll(calls[..|calls| - 1]))
    ensures Run(steps).Some? && Run(steps).value.flushed == p && Run(steps).value.order == calls
  {
    hide Run, WireOf, Spec.EncodeAll, Spec.EncodeCall;
    var before, last := calls[..|calls| - 1], calls[|calls| - 1];
    OneMoreEncoded(calls);
    PrefixesCompare(p, Spec.EncodeAll(before), Spec.EncodeCall(last));
    var written := OneMessageWillDo(before);
    assert calls == before + [last];
    assert WireOf(last).Ok?;
    var ready := MakeReady(written, 0, last, 0);
    steps := SpillTo(ready, 0, p);
  }

  lemma OneMoreEncoded(calls: seq<Call>)
    requires calls != []
    ensures Spec.EncodeAll(calls) == Spec.EncodeAll(calls[..|calls| - 1]) + Spec.EncodeCall(calls[|calls| - 1])
  {
  }

  lemma PrefixesCompare(p: seq<Bytes.byte>, a: seq<Bytes.byte>, b: seq<Bytes.byte>)
    requires p <= a + b && !(p <= a)
    ensures a <= p
  {
    if |a| <= |p| {
      assert a == (a + b)[..|a|] == p[..|a|];
    }
  }

  /** With the lock, g can let through any part of its message. */
  lemma {:induction false} SpillTo(ready: seq<Step>, g: nat, p: seq<Bytes.byte>) returns (steps: seq<Step>)
    requires Run(ready).Some? && At(Run(ready).value, g).Ready? && Run(ready).value.lock.None?
    requires Run(ready).value.flushed <= p <= Spec.EncodeAll(Run(ready).value.order + [At(Run(ready).value, g).call])
    ensures Run(steps).Some? && Run(steps).value.flushed == p
    ensures Run(steps).value.order == Run(ready).value.order + [At(Run(ready).value, g).call]
  {
    hide Run, Spec.EncodeAll, PartsOf;
    var locked := TakeLock(ready, g);
    var written := WriteParts(locked, g);
    AllBuffered(written, g);
    var s := Run(written).value;
    var n := |p| - |s.flushed|;
    Extend(written, Spill(n));
    steps := written + [Spill(n)];
    assert s.flushed + s.buffered[..n] == (s.flushed + s.buffered)[..|p|];
  }

  /** Once all parts have been written, what is missing on the connection is in the buffer. */
  lemma AllBuffered(steps: seq<Step>, g: nat)
    requires Run(steps).Some? && At(Run(steps).value, g).Writing?
    requires At(Run(steps).value, g).next == |PartsOf(Run(steps).value, g)|
    ensures Run(steps).value.flushed + Run(steps).value.buffered == Spec.EncodeAll(Run(steps).value.order)
  {
    var s := Run(steps).value;
    LockHolder(steps);
    RunRefines(steps);
    Spec.EveryRun(SpecSteps(steps));
    EveryRun(steps);
    NothingToWrite(s, g);
    AbstractAt(s, g);
    hide Run, Spec.Run, SpecSteps, Spec.EncodeAll, Inv, PartsOf, SpecPc;
    assert s.flushed + s.buffered + Concat([]) == s.flushed + s.buffered;
  }

  lemma NothingToWrite(s: State, g: nat)
    requires Inv(s) && At(s, g).Writing? && At(s, g).next == |PartsOf(s, g)|
    ensures SpecPc(At(s, g)) == Spec.Writing(At(s, g).call, [])
  {
    HeldMessage(s, g);
    hide Inv, Parts, View, Apart, WireOf;
  }

  // ---- nobody is stuck -------------------------------------------------------------------------

  function Busy(s: State): set<nat> {
    set g | g in s.pc && !At(s, g).Idle?
  }

  /** The calls of these goroutines. */
  function CallsOf(s: State, gs: seq<nat>): (calls: seq<Call>)
    requires forall g :: g in gs ==> !At(s, g).Idle?
    ensures |calls| == |gs|
  {
    if gs == [] then [] else [At(s, gs[0]).call] + CallsOf(s, gs[1..])
  }

  /** The goroutines in gs are those that wait for their turn, each of them once. */
  ghost predicate Queue(s: State, gs: seq<nat>) {
    && (forall i, j :: 0 <= i < j < |gs| ==> gs[i] != gs[j])
    && (forall g :: g in gs <==> Pending(s, g))
  }

  /**
   In every state of every run all goroutines can return from WriteMessage. What is written on the way
   are the calls that wait for the lock or are still to be converted, and can be, each of them once.
   */
  lemma {:induction false} AllCanReturn(steps: seq<Step>) returns (after: seq<Step>, gs: seq<nat>)
    requires Run(steps).Some?
    ensures steps <= after && Run(after).Some?
    ensures var s, t := Run(steps).value, Run(after).value;
      && Queue(s, gs) && t.order == s.order + CallsOf(s, gs)
      && t.lock.None? && t.flushed == Spec.EncodeAll(t.order) && forall g :: At(t, g).Idle?
    decreases Busy(Run(steps).value)
  {
    hide Run, WireOf, Spec.EncodeAll;
    var s := Run(steps).value;
    LockHolder(steps);
    if Busy(s) == {} {
      after, gs := steps, [];
      NobodyBusy(s);
      OutputIsWholeMessages(steps);
    } else {
      var g: nat := if s.lock.Some? then s.lock.value else var g :| g in Busy(s); g;
      var next := Finish(steps, g);
      var t := Run(next).value;
      BusyLeft(s, t, g);
      var rest;
      after, rest := AllCanReturn(next);
      gs := if Pending(s, g) then [g] + rest else rest;
      QueueGrows(s, t, g, rest);
      CallsGrow(s, t, g, rest, s.order);
    }
  }

  /** g has gone, and everybody else is where they were. */
  ghost predicate Gone(s: State, t: State, g: nat) {
    (forall h :: h != g ==> At(t, h) == At(s, h)) && At(t, g).Idle?
  }

  lemma BusyLeft(s: State, t: State, g: nat)
    requires Gone(s, t, g)
    ensures Busy(t) == Busy(s) - {g}
  {
    assert forall h :: h in Busy(t) <==> h != g && !At(s, h).Idle?;
  }

  lemma PendingRest(s: State, t: State, g: nat)
    requires Gone(s, t, g)
    ensures forall h :: Pending(s, h) <==> (h == g && Pending(s, g)) || Pending(t, h)
    ensures !Pending(t, g)
  {
    hide WireOf;
  }

  lemma QueueGrows(s: State, t: State, g: nat, rest: seq<nat>)
    requires Gone(s, t, g) && Queue(t, rest)
    ensures Queue(s, if Pending(s, g) then [g] + rest else rest)
  {
    hide WireOf;
    PendingRest(s, t, g);
    hide Pending, Gone;
    assert forall h :: h in [g] + rest <==> h == g || h in rest;
    assert g !in rest;
  }

  lemma CallsGrow(s: State, t: State, g: nat, rest: seq<nat>, order: seq<Call>)
    requires Gone(s, t, g) && forall h :: h in rest ==> h != g && Pending(t, h)
    ensures forall h :: h in rest ==> !At(s, h).Idle?
    ensures Pending(s, g) ==> order + [At(s, g).call] + CallsOf(t, rest) == order + CallsOf(s, [g] + rest)
    ensures !Pending(s, g) ==> order + [] + CallsOf(t, rest) == order + CallsOf(s, rest)
  {
    hide WireOf, CallsOf;
    SameCalls(s, t, rest);
    if Pending(s, g) {
      OneMoreCall(s, g, rest);
      assert order + [At(s, g).call] + CallsOf(s, rest) == order + ([At(s, g).call] + CallsOf(s, rest));
    }
  }

  lemma OneMoreCall(s: State, g: nat, rest: seq<nat>)
    requires forall h :: h == g || h in rest ==> !At(s, h).Idle?
    ensures CallsOf(s, [g] + rest) == [At(s, g).call] + CallsOf(s, rest)
  {
    assert ([g] + rest)[1..] == rest;
  }

  lemma {:induction false} SameCalls(s: State, t: State, gs: seq<nat>)
    requires forall g :: g in gs ==> !At(s, g).Idle? && At(t, g) == At(s, g)
    ensures CallsOf(t, gs) == CallsOf(s, gs)
  {
    if gs == [] {
    } else {
      SameCalls(s, t, gs[1..]);
    }
  }

  lemma NobodyBusy(s: State)
    requires Busy(s) == {}
    ensures forall g :: At(s, g).Idle?
  {
    forall g: nat ensures At(s, g).Idle? {
      assert g !in Busy(s);
    }
  }

  /** Calls that have been under way for longer have got the lock, unless they cannot be converted. */
  ghost predicate Recorded(s: State) {
    forall g :: At(s, g).Writing? || At(s, g).Flushed? || (At(s, g).Done? && WireOf(At(s, g).call).Ok?) ==>
      At(s, g).call in s.order
  }

  lemma {:induction false} LockedIsRecorded(steps: seq<Step>)
    requires Run(steps).Some?
    ensures Recorded(Run(steps).value)
    decreases |steps|
  {
    if steps == [] {
    } else {
      var front, step := steps[..|steps| - 1], steps[|steps| - 1];
      LockedIsRecorded(front);
      hide Run, WriterRuns.Marshal, Kept, Parts, View;
      RecordedStep(Run(front).value, step);
    }
  }

  lemma RecordedStep(s: State, step: Step)
    requires Recorded(s) && Enabled(s, step)
    ensures Recorded(Next(s, step))
  {
    hide WriterRuns.Marshal, Kept, Parts, View;
    var after := Next(s, step);
    forall g | At(after, g).Writing? || At(after, g).Flushed? || (At(after, g).Done? && WireOf(At(after, g).call).Ok?)
      ensures At(after, g).call in after.order
    {
      if At(after, g) == At(s, g) {
      } else {
        assert !step.Spill? && !step.Forget? && step.g == g;
      }
    }
  }

  /**
   In every state of every run all goroutines can return from WriteMessage, and have by then written
   every call under way that can be converted.
   */
  lemma {:induction false} NobodyIsStuck(steps: seq<Step>) returns (after: seq<Step>)
    requires Run(steps).Some?
    ensures steps <= after && Run(after).Some?
    ensures var s, t := Run(steps).value, Run(after).value;
      && (forall g :: !At(s, g).Idle? && WireOf(At(s, g).call).Ok? ==> At(s, g).call in t.order)
      && t.lock.None? && t.flushed == Spec.EncodeAll(t.order) && forall g :: At(t, g).Idle?
  {
    hide Run, WireOf, Spec.EncodeAll;
    LockedIsRecorded(steps);
    var gs;
    after, gs := AllCanReturn(steps);
    var s := Run(steps).value;
    forall g | !At(s, g).Idle? && WireOf(At(s, g).call).Ok? ensures At(s, g).call in Run(after).value.order {
      if Pending(s, g) { CalledAmong(s, gs, g); }
    }
  }

  lemma {:induction false} CalledAmong(s: State, gs: seq<nat>, g: nat)
    requires (forall h :: h in gs ==> !At(s, h).Idle?) && g in gs
    ensures At(s, g).call in CallsOf(s, gs)
  {
    if gs[0] == g {
    } else {
      CalledAmong(s, gs[1..], g);
    }
  }

  /** No writer of a call whose arguments or result cannot be marshaled gets the lock in any run. */
  lemma NothingRefusedIsWritten(steps: seq<Step>)
    requires Run(steps).Some?
    ensures forall c :: c in Run(steps).value.order ==> !Unsendable(c.args) && !Unsendable(c.result)
  {
    hide Run, Spec.Run, SpecSteps, Spec.Exclusive, Spec.Consistent;
    RunRefines(steps);
    Spec.EveryRun(SpecSteps(steps));
    forall c | c in Run(steps).value.order ensures !Unsendable(c.args) && !Unsendable(c.result) {
      RefusedExactly(c);
    }
  }

  /** The garbage collector can empty the pool at any time. */
  lemma {:induction false} PoolCanBeEmptied(steps: seq<Step>) returns (after: seq<Step>)
    requires Run(steps).Some?
    ensures steps <= after && Run(after).Some?
    ensures var s, t := Run(steps).value, Run(after).value;
      && t.pool == {} && t.pc == s.pc && t.order == s.order && t.lock == s.lock
      && t.flushed == s.flushed && t.buffered == s.buffered
    decreases Run(steps).value.pool
  {
    after := steps;
    if Run(steps).value.pool == {} {
    } else {
      var m :| m in Run(steps).value.pool;
      Extend(steps, Forget(m));
      hide Run;
      after := PoolCanBeEmptied(steps + [Forget(m)]);
    }
  }
}
