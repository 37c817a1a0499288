/**
 That the runs of RedisWriterRuns are there: whatever calls there are can be published in any order and
 read by the peer, and nobody is ever stuck. The lemmas with an out-parameter construct a run, step by
 step; there is nothing in them for Dafny to guess an induction over.
 */
module RedisProgress {
  import Bytes
  import opened Mpc
  import opened RedisWriterRuns
  import Spec = RedisRuns
  import Writers = WriterRuns
  import Progress = WriterProgress

  lemma Extend(config: seq<Spec.Config>, steps: seq<Step>, step: Step)
    requires Run(config, steps).Some? && Enabled(Run(config, steps).value, step)
    ensures Run(config, steps + [step]).Some?
    ensures Run(config, steps + [step]).value == Next(config, Run(config, steps).value, step)
  {
    hide Enabled, Next;
    assert (steps + [step])[..|steps|] == steps;
  }

  ghost predicate OthersStay(s: State, t: State, g: nat) {
    forall h :: h != g ==> Writers.At(t.writers, h) == Writers.At(s.writers, h)
  }

  /** Everybody but g is where they were, and only e has given its lock away, to the writers of the calls. */
  ghost predicate Moved(s: State, t: State, g: nat, e: nat, calls: seq<Call>) {
    && OthersStay(s, t, g)
    && |t.redis.ends| == |s.redis.ends|
    && (forall d :: 0 <= d < |s.redis.ends| ==> t.redis.ends[d].since == s.redis.ends[d].since)
    && (forall d :: 0 <= d < |s.redis.ends| ==>
      t.redis.ends[d].order == s.redis.ends[d].order + if d == e then calls else [])
  }

  // ---- outside of the lock ------------------------------------------------------------------------

  lemma {:induction false} OwnStep(config: seq<Spec.Config>, steps: seq<Step>, x: Writers.Step)
    returns (after: seq<Step>)
    requires Run(config, steps).Some? && OutsideLock(x) && Writers.Enabled(Run(config, steps).value.writers, x)
    ensures after == steps + [Own(x)] && Run(config, after).Some?
    ensures var s, t := Run(config, steps).value, Run(config, after).value;
      t.writers == Writers.Next(s.writers, x) && t.redis == s.redis && t.holder == s.holder
  {
    after := steps + [Own(x)];
    Extend(config, steps, Own(x));
    hide Run, Writers.Next, Writers.Enabled;
  }

  lemma {:induction false} Begin(config: seq<Spec.Config>, steps: seq<Step>, g: nat, call: Call)
    returns (after: seq<Step>)
    requires Run(config, steps).Some? && Writers.At(Run(config, steps).value.writers, g).Idle?
    ensures steps <= after && Run(config, after).Some? && forall x :: x in after && x.Lock? ==> x in steps
    ensures var s, t := Run(config, steps).value, Run(config, after).value;
      && OthersStay(s, t, g)
      && Writers.At(t.writers, g).Filling? && Writers.At(t.writers, g).call == call
      && t.redis == s.redis && t.holder == s.holder
  {
    hide Run;
    var m := Progress.Fresh(Run(config, steps).value.writers.msgs.Keys);
    after := OwnStep(config, steps, Writers.Get(g, call, m));
  }

  /** Either ToWire is one step nearer to its end or g is where Convert takes it. */
  lemma {:induction false} ConvertOne(config: seq<Spec.Config>, steps: seq<Step>, g: nat) returns (after: seq<Step>)
    requires Run(config, steps).Some? && Writers.At(Run(config, steps).value.writers, g).Filling?
    ensures steps <= after && Run(config, after).Some? && forall x :: x in after && x.Lock? ==> x in steps
    ensures var s, t := Run(config, steps).value, Run(config, after).value;
      var before, now := Writers.At(s.writers, g), Writers.At(t.writers, g);
      && OthersStay(s, t, g) && t.redis == s.redis && t.holder == s.holder
      && (if now.Filling? then Progress.StagesLeft(now.stage) < Progress.StagesLeft(before.stage)
        else if WireOf(before.call).Ok? then now.Ready? else now.Done?)
      && !now.Idle? && now.call == before.call
  {
    hide Run, WireOf, Writers.Inv, Writers.Next, Writers.Enabled;
    RunRefines(config, steps);
    var step := Progress.FillOne(Run(config, steps).value.writers, g);
    after := OwnStep(config, steps, step);
  }

  lemma {:induction false} Convert(config: seq<Spec.Config>, steps: seq<Step>, g: nat) returns (after: seq<Step>)
    requires Run(config, steps).Some? && Writers.At(Run(config, steps).value.writers, g).Filling?
    ensures steps <= after && Run(config, after).Some? && forall x :: x in after && x.Lock? ==> x in steps
    ensures var s, t := Run(config, steps).value, Run(config, after).value;
      var before, now := Writers.At(s.writers, g), Writers.At(t.writers, g);
      && OthersStay(s, t, g) && t.redis == s.redis && t.holder == s.holder
      && (if WireOf(before.call).Ok? then now.Ready? else now.Done?) && now.call == before.call
    decreases Progress.StagesLeft(Writers.At(Run(config, steps).value.writers, g).stage)
  {
    hide Run, WireOf;
    after := ConvertOne(config, steps, g);
    if Writers.At(Run(config, after).value.writers, g).Filling? {
      after := Convert(config, after, g);
    }
  }

  lemma {:induction false} PutBack(config: seq<Spec.Config>, steps: seq<Step>, g: nat) returns (after: seq<Step>)
    requires Run(config, steps).Some? && Writers.At(Run(config, steps).value.writers, g).Done?
    ensures steps <= after && Run(config, after).Some?
    ensures var s, t := Run(config, steps).value, Run(config, after).value;
      && OthersStay(s, t, g) && Writers.At(t.writers, g).Idle?
      && t.redis == s.redis && t.holder == s.holder
  {
    hide Run, Writers.Kept;
    after := OwnStep(config, steps, Writers.Put(g));
  }

  // ---- inside -------------------------------------------------------------------------------------

  lemma HolderIsInside(config: seq<Spec.Config>, steps: seq<Step>, e: nat)
    requires Run(config, steps).Some? && e in Run(config, steps).value.holder
    ensures var s := Run(config, steps).value; var pc := Inside(s, e);
      && e < |config| && (pc.Flushed? || (pc.Writing? && pc.next <= 1 && s.redis.ends[e].writer.Locked?))
  {
    hide Run, Spec.Run, SpecSteps, Writers.Inv;
    RunRefines(config, steps);
    HoldersInside(Run(config, steps).value);
  }

  lemma {:induction false} MarshalNow(config: seq<Spec.Config>, steps: seq<Step>, e: nat) returns (after: seq<Step>)
    requires Run(config, steps).Some? && e in Run(config, steps).value.holder && e < |config|
    requires Inside(Run(config, steps).value, e).Writing? && Inside(Run(config, steps).value, e).next == 0
    ensures steps <= after && Run(config, after).Some?
    ensures var s, t := Run(config, steps).value, Run(config, after).value;
      && Moved(s, t, s.holder[e], e, []) && t.holder == s.holder && t.redis == s.redis
      && Inside(t, e) == Inside(s, e).(next := 1)
  {
    after := steps + [Marshal(e)];
    Extend(config, steps, Marshal(e));
    hide Run, MarshaledNow;
  }

  lemma {:induction false} PublishNow(config: seq<Spec.Config>, steps: seq<Step>, e: nat) returns (after: seq<Step>)
    requires Run(config, steps).Some? && e in Run(config, steps).value.holder && e < |config|
    requires Inside(Run(config, steps).value, e).Writing? && Inside(Run(config, steps).value, e).next == 1
    requires Run(config, steps).value.redis.ends[e].writer.Locked?
    ensures steps <= after && Run(config, after).Some?
    ensures var s, t := Run(config, steps).value, Run(config, after).value;
      && Moved(s, t, s.holder[e], e, []) && t.holder == s.holder
      && Inside(t, e) == Writers.Flushed(Inside(s, e).call, Inside(s, e).m)
  {
    after := steps + [Publish(e)];
    Extend(config, steps, Publish(e));
    hide Run;
  }

  lemma {:induction false} UnlockNow(config: seq<Spec.Config>, steps: seq<Step>, e: nat) returns (after: seq<Step>)
    requires Run(config, steps).Some? && e in Run(config, steps).value.holder && e < |config|
    requires Inside(Run(config, steps).value, e).Flushed?
    ensures steps <= after && Run(config, after).Some?
    ensures var s, t := Run(config, steps).value, Run(config, after).value; var g := s.holder[e];
      && Moved(s, t, g, e, []) && t.holder == s.holder - {e} && Writers.At(t.writers, g).Done?
  {
    after := steps + [Unlock(e)];
    Extend(config, steps, Unlock(e));
    hide Run;
  }

  /** The holder of a lock can return it. */
  lemma {:induction false} Release(config: seq<Spec.Config>, steps: seq<Step>, e: nat) returns (after: seq<Step>)
    requires Run(config, steps).Some? && e in Run(config, steps).value.holder
    ensures steps <= after && Run(config, after).Some?
    ensures var s, t := Run(config, steps).value, Run(config, after).value; var g := s.holder[e];
      && Moved(s, t, g, e, []) && t.holder == s.holder - {e} && Writers.At(t.writers, g).Done?
  {
    hide Run;
    HolderIsInside(config, steps, e);
    after := steps;
    var pc := Inside(Run(config, steps).value, e);
    if pc.Writing? {
      if pc.next == 0 {
        after := MarshalNow(config, after, e);
      }
      after := PublishNow(config, after, e);
    }
    after := UnlockNow(config, after, e);
  }

  lemma {:induction false} TakeLock(config: seq<Spec.Config>, steps: seq<Step>, e: nat, g: nat)
    returns (after: seq<Step>)
    requires Run(config, steps).Some? && e < |config| && e !in Run(config, steps).value.holder
    requires Writers.At(Run(config, steps).value.writers, g).Ready?
    ensures steps <= after && Run(config, after).Some?
    ensures var s, t := Run(config, steps).value, Run(config, after).value;
      Moved(s, t, g, e, [Writers.At(s.writers, g).call]) && t.holder == s.holder[e := g]
  {
    after := steps + [Lock(e, g)];
    Extend(config, steps, Lock(e, g));
    hide Run;
  }

  // ---- returning ------------------------------------------------------------------------------------

  /** g has returned from WriteMessage, and its call has been published by e if it was pending. */
  ghost predicate Returned(s: State, t: State, g: nat, e: nat) {
    && Moved(s, t, g, e, if Progress.Pending(s.writers, g) then [Writers.At(s.writers, g).call] else [])
    && Progress.Gone(s.writers, t.writers, g)
  }

  lemma {:induction false} FinishHolder(config: seq<Spec.Config>, steps: seq<Step>, d: nat, e: nat)
    returns (after: seq<Step>)
    requires Run(config, steps).Some? && d in Run(config, steps).value.holder
    ensures steps <= after && Run(config, after).Some?
    ensures var s, t := Run(config, steps).value, Run(config, after).value;
      Returned(s, t, s.holder[d], e) && t.holder == s.holder - {d}
  {
    hide Run, WireOf;
    HolderIsInside(config, steps, d);
    var released := Release(config, steps, d);
    after := PutBack(config, released, Run(config, steps).value.holder[d]);
  }

  lemma {:induction false} LockAndRelease(config: seq<Spec.Config>, steps: seq<Step>, e: nat, g: nat)
    returns (after: seq<Step>)
    requires Run(config, steps).Some? && e < |config| && e !in Run(config, steps).value.holder
    requires Writers.At(Run(config, steps).value.writers, g).Ready?
    ensures steps <= after && Run(config, after).Some?
    ensures var s, t := Run(config, steps).value, Run(config, after).value;
      Moved(s, t, g, e, [Writers.At(s.writers, g).call]) && t.holder == s.holder && Writers.At(t.writers, g).Done?
  {
    hide Run;
    var locked := TakeLock(config, steps, e, g);
    after := Release(config, locked, e);
  }

  lemma {:induction false} FinishReady(config: seq<Spec.Config>, steps: seq<Step>, g: nat, e: nat)
    returns (after: seq<Step>)
    requires Run(config, steps).Some? && e < |config| && e !in Run(config, steps).value.holder
    requires Writers.At(Run(config, steps).value.writers, g).Ready?
    ensures steps <= after && Run(config, after).Some?
    ensures var s, t := Run(config, steps).value, Run(config, after).value;
      Returned(s, t, g, e) && t.holder == s.holder
  {
    RunRefines(config, steps);
    Progress.ReadyCanBeWritten(Run(config, steps).value.writers, g);
    hide Run, WireOf, Inv;
    after := LockAndRelease(config, steps, e, g);
    after := PutBack(config, after, g);
  }

  lemma {:induction false} FinishOther(config: seq<Spec.Config>, steps: seq<Step>, g: nat, e: nat)
    returns (after: seq<Step>)
    requires Run(config, steps).Some? && e < |config| && e !in Run(config, steps).value.holder
    requires var pc := Writers.At(Run(config, steps).value.writers, g); pc.Filling? || pc.Ready? || pc.Done?
    ensures steps <= after && Run(config, after).Some?
    ensures var s, t := Run(config, steps).value, Run(config, after).value;
      Returned(s, t, g, e) && t.holder == s.holder
  {
    hide Run, WireOf;
    after := steps;
    if Writers.At(Run(config, steps).value.writers, g).Filling? { after := Convert(config, after, g); }
    if Writers.At(Run(config, after).value.writers, g).Ready? {
      after := FinishReady(config, after, g, e);
    } else {
      after := PutBack(config, after, g);
    }
  }

  // ---- nobody is stuck ------------------------------------------------------------------------------

  /** Whoever is between Lock and Unlock holds a lock. */
  ghost predicate OnlyHolders(s: State) {
    forall g :: Writers.At(s.writers, g).Writing? || Writers.At(s.writers, g).Flushed? ==>
      exists e :: e in s.holder && s.holder[e] == g
  }

  lemma {:induction false} OnlyHoldersInside(config: seq<Spec.Config>, steps: seq<Step>)
    requires Run(config, steps).Some?
    ensures OnlyHolders(Run(config, steps).value)
    decreases |steps|
  {
    if steps == [] {
    } else {
      var front := steps[..|steps| - 1];
      OnlyHoldersInside(config, front);
      RunRefines(config, front);
      hide Run;
      InsideStep(config, Run(config, front).value, steps[|steps| - 1]);
    }
  }

  lemma NobodyEnters(w: Writers.State, x: Writers.Step, g: nat)
    requires OutsideLock(x) && Writers.Enabled(w, x)
    requires var t := Writers.Next(w, x); Writers.At(t, g).Writing? || Writers.At(t, g).Flushed?
    ensures Writers.At(w, g) == Writers.At(Writers.Next(w, x), g)
  {
    hide Writers.Marshal, Writers.Kept;
  }

  lemma InsideStep(config: seq<Spec.Config>, s: State, step: Step)
    requires Inv(s) && OnlyHolders(s) && Enabled(s, step) && |s.redis.ends| == |config|
    ensures OnlyHolders(Next(config, s, step))
  {
    hide Writers.Inv, Writers.Next, Writers.Enabled, MarshaledNow, Spec.Publishing, Spec.Next, Spec.Enabled;
    HoldersInside(s);
    var t := Next(config, s, step);
    forall g | Writers.At(t.writers, g).Writing? || Writers.At(t.writers, g).Flushed?
      ensures exists e :: e in t.holder && t.holder[e] == g
    {
      if step.Lock? && step.g == g {
        assert t.holder[step.e] == g;
      } else {
        if step.Own? { NobodyEnters(s.writers, step.step, g); }
        assert Writers.At(s.writers, g).Writing? || Writers.At(s.writers, g).Flushed?;
        var e :| e in s.holder && s.holder[e] == g;
        assert e in t.holder && t.holder[e] == g;
      }
    }
  }

  /**
   In every state of every run all goroutines can return from WriteMessage. What e publishes on the way
   are the calls that wait for a lock or are still to be converted, and can be, each of them once; the
   other codecs publish what they have begun.
   */
  lemma {:induction false} AllCanReturn(config: seq<Spec.Config>, steps: seq<Step>, e: nat)
    returns (after: seq<Step>, gs: seq<nat>)
    requires Run(config, steps).Some? && e < |config|
    ensures steps <= after && Run(config, after).Some?
    ensures var s, t := Run(config, steps).value, Run(config, after).value;
      && Progress.Queue(s.writers, gs)
      && t.redis.ends[e].order == s.redis.ends[e].order + Progress.CallsOf(s.writers, gs)
      && (forall d :: 0 <= d < |config| && d != e ==> t.redis.ends[d].order == s.redis.ends[d].order)
      && t.holder == map[] && forall g :: Writers.At(t.writers, g).Idle?
    decreases Progress.Busy(Run(config, steps).value.writers)
  {
    hide Run, WireOf;
    var s := Run(config, steps).value;
    OnlyHoldersInside(config, steps);
    if Progress.Busy(s.writers) == {} {
      after, gs := steps, [];
      Progress.NobodyBusy(s.writers);
      NoHolder(config, steps);
    } else {
      var g, next := FinishSome(config, steps, e);
      var t := Run(config, next).value;
      Progress.BusyLeft(s.writers, t.writers, g);
      var rest;
      after, rest := AllCanReturn(config, next, e);
      gs := if Progress.Pending(s.writers, g) then [g] + rest else rest;
      Progress.QueueGrows(s.writers, t.writers, g, rest);
      Progress.CallsGrow(s.writers, t.writers, g, rest, s.redis.ends[e].order);
    }
  }

  lemma NoHolder(config: seq<Spec.Config>, steps: seq<Step>)
    requires Run(config, steps).Some? && forall g :: Writers.At(Run(config, steps).value.writers, g).Idle?
    ensures Run(config, steps).value.holder == map[]
  {
    hide Run;
    var s := Run(config, steps).value;
    forall e | e in s.holder ensures false {
      var pc := Writers.At(s.writers, s.holder[e]);
      HolderIsInside(config, steps, e);
    }
  }

  lemma {:induction false} FinishSome(config: seq<Spec.Config>, steps: seq<Step>, e: nat)
    returns (g: nat, after: seq<Step>)
    requires Run(config, steps).Some? && e < |config|
    requires Progress.Busy(Run(config, steps).value.writers) != {}
    ensures steps <= after && Run(config, after).Some?
    ensures g in Progress.Busy(Run(config, steps).value.writers)
    ensures Returned(Run(config, steps).value, Run(config, after).value, g, e)
  {
    hide Run, WireOf;
    var s := Run(config, steps).value;
    OnlyHoldersInside(config, steps);
    if s.holder == map[] {
      g :| g in Progress.Busy(s.writers);
      after := FinishOther(config, steps, g, e);
    } else {
      var d :| d in s.holder;
      g := s.holder[d];
      HolderIsInside(config, steps, d);
      after := FinishHolder(config, steps, d, e);
    }
  }

  // ---- everything is read ---------------------------------------------------------------------------

  lemma {:induction false} SubscribeNow(config: seq<Spec.Config>, steps: seq<Step>, e: nat) returns (after: seq<Step>)
    requires Run(config, steps).Some? && e < |config|
    ensures steps <= after && Run(config, after).Some?
    ensures var s, t := Run(config, steps).value, Run(config, after).value; var since := s.redis.ends[e].since;
      && t.writers == s.writers && t.holder == s.holder && t.redis.log == s.redis.log
      && t.redis.ends[e].since == (if since.Some? then since else Bytes.Some(|s.redis.log|))
      && (forall d :: 0 <= d < |config| && d != e ==> t.redis.ends[d] == s.redis.ends[d])
  {
    after := steps;
    if Run(config, steps).value.redis.ends[e].since.None? {
      after := steps + [Subscribe(e)];
      Extend(config, steps, Subscribe(e));
      hide Run;
    }
  }

  lemma {:induction false} PopAll(config: seq<Spec.Config>, steps: seq<Step>, e: nat) returns (after: seq<Step>)
    requires Run(config, steps).Some? && e < |config| && Run(config, steps).value.redis.ends[e].since.Some?
    ensures steps <= after && Run(config, after).Some?
    ensures var s, t := Run(config, steps).value, Run(config, after).value;
      && t.writers == s.writers && t.holder == s.holder && t.redis.log == s.redis.log
      && t.redis.ends[e].queue == [] && t.redis.ends[e].since == s.redis.ends[e].since
      && (forall d :: 0 <= d < |config| && d != e ==> t.redis.ends[d] == s.redis.ends[d])
    decreases |Run(config, steps).value.redis.ends[e].queue|
  {
    after := steps;
    if Run(config, steps).value.redis.ends[e].queue == [] {
    } else {
      after := steps + [Pop(e)];
      Extend(config, steps, Pop(e));
      hide Run, Spec.Messages;
      after := PopAll(config, after, e);
    }
  }

  /**
   In every state of every run an endpoint can subscribe, if it has not, and read all that there is for it:
   what has been published on its channel since the subscription took effect.
   */
  lemma {:induction false} ReadAll(config: seq<Spec.Config>, steps: seq<Step>, e: nat) returns (after: seq<Step>)
    requires Run(config, steps).Some? && e < |config|
    ensures steps <= after && Run(config, after).Some?
    ensures var s, t := Run(config, steps).value, Run(config, after).value;
      var since, end := s.redis.ends[e].since, t.redis.ends[e];
      && t.writers == s.writers && t.holder == s.holder && t.redis.log == s.redis.log && end.queue == []
      && end.since == (if since.Some? then since else Bytes.Some(|s.redis.log|))
      && (forall d :: 0 <= d < |config| && d != e ==> t.redis.ends[d] == s.redis.ends[d])
      && end.since.value <= |s.redis.log|
      && end.popped == Spec.On(s.redis.log[end.since.value..], config[e].subscribe)
  {
    hide Run, Spec.Run, SpecSteps, Spec.On;
    after := SubscribeNow(config, steps, e);
    after := PopAll(config, after, e);
    RunRefines(config, after);
    Spec.EveryRun(config, SpecSteps(config, after));
    var end := Run(config, after).value.redis.ends[e];
    assert Spec.Received(config[e], Run(config, after).value.redis.log, end);
    assert end.popped + [] == end.popped;
  }

  /** e has subscribed, and the writers of the calls are ready, from the given one on. */
  ghost predicate AllReady(s: State, calls: seq<Call>, from: nat, e: nat) {
    && s.holder == map[] && e < |s.redis.ends| && s.redis.ends[e].since == Bytes.Some(0)
    && (forall i: nat :: from <= i < |calls| ==>
      Writers.At(s.writers, i).Ready? && Writers.At(s.writers, i).call == calls[i])
    && (forall i: nat :: !(from <= i < |calls|) ==> Writers.At(s.writers, i).Idle?)
  }

  lemma {:induction false} GetReady(config: seq<Spec.Config>, calls: seq<Call>, e: nat) returns (steps: seq<Step>)
    requires (forall c :: c in calls ==> WireOf(c).Ok?) && e < |config|
    ensures Run(config, steps).Some? && AllReady(Run(config, steps).value, calls, 0, e)
    ensures forall d :: 0 <= d < |config| ==> Run(config, steps).value.redis.ends[d].order == []
    ensures forall x :: x in steps ==> !x.Lock?
    decreases |calls|
  {
    if calls == [] {
      steps := [] + [Subscribe(e)];
      Extend(config, [], Subscribe(e));
    } else {
      hide Run, WireOf;
      var g := |calls| - 1;
      steps := GetReady(config, calls[..g], e);
      steps := Begin(config, steps, g, calls[g]);
      steps := Convert(config, steps, g);
    }
  }

  lemma {:induction false} PublishFirst(
      config: seq<Spec.Config>, ready: seq<Step>, calls: seq<Call>, k: nat, e: nat, d: nat)
    returns (steps: seq<Step>)
    requires (forall c :: c in calls ==> WireOf(c).Ok?) && k <= |calls| && d < |config|
    requires Run(config, ready).Some? && AllReady(Run(config, ready).value, calls, 0, e)
    requires Run(config, ready).value.redis.ends[d].order == []
    ensures ready <= steps && Run(config, steps).Some? && AllReady(Run(config, steps).value, calls, k, e)
    ensures Run(config, steps).value.redis.ends[d].order == calls[..k]
    decreases k
  {
    hide Run, WireOf;
    if k == 0 {
      steps := ready;
    } else {
      var before := PublishFirst(config, ready, calls, k - 1, e, d);
      steps := FinishReady(config, before, k - 1, d);
      assert calls[..k] == calls[..k - 1] + [calls[k - 1]];
    }
  }

  lemma NothingUnderWay(config: seq<Spec.Config>, steps: seq<Step>, e: nat)
    requires Run(config, steps).Some? && Run(config, steps).value.holder == map[] && e < |config|
    ensures Run(config, steps).value.redis.ends[e].writer.Free?
    ensures Spec.Messages([]) == [] && Spec.CallsBy([], e) == []
  {
    RunRefines(config, steps);
  }

  /**
   Whatever calls there are that can be converted: their writers can all be waiting for the lock of one
   of two endpoints on mirrored channels, be served in any order, and then the other one, if it has
   subscribed in time, can read exactly these calls in this order.
   */
  lemma {:induction false} AllCanBeRead(config: seq<Spec.Config>, calls: seq<Call>, e: nat)
    returns (ready: seq<Step>, steps: seq<Step>)
    requires Spec.Mirrored(config) && e < 2 && forall c :: c in calls ==> WireOf(c).Ok?
    ensures Run(config, ready).Some? && (forall x :: x in ready ==> !x.Lock?)
    ensures var w := Run(config, ready).value.writers;
      forall i: nat :: i < |calls| ==> Writers.At(w, i).Ready? && Writers.At(w, i).call == calls[i]
    ensures ready <= steps && Run(config, steps).Some?
    ensures var s := Run(config, steps).value;
      && s.redis.ends[1 - e].order == calls && Spec.Calls(s.redis.ends[e].popped) == calls
      && s.holder == map[] && forall g :: Writers.At(s.writers, g).Idle?
  {
    hide Run, WireOf, Spec.Calls, Spec.Messages, Spec.CallsBy;
    ready := GetReady(config, calls, e);
    var written := PublishFirst(config, ready, calls, |calls|, e, 1 - e);
    steps := ReadAll(config, written, e);
    assert calls[..|calls|] == calls;
    NothingUnderWay(config, steps, 1 - e);
    MirroredPair(config, steps, e);
    assert Run(config, steps).value.redis.log[..0] == [];
  }
}
