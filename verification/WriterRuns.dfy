/**
 WriteMessage of generic.go with the wire messages it works on: any number of goroutines, each
 of them anywhere in WriteMessage, taking their steps in any order, on messages from one pool
 whose payload buffers lie in one heap. A message is filled in by several steps and read again
 when its parts are written, so what goes out is what it says by then.
 */
module WriterRuns {
  import opened Bytes
  import opened Wire
  import opened Mpc
  import Spec = GenericRuns

  /** A payload buffer: nil, or the first len bytes of an array of the heap. */
  datatype Buffer = NoBuffer | Buffer(loc: nat, len: nat)

  datatype WireMessage = WireMessage(
    id: uint64, fn: seq<byte>, args: Buffer, result: Buffer, error: Option<seq<byte>>)

  /** What ToWire is to do next. */
  datatype Stage = Header | Args | Result | Error

  /** Where a goroutine is; from GetMessage to PutMessage it holds the message m. */
  datatype Pc =
    | Idle
    | Filling(call: Call, m: nat, stage: Stage)
    | Ready(call: Call, m: nat)
    | Writing(call: Call, m: nat, next: nat)
    | Flushed(call: Call, m: nat)
    | Done(call: Call, m: nat)

  type Heap = map<nat, seq<byte>>

  /** msgs are all wire messages there are, pool those in the pool. */
  datatype State = State(
    pc: map<nat, Pc>, msgs: map<nat, WireMessage>, pool: set<nat>, heap: Heap,
    lock: Option<nat>, buffered: seq<byte>, flushed: seq<byte>, order: seq<Call>)

  datatype Step =
    | Get(g: nat, call: Call, m: nat)
    | FillHeader(g: nat)
    | FillArgs(g: nat, loc: nat)
    | FillResult(g: nat, loc: nat)
    | FillError(g: nat)
    | Lock(g: nat)
    | WritePart(g: nat)
    | Spill(n: nat)
    | Flush(g: nat)
    | Unlock(g: nat)
    | Put(g: nat)
    | Forget(m: nat)

  const ZERO := WireMessage(0, [], NoBuffer, NoBuffer, None)

  function Contents(heap: Heap, b: Buffer): seq<byte> {
    if b.NoBuffer? || b.loc !in heap || |heap[b.loc]| < b.len then [] else heap[b.loc][..b.len]
  }

  function Cap(heap: Heap, b: Buffer): nat {
    if b.NoBuffer? || b.loc !in heap then 0 else |heap[b.loc]|
  }

  /** What a message says. */
  function View(heap: Heap, w: WireMessage): Fields {
    Fields(w.id, w.fn, Contents(heap, w.args), Contents(heap, w.result), w.error)
  }

  function Emptied(b: Buffer): Buffer {
    if b.NoBuffer? then NoBuffer else b.(len := 0)
  }

  function Kept(heap: Heap, b: Buffer): Buffer {
    if MAX_KEPT_BUFFER < Cap(heap, b) then NoBuffer else Emptied(b)
  }

  /** marshal: the value's bytes replace what the buffer holds, in place or in a new array. */
  function Marshal(heap: Heap, b: Buffer, v: Argument, loc: nat): (Heap, Buffer) {
    if !v.Marshals? then (heap, Emptied(b))
    else if v.inPlace && |v.bytes| <= Cap(heap, b) then
      if b.NoBuffer? || b.loc !in heap then (heap, Emptied(b))
      else (heap[b.loc := v.bytes + heap[b.loc][|v.bytes|..]], Buffer(b.loc, |v.bytes|))
    else (heap[loc := v.bytes + seq(v.spare, _ => 0)], Buffer(loc, |v.bytes|))
  }

  function At(s: State, g: nat): Pc {
    if g in s.pc then s.pc[g] else Idle
  }

  function Message(s: State, m: nat): WireMessage {
    if m in s.msgs then s.msgs[m] else ZERO
  }

  /** The writes of EncodeMsg on the message that g holds, as it is now. */
  function PartsOf(s: State, g: nat): seq<seq<byte>>
    requires !At(s, g).Idle?
  {
    Parts(View(s.heap, Message(s, At(s, g).m)))
  }

  predicate Enabled(s: State, step: Step) {
    match step
    case Get(g, _, m) => At(s, g).Idle? && (m in s.pool || m !in s.msgs)
    case FillHeader(g) => At(s, g).Filling? && At(s, g).stage.Header?
    case FillArgs(g, loc) => At(s, g).Filling? && At(s, g).stage.Args? && loc !in s.heap
    case FillResult(g, loc) => At(s, g).Filling? && At(s, g).stage.Result? && loc !in s.heap
    case FillError(g) => At(s, g).Filling? && At(s, g).stage.Error?
    case Lock(g) => At(s, g).Ready? && s.lock == None
    case WritePart(g) => At(s, g).Writing? && At(s, g).next < |PartsOf(s, g)|
    case Spill(n) => n <= |s.buffered|
    case Flush(g) => At(s, g).Writing? && At(s, g).next == |PartsOf(s, g)|
    case Unlock(g) => At(s, g).Flushed?
    case Put(g) => At(s, g).Done?
    case Forget(m) => m in s.pool
  }

  /** g goes on to pc, after it has changed its message and the heap. */
  function Update(s: State, g: nat, pc: Pc, heap: Heap, m: nat, w: WireMessage): State {
    s.(pc := s.pc[g := pc], heap := heap, msgs := s.msgs[m := w])
  }

  function Next(s: State, step: Step): State
    requires Enabled(s, step)
  {
    match step
    case Get(g, call, m) =>
      var pc := s.pc[g := Filling(call, m, Header)];
      if m in s.pool then s.(pc := pc, pool := s.pool - {m}) else s.(pc := pc, msgs := s.msgs[m := ZERO])
    case FillHeader(g) =>
      var pc := At(s, g);
      Update(s, g, pc.(stage := Args), s.heap, pc.m,
        Message(s, pc.m).(id := pc.call.id, fn := pc.call.fn, error := None))
    case FillArgs(g, loc) =>
      var pc, w := At(s, g), Message(s, At(s, g).m);
      var (heap, b) := Marshal(s.heap, w.args, pc.call.args, loc);
      Update(s, g, if Marshaled(pc.call.args).Some? then pc.(stage := Result) else Done(pc.call, pc.m),
        heap, pc.m, w.(args := b))
    case FillResult(g, loc) =>
      var pc, w := At(s, g), Message(s, At(s, g).m);
      var (heap, b) := Marshal(s.heap, w.result, pc.call.result, loc);
      Update(s, g, if Marshaled(pc.call.result).Some? then pc.(stage := Error) else Done(pc.call, pc.m),
        heap, pc.m, w.(result := b))
    case FillError(g) =>
      var pc := At(s, g);
      Update(s, g, Ready(pc.call, pc.m), s.heap, pc.m, Message(s, pc.m).(error := pc.call.error))
    case Lock(g) =>
      var pc := At(s, g);
      s.(pc := s.pc[g := Writing(pc.call, pc.m, 0)], lock := Some(g), order := s.order + [pc.call])
    case WritePart(g) =>
      var pc := At(s, g);
      s.(pc := s.pc[g := pc.(next := pc.next + 1)], buffered := s.buffered + PartsOf(s, g)[pc.next])
    case Spill(n) => s.(flushed := s.flushed + s.buffered[..n], buffered := s.buffered[n..])
    case Flush(g) =>
      var pc := At(s, g);
      s.(pc := s.pc[g := Flushed(pc.call, pc.m)], flushed := s.flushed + s.buffered, buffered := [])
    case Unlock(g) => s.(pc := s.pc[g := Done(At(s, g).call, At(s, g).m)], lock := None)
    case Put(g) =>
      var m, w := At(s, g).m, Message(s, At(s, g).m);
      Update(s, g, Idle, s.heap, m,
        w.(args := Kept(s.heap, w.args), result := Kept(s.heap, w.result), error := None)).(pool := s.pool + {m})
    case Forget(m) => s.(pool := s.pool - {m}, msgs := s.msgs - {m})
  }

  function Run(steps: seq<Step>): Option<State> {
    if steps == [] then Some(State(map[], map[], {}, map[], None, [], [], []))
    else
      var before := Run(steps[..|steps| - 1]);
      var step := steps[|steps| - 1];
      if before.Some? && Enabled(before.value, step) then Some(Next(before.value, step)) else None
  }

  // ---- who owns what ------------------------------------------------------------------------

  predicate Holds(s: State, g: nat, m: nat) {
    !At(s, g).Idle? && At(s, g).m == m
  }

  /** Each message is in the pool or held by exactly one goroutine. */
  ghost predicate Owned(s: State) {
    && s.pool <= s.msgs.Keys
    && (forall g :: !At(s, g).Idle? ==> At(s, g).m in s.msgs && At(s, g).m !in s.pool)
    && (forall g, h :: !At(s, g).Idle? && !At(s, h).Idle? && At(s, g).m == At(s, h).m ==> g == h)
    && (forall m :: m in s.msgs && m !in s.pool ==> exists g :: Holds(s, g, m))
  }

  function Arrays(w: WireMessage): set<nat> {
    (if w.args.Buffer? then {w.args.loc} else {}) + if w.result.Buffer? then {w.result.loc} else {}
  }

  predicate Placed(heap: Heap, b: Buffer) {
    b.Buffer? ==> b.loc in heap && b.len <= |heap[b.loc]|
  }

  predicate Apart(heap: Heap, w: WireMessage) {
    && Placed(heap, w.args) && Placed(heap, w.result)
    && (w.args.Buffer? && w.result.Buffer? ==> w.args.loc != w.result.loc)
  }

  /** All payload buffers, the two of one message included, lie in different arrays. */
  predicate Separate(heap: Heap, msgs: map<nat, WireMessage>) {
    && (forall m :: m in msgs ==> Apart(heap, msgs[m]))
    && (forall m, n :: m in msgs && n in msgs && m != n ==> Arrays(msgs[m]) !! Arrays(msgs[n]))
  }

  /** What PutMessage leaves behind. */
  predicate Clean(heap: Heap, w: WireMessage) {
    && w.error == None
    && (w.args.Buffer? ==> w.args.len == 0 && Cap(heap, w.args) <= MAX_KEPT_BUFFER)
    && (w.result.Buffer? ==> w.result.len == 0 && Cap(heap, w.result) <= MAX_KEPT_BUFFER)
  }

  predicate CleanPool(s: State) {
    forall m :: m in s.pool ==> Clean(s.heap, Message(s, m))
  }

  /** The message says as much of the call as it is to say where its holder is. */
  predicate Filled(f: Fields, pc: Pc) {
    match pc
    case Idle => true
    case Done(_, _) => true
    case Filling(call, _, stage) =>
      && (!stage.Header? ==> f.id == call.id && f.fn == call.fn && f.error == None)
      && (stage.Result? || stage.Error? ==> Marshaled(call.args) == Some(f.args))
      && (stage.Error? ==> Marshaled(call.result) == Some(f.result))
    case Writing(call, _, next) => WireOf(call) == Ok(f) && next <= |Parts(f)|
    case _ => WireOf(pc.call) == Ok(f)
  }

  ghost predicate AllFilled(s: State) {
    forall g :: !At(s, g).Idle? ==> Filled(View(s.heap, Message(s, At(s, g).m)), At(s, g))
  }

  ghost predicate Inv(s: State) {
    Owned(s) && Separate(s.heap, s.msgs) && CleanPool(s) && AllFilled(s)
  }

  // ---- a step of a goroutine that changes its own message --------------------------------------

  /** Nothing is written to or taken over but the arrays of the message before and new ones. */
  predicate Local(heap: Heap, before: WireMessage, after: Heap, w: WireMessage) {
    && heap.Keys <= after.Keys
    && (forall a :: a in heap && a !in Arrays(before) ==> after[a] == heap[a])
    && Apart(after, w)
    && (forall a :: a in Arrays(w) ==> a in Arrays(before) || a !in heap)
  }

  lemma LocalKeepsSeparate(heap: Heap, msgs: map<nat, WireMessage>, m: nat, after: Heap, w: WireMessage)
    requires Separate(heap, msgs) && m in msgs && Local(heap, msgs[m], after, w)
    ensures Separate(after, msgs[m := w])
    ensures forall n :: n in msgs && n != m ==>
      View(after, msgs[n]) == View(heap, msgs[n]) && (Clean(heap, msgs[n]) ==> Clean(after, msgs[n]))
  {
    forall n | n in msgs && n != m
      ensures Apart(after, msgs[n]) && Arrays(w) !! Arrays(msgs[n])
      ensures View(after, msgs[n]) == View(heap, msgs[n]) && (Clean(heap, msgs[n]) ==> Clean(after, msgs[n]))
    {
      OthersStay(heap, msgs[m], after, w, msgs[n]);
    }
  }

  lemma OthersStay(heap: Heap, before: WireMessage, after: Heap, w: WireMessage, other: WireMessage)
    requires Local(heap, before, after, w) && Apart(heap, other) && Arrays(before) !! Arrays(other)
    ensures Apart(after, other) && Arrays(w) !! Arrays(other)
    ensures View(after, other) == View(heap, other) && (Clean(heap, other) ==> Clean(after, other))
  {
    assert forall a :: a in Arrays(other) ==> a in heap && a !in Arrays(before);
  }

  lemma MarshalIsLocal(heap: Heap, b: Buffer, v: Argument, loc: nat)
    requires Placed(heap, b) && loc !in heap
    ensures var (after, c) := Marshal(heap, b, v, loc);
      && heap.Keys <= after.Keys
      && (forall a :: a in heap && !(b.Buffer? && a == b.loc) ==> after[a] == heap[a])
      && Placed(after, c)
      && (c.Buffer? ==> (b.Buffer? && c.loc == b.loc) || c.loc == loc)
      && (Marshaled(v).Some? ==> Marshaled(v).value == Contents(after, c))
  {
  }

  /** PutMessage keeps a buffer of up to 65536 bytes, emptied, and drops a larger one. */
  lemma KeptExactly(heap: Heap, b: Buffer)
    ensures Contents(heap, Kept(heap, b)) == []
    ensures Cap(heap, b) <= 65536 ==> Cap(heap, Kept(heap, b)) == Cap(heap, b)
    ensures Cap(heap, b) <= 65536 && b.Buffer? ==> Kept(heap, b).Buffer? && Kept(heap, b).loc == b.loc
    ensures 65536 < Cap(heap, b) ==> Kept(heap, b) == NoBuffer
  {
  }

  /** Nobody has got or put a message. */
  ghost predicate SameHolders(s: State, after: State) {
    && after.pool == s.pool && after.msgs.Keys == s.msgs.Keys
    && forall g :: At(after, g).Idle? == At(s, g).Idle? && (!At(s, g).Idle? ==> At(after, g).m == At(s, g).m)
  }

  lemma StillOwned(s: State, after: State)
    requires Owned(s) && SameHolders(s, after)
    ensures Owned(after)
  {
    forall m | m in after.msgs && m !in after.pool ensures exists g :: Holds(after, g, m) {
      var g :| Holds(s, g, m);
      assert Holds(after, g, m);
    }
  }

  /** A goroutine's own step keeps the invariant, if it is local and fills the message as it is to be filled. */
  lemma OwnStep(s: State, g: nat, pc: Pc, heap: Heap, w: WireMessage)
    requires Inv(s) && !At(s, g).Idle? && !pc.Idle? && pc.m == At(s, g).m
    requires Local(s.heap, Message(s, pc.m), heap, w) && Filled(View(heap, w), pc)
    ensures Inv(Update(s, g, pc, heap, pc.m, w))
  {
    hide Filled, View, Clean, Local, Separate;
    var m := pc.m;
    var after := Update(s, g, pc, heap, m, w);
    LocalKeepsSeparate(s.heap, s.msgs, m, heap, w);
    assert SameHolders(s, after);
    StillOwned(s, after);
  }

  /** So does a step to another place, if the message is as it is to be there. */
  lemma MoveStep(s: State, g: nat, pc: Pc, after: State)
    requires Inv(s) && !At(s, g).Idle? && !pc.Idle? && pc.m == At(s, g).m
    requires Filled(View(s.heap, Message(s, pc.m)), pc)
    requires after.pc == s.pc[g := pc] && after.msgs == s.msgs && after.pool == s.pool && after.heap == s.heap
    ensures Inv(after)
  {
    hide Filled, View, Clean, Separate;
    assert SameHolders(s, after);
    StillOwned(s, after);
  }

  lemma HeaderStep(s: State, g: nat)
    requires Inv(s) && Enabled(s, FillHeader(g))
    ensures Inv(Next(s, FillHeader(g)))
  {
    hide Clean, CleanPool, Owned, AllFilled;
    var pc := At(s, g);
    HeldMessage(s, g);
    OwnStep(s, g, pc.(stage := Args), s.heap, Message(s, pc.m).(id := pc.call.id, fn := pc.call.fn, error := None));
  }

  /** The message that a goroutine holds is there, in its own arrays, and filled as far as it is to be. */
  lemma HeldMessage(s: State, g: nat)
    requires Inv(s) && !At(s, g).Idle?
    ensures var pc := At(s, g);
      && pc.m in s.msgs && pc.m !in s.pool && Apart(s.heap, Message(s, pc.m))
      && Filled(View(s.heap, Message(s, pc.m)), pc)
      && forall h :: h != g && !At(s, h).Idle? ==> At(s, h).m != pc.m
  {
    hide Filled, View, Clean;
  }

  lemma ArgsStep(s: State, g: nat, loc: nat)
    requires Inv(s) && Enabled(s, FillArgs(g, loc))
    ensures Inv(Next(s, FillArgs(g, loc)))
  {
    hide Clean, CleanPool, Owned, AllFilled, Separate, Marshal;
    var pc, w := At(s, g), Message(s, At(s, g).m);
    HeldMessage(s, g);
    MarshalIsLocal(s.heap, w.args, pc.call.args, loc);
    var (heap, b) := Marshal(s.heap, w.args, pc.call.args, loc);
    OwnStep(s, g, if Marshaled(pc.call.args).Some? then pc.(stage := Result) else Done(pc.call, pc.m),
      heap, w.(args := b));
  }

  lemma ResultStep(s: State, g: nat, loc: nat)
    requires Inv(s) && Enabled(s, FillResult(g, loc))
    ensures Inv(Next(s, FillResult(g, loc)))
  {
    hide Clean, CleanPool, Owned, AllFilled, Separate, Marshal;
    var pc, w := At(s, g), Message(s, At(s, g).m);
    HeldMessage(s, g);
    MarshalIsLocal(s.heap, w.result, pc.call.result, loc);
    var (heap, b) := Marshal(s.heap, w.result, pc.call.result, loc);
    OwnStep(s, g, if Marshaled(pc.call.result).Some? then pc.(stage := Error) else Done(pc.call, pc.m),
      heap, w.(result := b));
  }

  lemma ErrorStep(s: State, g: nat)
    requires Inv(s) && Enabled(s, FillError(g))
    ensures Inv(Next(s, FillError(g)))
  {
    hide Clean, CleanPool, Owned, AllFilled, Separate;
    var pc := At(s, g);
    HeldMessage(s, g);
    OwnStep(s, g, Ready(pc.call, pc.m), s.heap, Message(s, pc.m).(error := pc.call.error));
  }

  /** The steps under the lock leave the messages alone. */
  lemma LockedStep(s: State, step: Step)
    requires Inv(s) && Enabled(s, step)
    requires step.Lock? || step.WritePart? || step.Flush? || step.Unlock?
    ensures Inv(Next(s, step))
  {
    hide Clean, CleanPool, Owned, AllFilled, Separate, Inv;
    var pc := At(s, step.g);
    HeldMessage(s, step.g);
    MoveStep(s, step.g, Next(s, step).pc[step.g], Next(s, step));
  }

  /** A message is still held if its holder has not moved. */
  lemma StillHeld(s: State, after: State, m: nat)
    requires (exists g :: Holds(s, g, m)) && forall g :: Holds(s, g, m) ==> At(after, g) == At(s, g)
    ensures exists g :: Holds(after, g, m)
  {
    var g :| Holds(s, g, m);
    assert Holds(after, g, m);
  }

  lemma GetStep(s: State, g: nat, call: Call, m: nat)
    requires Inv(s) && Enabled(s, Get(g, call, m))
    ensures Inv(Next(s, Get(g, call, m)))
  {
    hide View, Clean, Separate, Filled;
    var after := Next(s, Get(g, call, m));
    assert forall h :: At(after, h) == if h == g then Filling(call, m, Header) else At(s, h);
    assert forall n :: n != m ==> Message(after, n) == Message(s, n);
    assert Owned(after) by {
      assert Holds(after, g, m);
      forall n | n in after.msgs && n !in after.pool && n != m ensures exists h :: Holds(after, h, n) {
        StillHeld(s, after, n);
      }
    }
    assert Separate(after.heap, after.msgs) by { NewIsSeparate(s.heap, s.msgs, m); }
    assert forall f :: Filled(f, Filling(call, m, Header)) by { NothingFilled(call, m); }
  }

  lemma NothingFilled(call: Call, m: nat)
    ensures forall f :: Filled(f, Filling(call, m, Header))
  {
  }

  lemma NewIsSeparate(heap: Heap, msgs: map<nat, WireMessage>, m: nat)
    requires Separate(heap, msgs)
    ensures m !in msgs ==> Separate(heap, msgs[m := ZERO])
  {
  }

  lemma KeptIsClean(heap: Heap, w: WireMessage)
    requires Apart(heap, w)
    ensures var kept := w.(args := Kept(heap, w.args), result := Kept(heap, w.result), error := None);
      Clean(heap, kept) && Local(heap, w, heap, kept)
  {
  }

  lemma PutStep(s: State, g: nat)
    requires Inv(s) && Enabled(s, Put(g))
    ensures Inv(Next(s, Put(g)))
  {
    hide Filled, View, Clean, Local, Separate, Apart, Kept, Owned;
    var m, w := At(s, g).m, Message(s, At(s, g).m);
    HeldMessage(s, g);
    KeptIsClean(s.heap, w);
    var after := Next(s, Put(g));
    LocalKeepsSeparate(s.heap, s.msgs, m, s.heap, after.msgs[m]);
    PutOwned(s, g);
    assert forall h :: At(after, h) == if h == g then Idle else At(s, h);
    assert forall n :: n != m ==> Message(after, n) == Message(s, n);
    PoolIsThere(s);
  }

  lemma PoolIsThere(s: State)
    requires Owned(s)
    ensures forall m :: m in s.pool ==> m in s.msgs
  {
  }

  lemma PutOwned(s: State, g: nat)
    requires Inv(s) && Enabled(s, Put(g))
    ensures Owned(Next(s, Put(g)))
  {
    hide CleanPool, AllFilled, Separate, Kept;
    var after := Next(s, Put(g));
    assert forall h :: At(after, h) == if h == g then Idle else At(s, h);
    forall n | n in after.msgs && n !in after.pool ensures exists h :: Holds(after, h, n) {
      StillHeld(s, after, n);
    }
  }

  lemma ForgetStep(s: State, m: nat)
    requires Inv(s) && Enabled(s, Forget(m))
    ensures Inv(Next(s, Forget(m)))
  {
    hide Filled, View, Clean, Apart;
    var after := Next(s, Forget(m));
    assert forall h :: At(after, h) == At(s, h);
    assert forall n :: n != m ==> Message(after, n) == Message(s, n);
    assert Owned(after) by {
      forall n | n in after.msgs && n !in after.pool ensures exists h :: Holds(after, h, n) {
        StillHeld(s, after, n);
      }
    }
  }

  lemma InvStep(s: State, step: Step)
    requires Inv(s) && Enabled(s, step)
    ensures Inv(Next(s, step))
  {
    hide Inv, Next, Enabled;
    match step
    case Get(g, call, m) => GetStep(s, g, call, m);
    case FillHeader(g) => HeaderStep(s, g);
    case FillArgs(g, loc) => ArgsStep(s, g, loc);
    case FillResult(g, loc) => ResultStep(s, g, loc);
    case FillError(g) => ErrorStep(s, g);
    case Spill(n) => SpillStep(s, n);
    case Put(g) => PutStep(s, g);
    case Forget(m) => ForgetStep(s, m);
    case _ => LockedStep(s, step);
  }

  lemma SpillStep(s: State, n: nat)
    requires Inv(s) && Enabled(s, Spill(n))
    ensures Inv(Next(s, Spill(n)))
  {
    var after := Next(s, Spill(n));
    hide Filled, View, Clean, Separate;
    assert SameHolders(s, after);
    StillOwned(s, after);
  }

  lemma StartHolds()
    ensures Inv(State(map[], map[], {}, map[], None, [], [], []))
  {
  }

  /**
   After every run: each message is in the pool or held by exactly one goroutine, no two payload
   buffers share an array, pooled messages are clean, and from the end of ToWire to the end of the
   write a message says what its holder's call says.
   */
  lemma {:induction false} EveryRun(steps: seq<Step>)
    requires Run(steps).Some?
    ensures Inv(Run(steps).value)
    decreases |steps|
  {
    hide Inv, Enabled, Next;
    if steps == [] {
      StartHolds();
    } else {
      EveryRun(steps[..|steps| - 1]);
      InvStep(Run(steps[..|steps| - 1]).value, steps[|steps| - 1]);
    }
  }

  // ---- the runs of the specification ----------------------------------------------------------

  function SpecPc(pc: Pc): Spec.Pc {
    match pc
    case Idle => Spec.Idle
    case Filling(call, _, _) => Spec.Started(call)
    case Ready(call, _) => Spec.Ready(call)
    case Writing(call, _, next) =>
      var parts := if WireOf(call).Ok? then Parts(WireOf(call).value) else [];
      Spec.Writing(call, if next <= |parts| then parts[next..] else [])
    case Flushed(_, _) => Spec.Flushed
    case Done(_, _) => Spec.Done
  }

  /** The state without its messages: what a goroutine still has to write is what its call says. */
  function Abstract(s: State): Spec.State {
    Spec.State(map g | g in s.pc :: SpecPc(s.pc[g]), s.lock, s.buffered, s.flushed, s.order)
  }

  /** The step of the specification that a step is, if it is one there. */
  function SpecStep(s: State, step: Step): Option<Spec.Step>
    requires Enabled(s, step)
  {
    match step
    case Get(g, call, _) => Some(Spec.Start(g, call))
    case FillHeader(_) => None
    case FillArgs(g, _) => if Marshaled(At(s, g).call.args).Some? then None else Some(Spec.Convert(g))
    case FillResult(g, _) => if Marshaled(At(s, g).call.result).Some? then None else Some(Spec.Convert(g))
    case FillError(g) => Some(Spec.Convert(g))
    case Lock(g) => Some(Spec.Lock(g))
    case WritePart(g) => Some(Spec.WritePart(g))
    case Spill(n) => Some(Spec.Spill(n))
    case Flush(g) => Some(Spec.Flush(g))
    case Unlock(g) => Some(Spec.Unlock(g))
    case Put(g) => Some(Spec.Return(g))
    case Forget(_) => None
  }

  lemma AbstractAt(s: State, g: nat)
    ensures Spec.At(Abstract(s), g) == SpecPc(At(s, g))
  {
  }

  /** A step to pc is one to what pc stands for. */
  lemma AbstractMove(s: State, after: State, g: nat, pc: Pc)
    requires after.pc == s.pc[g := pc]
    ensures Abstract(after).pc == Abstract(s).pc[g := SpecPc(pc)]
  {
    hide SpecPc;
  }

  lemma AbstractStay(s: State, after: State, g: nat, pc: Pc)
    requires after.pc == s.pc[g := pc] && g in s.pc && SpecPc(pc) == SpecPc(s.pc[g])
    ensures Abstract(after).pc == Abstract(s).pc
  {
    hide SpecPc;
  }

  /** Every step is one of the specification, or does nothing there. */
  lemma Refines(s: State, step: Step)
    requires Inv(s) && Enabled(s, step)
    ensures match SpecStep(s, step)
      case None => Abstract(Next(s, step)) == Abstract(s)
      case Some(x) => Spec.Enabled(Abstract(s), x) && Spec.Next(Abstract(s), x) == Abstract(Next(s, step))
  {
    if step.Spill? || step.Forget? {
      hide Inv;
    } else if step.Get? || step.FillHeader? || step.FillArgs? || step.FillResult? || step.FillError? {
      RefinesFilling(s, step);
    } else {
      RefinesWriting(s, step);
    }
  }

  lemma RefinesFilling(s: State, step: Step)
    requires Inv(s) && Enabled(s, step)
    requires step.Get? || step.FillHeader? || step.FillArgs? || step.FillResult? || step.FillError?
    ensures match SpecStep(s, step)
      case None => Abstract(Next(s, step)) == Abstract(s)
      case Some(x) => Spec.Enabled(Abstract(s), x) && Spec.Next(Abstract(s), x) == Abstract(Next(s, step))
  {
    var g := step.g;
    AbstractAt(s, g);
    if !step.Get? { HeldMessage(s, g); }
    hide Inv, Marshal, Parts, View, Abstract;
    var after := Next(s, step);
    AbstractMove(s, after, g, after.pc[g]);
    if SpecStep(s, step) == None { AbstractStay(s, after, g, after.pc[g]); }
    AbstractRest(s);
    AbstractRest(after);
  }

  lemma AbstractRest(s: State)
    ensures var a := Abstract(s);
      a == Spec.State(a.pc, s.lock, s.buffered, s.flushed, s.order)
  {
  }

  lemma RefinesWriting(s: State, step: Step)
    requires Inv(s) && Enabled(s, step)
    requires step.Lock? || step.WritePart? || step.Flush? || step.Unlock? || step.Put?
    ensures SpecStep(s, step).Some?
    ensures Spec.Enabled(Abstract(s), SpecStep(s, step).value)
    ensures Spec.Next(Abstract(s), SpecStep(s, step).value) == Abstract(Next(s, step))
  {
    match step
    case Lock(g) => RefinesLock(s, g);
    case WritePart(g) => RefinesWritePart(s, g);
    case Flush(g) => RefinesFlush(s, g);
    case _ => RefinesLeaving(s, step);
  }

  lemma RefinesLeaving(s: State, step: Step)
    requires Inv(s) && Enabled(s, step) && (step.Unlock? || step.Put?)
    ensures Spec.Enabled(Abstract(s), SpecStep(s, step).value)
    ensures Spec.Next(Abstract(s), SpecStep(s, step).value) == Abstract(Next(s, step))
  {
    var g := step.g;
    AbstractAt(s, g);
    hide Inv, Parts, View, Abstract, Kept;
    var after := Next(s, step);
    AbstractMove(s, after, g, after.pc[g]);
    AbstractRest(s);
    AbstractRest(after);
  }

  lemma RefinesLock(s: State, g: nat)
    requires Inv(s) && Enabled(s, Lock(g))
    ensures Spec.Enabled(Abstract(s), Spec.Lock(g))
    ensures Spec.Next(Abstract(s), Spec.Lock(g)) == Abstract(Next(s, Lock(g)))
  {
    AbstractAt(s, g);
    HeldMessage(s, g);
    hide Inv, Parts, View, Abstract, Apart, WireOf;
    var after := Next(s, Lock(g));
    var parts := PartsOf(s, g);
    assert parts[0..] == parts;
    AbstractMove(s, after, g, after.pc[g]);
    AbstractRest(s);
    AbstractRest(after);
  }

  lemma RefinesFlush(s: State, g: nat)
    requires Inv(s) && Enabled(s, Flush(g))
    ensures Spec.Enabled(Abstract(s), Spec.Flush(g))
    ensures Spec.Next(Abstract(s), Spec.Flush(g)) == Abstract(Next(s, Flush(g)))
  {
    AbstractAt(s, g);
    HeldMessage(s, g);
    hide Inv, Parts, View, Abstract, Apart, WireOf;
    var after := Next(s, Flush(g));
    AbstractMove(s, after, g, after.pc[g]);
    AbstractRest(s);
    AbstractRest(after);
  }

  lemma RefinesWritePart(s: State, g: nat)
    requires Inv(s) && Enabled(s, WritePart(g))
    ensures Spec.Enabled(Abstract(s), Spec.WritePart(g))
    ensures Spec.Next(Abstract(s), Spec.WritePart(g)) == Abstract(Next(s, WritePart(g)))
  {
    AbstractAt(s, g);
    HeldMessage(s, g);
    hide Inv, Parts, View, Abstract, Apart, WireOf;
    var after := Next(s, WritePart(g));
    var parts, next := PartsOf(s, g), At(s, g).next;
    assert parts[next..][1..] == parts[next + 1..] && parts[next..][0] == parts[next];
    AbstractMove(s, after, g, after.pc[g]);
    AbstractRest(s);
    AbstractRest(after);
  }

  /** The run of the specification that a run is. */
  function SpecSteps(steps: seq<Step>): seq<Spec.Step>
    requires Run(steps).Some?
  {
    if steps == [] then []
    else
      var before, step := Run(steps[..|steps| - 1]).value, steps[|steps| - 1];
      SpecSteps(steps[..|steps| - 1]) + match SpecStep(before, step) case None => [] case Some(x) => [x]
  }

  lemma {:induction false} RunRefines(steps: seq<Step>)
    requires Run(steps).Some?
    ensures Spec.Run(SpecSteps(steps)) == Some(Abstract(Run(steps).value))
    decreases |steps|
  {
    hide Inv, Enabled, Next, SpecStep, Abstract, Spec.Next, Spec.Enabled;
    if steps == [] {
      StartIsStart();
    } else {
      var front, step := steps[..|steps| - 1], steps[|steps| - 1];
      var before := Run(front).value;
      EveryRun(front);
      RunRefines(front);
      Refines(before, step);
      if SpecStep(before, step) == None {
        assert SpecSteps(steps) == SpecSteps(front);
      } else {
        var x := SpecStep(before, step).value;
        assert SpecSteps(steps) == SpecSteps(front) + [x];
        assert (SpecSteps(front) + [x])[..|SpecSteps(front)|] == SpecSteps(front);
      }
    }
  }

  lemma StartIsStart()
    ensures Abstract(State(map[], map[], {}, map[], None, [], [], [])) == Spec.State(map[], None, [], [], [])
  {
  }

  // ---- what this means for the connection -------------------------------------------------------

  /**
   In every state of every run the connection has been given the whole encodings of the calls
   before the last, in lock order, and a prefix of the last one; the rest of what has been written
   is in the buffer. Without a lock holder nothing is missing and nothing is buffered.
   */
  lemma OutputIsWholeMessages(steps: seq<Step>)
    requires Run(steps).Some?
    ensures var s := Run(steps).value;
      && (s.lock == None ==> s.buffered == [] && s.flushed == Spec.EncodeAll(s.order))
      && (s.lock.Some? ==> s.order != [])
      && (s.lock.Some? ==>
        var done, last := Spec.EncodeAll(s.order[..|s.order| - 1]), Spec.EncodeCall(s.order[|s.order| - 1]);
        done <= s.flushed && s.flushed[|done|..] + s.buffered <= last)
  {
    hide Run, Spec.Run, SpecSteps, Spec.EncodeAll, Spec.EncodeCall;
    RunRefines(steps);
    Spec.OutputIsWholeMessages(SpecSteps(steps));
  }

  /**
   The reader at the other end gets the calls in lock order: all of them once no writer holds the
   lock, and at most the last one less while one does.
   */
  lemma ReaderFollowsLockOrder(steps: seq<Step>)
    requires Run(steps).Some?
    requires forall c :: c in Run(steps).value.order ==> Sendable(c)
    ensures var s := Run(steps).value;
      var seen, sent := Spec.Deliveries(s.flushed), Spec.ExpectedAll(s.order);
      && (s.lock == None ==> seen == sent)
      && (s.lock.Some? ==> sent != [] && (seen == sent || seen == sent[..|sent| - 1]))
  {
    hide Run, Spec.Run, SpecSteps, Spec.Deliveries, Spec.ExpectedAll, Sendable;
    RunRefines(steps);
    Spec.ReaderFollowsLockOrder(SpecSteps(steps));
  }

  /** From the end of ToWire until the message is put back, what it says is what its holder's call says. */
  lemma WrittenAsCalled(steps: seq<Step>, g: nat)
    requires Run(steps).Some?
    requires var pc := At(Run(steps).value, g); pc.Ready? || pc.Writing? || pc.Flushed?
    ensures var s := Run(steps).value;
      Ok(View(s.heap, Message(s, At(s, g).m))) == WireOf(At(s, g).call)
  {
    hide Run, View, Owned, Separate, CleanPool;
    EveryRun(steps);
  }
}
