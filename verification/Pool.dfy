/**
 The message pool on the heap: each step of WriteMessage that touches a wire message is a method
 here, and keeps Valid() whatever the other messages are. WriterRuns has the runs of these steps
 by any number of goroutines.
 */
module Pool {
  import opened Bytes
  import opened Wire
  import opened MpcGen
  import opened Mpc

  /** What PutMessage leaves behind: nothing of the message, and no large buffer. */
  ghost predicate Clean(m: Message)
    reads m
  {
    && m.Valid() && m.error == null
    && (m.args.Slice? ==> m.args.len == 0 && m.args.data.Length <= MAX_KEPT_BUFFER)
    && (m.result.Slice? ==> m.result.len == 0 && m.result.data.Length <= MAX_KEPT_BUFFER)
  }

  class Writers {
    /** Every wire message there is, with the writer that holds it, or None if it is in the pool. */
    var owner: map<Message, Option<nat>>

    /** The storage of each message: itself, its payload buffers and its error. */
    ghost var storage: map<Message, set<object>>

    constructor ()
      ensures Valid() && owner == map[]
    {
      owner, storage := map[], map[];
    }

    ghost predicate Valid()
      reads this, storage.Keys
    {
      && storage.Keys == owner.Keys
      && (forall m :: m in storage ==> m.Valid() && storage[m] == m.Repr() && this !in storage[m])
      && (forall m, n :: m in storage && n in storage && m != n ==> storage[m] !! storage[n])
      && (forall m :: m in owner && owner[m] == None ==> Clean(m))
    }

    /** GetMessage: some pooled message if there is one to be had, else a new one. */
    method Get(w: nat, pooled: Option<Message>) returns (m: Message)
      requires Valid()
      requires pooled.Some? ==> pooled.value in owner && owner[pooled.value] == None
      modifies this
      ensures Valid() && owner == old(owner)[m := Some(w)]
      ensures if pooled.Some? then m == pooled.value && storage == old(storage)
        else m !in old(owner) && fresh(storage[m]) && storage == old(storage)[m := storage[m]]
      ensures m in storage && Clean(m)
    {
      hide Message.Repr, Message.Valid, Message.Value;
      if pooled.Some? {
        m := pooled.value;
      } else {
        m := new Message();
      }
      owner, storage := owner[m := Some(w)], storage[m := m.Repr()];
    }

    lemma Others(m: Message)
      requires Valid() && m in storage
      ensures m.Valid() && storage[m] == m.Repr() && m in storage[m]
      ensures forall n :: n in storage && n != m ==> n !in storage[m]
    {
      forall n | n in storage && n != m ensures n !in storage[m] {
        assert n in n.Repr() && storage[n] !! storage[m];
      }
    }

    /** ToWire on the writer's own message: no other message changes in any of its bytes. */
    method Fill(w: nat, m: Message, c: Call) returns (fault: Option<ToWireFault>)
      requires Valid() && m in owner && owner[m] == Some(w)
      modifies this`storage, storage[m]
      ensures Valid() && owner == old(owner)
      ensures m in storage && storage == old(storage)[m := storage[m]] && fresh(storage[m] - old(storage)[m])
      ensures match WireOf(c)
        case Ok(f) => fault == None && m.Value() == f
        case Err(e) => fault == Some(e)
      ensures forall n :: n in owner && n != m ==> n.Valid() && n.Value() == old(n.Value())
    {
      hide WireOf, Message.Repr, Message.Valid, Message.Value, Clean;
      Others(m);
      fault := ToWire(m, c);
      storage := storage[m := m.Repr()];
    }

    /** PutMessage, deferred by WriteMessage whether or not the write worked. */
    method Put(w: nat, m: Message)
      requires Valid() && m in owner && owner[m] == Some(w)
      modifies this, m
      ensures Valid() && owner == old(owner)[m := None]
      ensures m in storage && storage == old(storage)[m := storage[m]] && storage[m] <= old(storage)[m]
    {
      hide Message.Repr, Message.Valid, Clean;
      Others(m);
      PutMessage(m);
      owner, storage := owner[m := None], storage[m := m.Repr()];
    }

    static method PutMessage(m: Message)
      requires m.Valid()
      modifies m
      ensures Clean(m) && m.Repr() <= old(m.Repr())
      ensures m.args == old(Keep(m.args)) && m.result == old(Keep(m.result))
    {
      m.args := Keep(m.args);
      m.result := Keep(m.result);
      m.error := null;
    }

    /** The garbage collector may empty the pool. */
    method Forget(m: Message)
      requires Valid() && m in owner && owner[m] == None
      modifies this
      ensures Valid() && owner == old(owner) - {m}
    {
      hide Message.Repr, Message.Valid, Clean;
      owner, storage := owner - {m}, storage - {m};
    }
  }
}
