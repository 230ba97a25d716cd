// lib/core/ogs-queue.c: what a thread does to the queue while it holds the mutex.
module QueueSpec {
  import opened QueueRing

  // A thread waits for room on not_full, or for an element on not_empty.
  datatype Side = Pushers | Poppers

  function Other(side: Side): Side { if side == Pushers then Poppers else Pushers }

  // The timeout of a call: 0, positive, or OGS_INFINITE_TIME
  datatype Wait = Try | Timed | Forever

  datatype Op<V> = Push(data: V, wait: Wait) | Pop(wait: Wait) {
    function Of(): Side { if Push? then Pushers else Poppers }
  }

  // OGS_OK, with the element for a pop, and as Ended for ogs_queue_term; OGS_RETRY, OGS_TIMEUP,
  // OGS_ERROR and OGS_DONE
  datatype Result<V> = Ok | Value(v: V) | Ended | Retry | TimeUp | Failed | Done

  // The thread goes to sleep, unlocks and returns, or has changed the queue and has still to signal.
  datatype Outcome<V> = Sleeps | Leaves(res: Result<V>) | Changes(res: Result<V>)

  // ogs_queue_t without its mutex and conditions
  datatype Core<V> = Core(ring: Ring<V>, fullWaiters: nat, emptyWaiters: nat, terminated: bool) {
    function Waiters(side: Side): nat { if side == Pushers then fullWaiters else emptyWaiters }

    // ogs_queue_full, ogs_queue_empty
    predicate Blocked(side: Side) { if side == Pushers then ring.nelts == ring.Bounds() else ring.nelts == 0 }

    // How many operations of this side the queue can take now.
    ghost function Room(side: Side): int { if side == Pushers then ring.Bounds() - ring.nelts else ring.nelts }

    ghost predicate Valid() { ring.Valid() }

    function AddWaiter(side: Side, n: int): Core<V> {
      if side == Pushers
      then this.(fullWaiters := if fullWaiters + n >= 0 then fullWaiters + n else 0)
      else this.(emptyWaiters := if emptyWaiters + n >= 0 then emptyWaiters + n else 0)
    }

    function Change(op: Op<V>): (r: (Core<V>, Outcome<V>))
      requires Valid() && !Blocked(op.Of())
    {
      match op
      case Push(data, _) => (this.(ring := ring.Put(data)), Changes(Ok))
      case Pop(_) => (this.(ring := ring.Take()), Changes(Value(ring.data[ring.out])))
    }

    // From the lock to the wait, to the signal or to the unlock.
    function Enter(op: Op<V>): (r: (Core<V>, Outcome<V>))
      requires Valid()
    {
      if !Blocked(op.Of()) then Change(op)
      else if op.wait == Try then (this, Leaves(Retry))
      else if !terminated then (AddWaiter(op.Of(), 1), Sleeps)
      else (this, Leaves(Failed))
    }

    // The same after the wait, which ended by a timeout when late.
    function Resume(op: Op<V>, late: bool): (r: (Core<V>, Outcome<V>))
      requires Valid()
    {
      var c := AddWaiter(op.Of(), -1);
      if late then (c, Leaves(TimeUp)) else if c.Blocked(op.Of()) then (c, Leaves(Failed)) else c.Change(op)
    }
  }

  function One(b: bool): int { if b then 1 else 0 }

  // What becomes of the room of either side and of the waiters.
  ghost predicate Moved<V>(c: Core<V>, d: Core<V>, side: Side, changes: bool, waiters: int) {
    && d.Room(side) == c.Room(side) - One(changes) && d.Room(Other(side)) == c.Room(Other(side)) + One(changes)
    && d.Waiters(side) == c.Waiters(side) + waiters && d.Waiters(Other(side)) == c.Waiters(Other(side))
    && d.terminated == c.terminated
  }

  lemma EnterIs<V>(c: Core<V>, op: Op<V>)
    requires c.Valid()
    ensures var (d, o) := c.Enter(op);
      && Moved(c, d, op.Of(), o.Changes?, One(o.Sleeps?))
      && (o.Sleeps? ==> !c.terminated && c.Room(op.Of()) == 0)
  {
  }

  lemma ResumeIs<V>(c: Core<V>, op: Op<V>, late: bool)
    requires c.Valid() && c.Waiters(op.Of()) > 0
    ensures var (d, o) := c.Resume(op, late);
      && Moved(c, d, op.Of(), o.Changes?, -1) && !o.Sleeps?
      && (o.Leaves? && !late ==> c.Room(op.Of()) == 0) && (late ==> o.Leaves?)
  {
  }

  class Queue<V> {
    const buffer: Buffer<V>
    var fullWaiters: nat
    var emptyWaiters: nat
    var terminated: bool

    ghost function Now(): Core<V>
      reads this, buffer, buffer.data
    {
      Core(buffer.Now(), fullWaiters, emptyWaiters, terminated)
    }

    // ogs_queue_create
    constructor (capacity: nat, zero: V)
      ensures Now().Valid() && Now().ring.Contents() == [] && Now().ring.Bounds() == capacity
      ensures fullWaiters == emptyWaiters == 0 && !terminated
      ensures fresh(buffer) && fresh(buffer.data)
    {
      buffer := new Buffer(capacity, zero);
      fullWaiters, emptyWaiters, terminated := 0, 0, false;
    }

    // queue_push, from the lock
    method EnterPush(data: V, wait: Wait) returns (o: Outcome<V>)
      requires Now().Valid()
      modifies this, buffer, buffer.data
      ensures (Now(), o) == old(Now()).Enter(Push(data, wait)) && Now().Valid()
    {
      if buffer.nelts == buffer.data.Length {
        if wait == Try {
          return Leaves(Retry);
        }
        if !terminated {
          fullWaiters := fullWaiters + 1;
          return Sleeps;
        }
        return Leaves(Failed);
      }
      buffer.Put(data);
      return Changes(Ok);
    }

    // queue_push, from the end of the wait
    method ResumePush(data: V, wait: Wait, late: bool) returns (o: Outcome<V>)
      requires Now().Valid() && fullWaiters > 0
      modifies this, buffer, buffer.data
      ensures (Now(), o) == old(Now()).Resume(Push(data, wait), late) && Now().Valid()
    {
      fullWaiters := fullWaiters - 1;
      if late {
        return Leaves(TimeUp);
      }
      if buffer.nelts == buffer.data.Length {
        return Leaves(Failed);
      }
      buffer.Put(data);
      return Changes(Ok);
    }

    // queue_pop, from the lock
    method EnterPop(wait: Wait) returns (o: Outcome<V>)
      requires Now().Valid()
      modifies this, buffer
      ensures (Now(), o) == old(Now()).Enter(Pop(wait)) && Now().Valid()
    {
      if buffer.nelts == 0 {
        if wait == Try {
          return Leaves(Retry);
        }
        if !terminated {
          emptyWaiters := emptyWaiters + 1;
          return Sleeps;
        }
        return Leaves(Failed);
      }
      var v := buffer.Take();
      return Changes(Value(v));
    }

    // queue_pop, from the end of the wait
    method ResumePop(wait: Wait, late: bool) returns (o: Outcome<V>)
      requires Now().Valid() && emptyWaiters > 0
      modifies this, buffer
      ensures (Now(), o) == old(Now()).Resume(Pop(wait), late) && Now().Valid()
    {
      emptyWaiters := emptyWaiters - 1;
      if late {
        return Leaves(TimeUp);
      }
      if buffer.nelts == 0 {
        return Leaves(Failed);
      }
      var v := buffer.Take();
      return Changes(Value(v));
    }
  }
}
