// What the timer manager of lib/core/ogs-timer.c means, without pointers: a queue of running
// timers in firing order, the free slots of its pool, and what each operation does to both.
module TimerSpec {
  import Pool

  datatype Entry = Entry(slot: int, timeout: int)

  datatype Mgr = Mgr(size: nat, free: seq<int>, queue: seq<Entry>) {
    ghost predicate Live(slot: int) {
      0 <= slot < size && slot !in free
    }

    ghost predicate Running(slot: int) {
      exists i :: 0 <= i < |queue| && queue[i].slot == slot
    }

    // Running timers are allocated, each stands in the queue once, and the earliest is first.
    ghost predicate Inv() {
      && Pool.Sound(free, size) && Sorted(queue) && Apart(queue)
      && forall i :: 0 <= i < |queue| ==> Live(queue[i].slot)
    }
  }

  ghost predicate Sorted(q: seq<Entry>) {
    forall i, j :: 0 <= i < j < |q| ==> q[i].timeout <= q[j].timeout
  }

  ghost predicate Apart(q: seq<Entry>) {
    forall i, j :: 0 <= i < j < |q| ==> q[i].slot != q[j].slot
  }

  // A started timer goes behind every timer that is due no later.
  ghost function Insert(q: seq<Entry>, e: Entry): seq<Entry> {
    if q == [] || e.timeout < q[0].timeout then [e] + q else [q[0]] + Insert(q[1..], e)
  }

  ghost function Remove(q: seq<Entry>, slot: int): seq<Entry> {
    if q == [] then [] else if q[0].slot == slot then q[1..] else [q[0]] + Remove(q[1..], slot)
  }

  // What a callback, or any other caller, does with the manager.  Start names the absolute time
  // at which the timer is due: the clock at the call plus the duration.
  datatype Op = Add | Delete(slot: int) | Start(slot: int, timeout: int) | Stop(slot: int)

  ghost function Step(m: Mgr, op: Op): Mgr {
    match op
    case Add => if m.free == [] then m else m.(free := m.free[1..])
    case Delete(s) => m.(queue := Remove(m.queue, s), free := m.free + [s])
    case Start(s, t) => m.(queue := Insert(Remove(m.queue, s), Entry(s, t)))
    case Stop(s) => m.(queue := Remove(m.queue, s))
  }

  // The operation names a timer that is allocated: the source aborts otherwise.
  ghost predicate Legal(m: Mgr, op: Op) {
    op.Add? || m.Live(op.slot)
  }

  // ---------- Insert and Remove ----------

  // r is q with e put in at place k.
  ghost predicate Inserted(q: seq<Entry>, k: nat, e: Entry, r: seq<Entry>) {
    && k <= |q| && |r| == |q| + 1 && r[k] == e
    && (forall i :: 0 <= i < k ==> r[i] == q[i])
    && (forall i :: k < i < |r| ==> r[i] == q[i - 1])
  }

  // r is q without its place k.
  ghost predicate Deleted(q: seq<Entry>, k: nat, r: seq<Entry>) {
    && k < |q| && |r| == |q| - 1
    && (forall i :: 0 <= i < k ==> r[i] == q[i])
    && (forall i :: k <= i < |r| ==> r[i] == q[i + 1])
  }

  // The place where Insert puts a timer due at t: behind everything due no later.
  ghost function Place(q: seq<Entry>, t: int): nat {
    if q == [] || t < q[0].timeout then 0 else 1 + Place(q[1..], t)
  }

  lemma {:induction false} InsertPlace(q: seq<Entry>, e: Entry)
    ensures Inserted(q, Place(q, e.timeout), e, Insert(q, e))
    decreases q
  {
    if q == [] || e.timeout < q[0].timeout {
    } else {
      InsertPlace(q[1..], e);
    }
  }

  lemma {:induction false} PlaceSplits(q: seq<Entry>, t: int)
    requires Sorted(q)
    ensures Place(q, t) <= |q|
    ensures forall i :: 0 <= i < |q| ==> (i < Place(q, t) <==> q[i].timeout <= t)
    decreases q
  {
    if q == [] || t < q[0].timeout {
    } else {
      PlaceSplits(q[1..], t);
    }
  }

  lemma DeletedBehind(q: seq<Entry>, rest: seq<Entry>, k: nat, r: seq<Entry>)
    requires 0 < k < |q| && rest == q[1..] && Deleted(rest, k - 1, r)
    ensures Deleted(q, k, [q[0]] + r)
  {
  }

  lemma {:induction false} RemovePlace(q: seq<Entry>, k: nat)
    requires k < |q| && Apart(q)
    ensures Deleted(q, k, Remove(q, q[k].slot))
    decreases q
  {
    if k == 0 {
      assert Remove(q, q[0].slot) == q[1..];
    } else {
      var rest, slot := q[1..], q[k].slot;
      assert rest[k - 1] == q[k] && Remove(q, slot) == [q[0]] + Remove(rest, slot);
      RemovePlace(rest, k - 1);
      hide Remove, Apart;
      DeletedBehind(q, rest, k, Remove(rest, slot));
    }
  }

  lemma {:induction false} RemoveAbsent(q: seq<Entry>, slot: int)
    requires forall i :: 0 <= i < |q| ==> q[i].slot != slot
    ensures Remove(q, slot) == q
    decreases q
  {
    if q == [] {
    } else {
      RemoveAbsent(q[1..], slot);
    }
  }

  // Of two timers with the same deadline started in a row, the second stands next to the first.
  lemma TiesAdjacent(q: seq<Entry>, a: Entry, b: Entry)
    requires Sorted(q) && a.timeout == b.timeout
    ensures var i, r := Place(q, a.timeout), Insert(Insert(q, a), b);
      i + 1 < |r| && r[i] == a && r[i + 1] == b
  {
    hide Place, Insert;
    var i, q1 := Place(q, a.timeout), Insert(q, a);
    PlaceSplits(q, a.timeout);
    InsertPlace(q, a);
    InsertSorted(q, a);
    InsertPlace(q1, b);
    PlaceSplits(q1, b.timeout);
    assert i < Place(q1, b.timeout);
    if i + 1 < |q1| { assert q1[i + 1] == q[i]; }
  }

  lemma InsertSorted(q: seq<Entry>, e: Entry)
    requires Sorted(q)
    ensures Sorted(Insert(q, e))
  {
    var k, r := Place(q, e.timeout), Insert(q, e);
    PlaceSplits(q, e.timeout);
    InsertPlace(q, e);
    forall i, j | 0 <= i < j < |r|
      ensures r[i].timeout <= r[j].timeout
    {
      var i2, j2 := if i < k then i else i - 1, if j < k then j else j - 1;
      assert i != k ==> r[i] == q[i2];
      assert j != k ==> r[j] == q[j2];
    }
  }

  // ---------- Every run keeps the invariant ----------

  lemma DeletedKeeps(q: seq<Entry>, k: nat, r: seq<Entry>)
    requires Sorted(q) && Apart(q) && Deleted(q, k, r)
    ensures Sorted(r) && Apart(r)
  {
    forall i, j | 0 <= i < j < |r|
      ensures r[i].timeout <= r[j].timeout && r[i].slot != r[j].slot
    {
      var i2, j2 := if i < k then i else i + 1, if j < k then j else j + 1;
      assert r[i] == q[i2] && r[j] == q[j2];
    }
  }

  lemma RemoveKeeps(m: Mgr, slot: int)
    requires m.Inv()
    ensures m.(queue := Remove(m.queue, slot)).Inv()
    ensures forall i :: 0 <= i < |Remove(m.queue, slot)| ==> Remove(m.queue, slot)[i].slot != slot
  {
    var r := Remove(m.queue, slot);
    if m.Running(slot) {
      var k :| 0 <= k < |m.queue| && m.queue[k].slot == slot;
      RemovePlace(m.queue, k);
      DeletedKeeps(m.queue, k, r);
      forall i | 0 <= i < |r|
        ensures m.Live(r[i].slot) && r[i].slot != slot
      {
        assert r[i] == m.queue[if i < k then i else i + 1];
      }
    } else {
      RemoveAbsent(m.queue, slot);
    }
  }

  lemma InsertKeeps(m: Mgr, e: Entry)
    requires m.Inv() && m.Live(e.slot)
    requires forall i :: 0 <= i < |m.queue| ==> m.queue[i].slot != e.slot
    ensures m.(queue := Insert(m.queue, e)).Inv()
  {
    var k, r := Place(m.queue, e.timeout), Insert(m.queue, e);
    InsertPlace(m.queue, e);
    InsertSorted(m.queue, e);
    forall i | 0 <= i < |r| && i != k
      ensures m.Live(r[i].slot) && r[i].slot != e.slot
      ensures r[i] == m.queue[if i < k then i else i - 1]
    {}
    assert Apart(r);
  }

  lemma StepKeeps(m: Mgr, op: Op)
    requires m.Inv() && Legal(m, op)
    ensures Step(m, op).Inv()
  {
    match op
    case Add =>
      if m.free != [] { assert forall y :: y in m.free[1..] ==> y in m.free; }
    case Delete(s) =>
      RemoveKeeps(m, s);
      assert forall y :: y in m.free + [s] ==> y in m.free || y == s;
    case Start(s, t) =>
      RemoveKeeps(m, s);
      InsertKeeps(m.(queue := Remove(m.queue, s)), Entry(s, t));
    case Stop(s) => RemoveKeeps(m, s);
  }

  // ---------- Expiry ----------

  // The timers due at `now`, in queue order.
  ghost function Due(q: seq<Entry>, now: int): seq<int> {
    if q == [] || q[0].timeout > now then [] else [q[0].slot] + Due(q[1..], now)
  }

  // What a callback does, operation by operation.
  ghost function Perform(m: Mgr, ops: seq<Op>): Mgr
    decreases ops
  {
    if ops == [] then m else Perform(Step(m, ops[0]), ops[1..])
  }

  ghost predicate AllLegal(m: Mgr, ops: seq<Op>)
    decreases ops
  {
    ops != [] ==> Legal(m, ops[0]) && AllLegal(Step(m, ops[0]), ops[1..])
  }

  // The callback hands out the given slot again.
  ghost predicate Reissues(m: Mgr, ops: seq<Op>, slot: int)
    decreases ops
  {
    ops != [] &&
    ((ops[0].Add? && m.free != [] && m.free[0] == slot) || Reissues(Step(m, ops[0]), ops[1..], slot))
  }

  // The callback leaves these timers alone.
  ghost predicate Avoids(ops: seq<Op>, slots: seq<int>) {
    forall k :: 0 <= k < |ops| && !ops[k].Add? ==> ops[k].slot !in slots
  }

  ghost function First(callbacks: seq<seq<Op>>): seq<Op> {
    if callbacks == [] then [] else callbacks[0]
  }

  ghost function Rest(callbacks: seq<seq<Op>>): seq<seq<Op>> {
    if callbacks == [] then [] else callbacks[1..]
  }

  // The second loop of ogs_timer_mgr_expire over the timers it has collected; callbacks[k] is
  // what the k-th callback does.  Allocating a timer clears its list links, so the walk stops
  // after a callback that hands out the slot of the timer it was called for.
  ghost function Fire(m: Mgr, due: seq<int>, callbacks: seq<seq<Op>>): (seq<int>, Mgr)
    decreases due
  {
    if due == [] then ([], m)
    else
      var m1, ops := Step(m, Stop(due[0])), First(callbacks);
      var m2 := Perform(m1, ops);
      if Reissues(m1, ops, due[0]) then ([due[0]], m2)
      else
        var (fired, m3) := Fire(m2, due[1..], Rest(callbacks));
        ([due[0]] + fired, m3)
  }

  // Every callback is legal and leaves the other timers still to be fired alone.
  ghost predicate Courteous(m: Mgr, due: seq<int>, callbacks: seq<seq<Op>>)
    decreases due
  {
    due != [] ==>
      var m1, ops := Step(m, Stop(due[0])), First(callbacks);
      && AllLegal(m1, ops) && Avoids(ops, due[1..])
      && (!Reissues(m1, ops, due[0]) ==> Courteous(Perform(m1, ops), due[1..], Rest(callbacks)))
  }

  // Some callback, not the last one, hands out its own slot again.
  ghost predicate Reuses(m: Mgr, due: seq<int>, callbacks: seq<seq<Op>>)
    decreases due
  {
    |due| > 1 &&
    var m1, ops := Step(m, Stop(due[0])), First(callbacks);
    Reissues(m1, ops, due[0]) || Reuses(Perform(m1, ops), due[1..], Rest(callbacks))
  }

  // The due timers are exactly those whose time has come, first the earliest.
  lemma {:induction false} DueExact(q: seq<Entry>, now: int)
    requires Sorted(q)
    ensures |Due(q, now)| <= |q|
    ensures forall i :: 0 <= i < |q| ==> (i < |Due(q, now)| <==> q[i].timeout <= now)
    ensures forall i :: 0 <= i < |Due(q, now)| ==> Due(q, now)[i] == q[i].slot
    decreases q
  {
    if q == [] || now < q[0].timeout {
    } else {
      DueExact(q[1..], now);
    }
  }

  // A walk that stops at the first timer not yet due has seen the due ones.
  lemma {:induction false} DueIs(q: seq<Entry>, now: int, k: nat)
    requires k <= |q| && forall i :: 0 <= i < k ==> q[i].timeout <= now
    requires k < |q| ==> q[k].timeout > now
    ensures Due(q, now) == Slots(q[..k])
    decreases q
  {
    if k == 0 {
    } else {
      DueIs(q[1..], now, k - 1);
      assert q[..k] == [q[0]] + q[1..][..k - 1];
      assert Slots(q[..k]) == [q[0].slot] + Slots(q[1..][..k - 1]);
    }
  }

  lemma StepAvoids(m: Mgr, op: Op, e: Entry)
    requires m.Inv() && Legal(m, op) && e in m.queue && (op.Add? || op.slot != e.slot)
    ensures e in Step(m, op).queue
  {
    hide Remove, Insert, Place;
    if !op.Add? {
      RemoveSpares(m, op.slot, e);
      if op.Start? {
        RemoveKeeps(m, op.slot);
        var q, f := Remove(m.queue, op.slot), Entry(op.slot, op.timeout);
        InsertPlace(q, f);
        var i :| 0 <= i < |q| && q[i] == e;
        assert Insert(q, f)[if i < Place(q, f.timeout) then i else i + 1] == e;
      }
    }
  }

  lemma RemoveSpares(m: Mgr, slot: int, e: Entry)
    requires m.Inv() && e in m.queue && e.slot != slot
    ensures e in Remove(m.queue, slot)
  {
    if m.Running(slot) {
      var k :| 0 <= k < |m.queue| && m.queue[k].slot == slot;
      RemovePlace(m.queue, k);
      var i :| 0 <= i < |m.queue| && m.queue[i] == e;
      assert Remove(m.queue, slot)[if i < k then i else i - 1] == e;
    } else {
      RemoveAbsent(m.queue, slot);
    }
  }

  lemma {:induction false} PerformKeeps(m: Mgr, ops: seq<Op>, waiting: seq<Entry>)
    requires m.Inv() && AllLegal(m, ops) && Avoids(ops, Slots(waiting))
    requires forall e :: e in waiting ==> e in m.queue
    ensures Perform(m, ops).Inv()
    ensures forall e :: e in waiting ==> e in Perform(m, ops).queue
    decreases ops
  {
    if ops == [] {
    } else {
      var op := ops[0];
      StepKeeps(m, op);
      forall e | e in waiting
        ensures e in Step(m, op).queue
      {
        var i :| 0 <= i < |waiting| && waiting[i] == e;
        assert Slots(waiting)[i] == e.slot;
        StepAvoids(m, op, e);
      }
      assert forall k :: 0 <= k < |ops[1..]| ==> ops[1..][k] == ops[k + 1];
      PerformKeeps(Step(m, op), ops[1..], waiting);
    }
  }

  // ---------- The order of ties ----------

  ghost predicate Before(q: seq<Entry>, a: Entry, b: Entry) {
    exists i, j :: 0 <= i < j < |q| && q[i] == a && q[j] == b
  }

  lemma RemoveBefore(m: Mgr, slot: int, a: Entry, b: Entry)
    requires m.Inv() && Before(m.queue, a, b) && slot != a.slot && slot != b.slot
    ensures Before(Remove(m.queue, slot), a, b)
  {
    var i, j :| 0 <= i < j < |m.queue| && m.queue[i] == a && m.queue[j] == b;
    if m.Running(slot) {
      var k :| 0 <= k < |m.queue| && m.queue[k].slot == slot;
      RemovePlace(m.queue, k);
      var r := Remove(m.queue, slot);
      assert r[if i < k then i else i - 1] == a && r[if j < k then j else j - 1] == b;
    } else {
      RemoveAbsent(m.queue, slot);
    }
  }

  lemma InsertBefore(q: seq<Entry>, e: Entry, a: Entry, b: Entry)
    requires Sorted(q) && Before(q, a, b)
    ensures Before(Insert(q, e), a, b)
  {
    var i, j :| 0 <= i < j < |q| && q[i] == a && q[j] == b;
    var k, r := Place(q, e.timeout), Insert(q, e);
    InsertPlace(q, e);
    assert r[if i < k then i else i + 1] == a && r[if j < k then j else j + 1] == b;
  }

  // An operation on other timers leaves two of them in their order.
  lemma StepBefore(m: Mgr, op: Op, a: Entry, b: Entry)
    requires m.Inv() && Legal(m, op) && Before(m.queue, a, b) && (op.Add? || (op.slot != a.slot && op.slot != b.slot))
    ensures Before(Step(m, op).queue, a, b)
  {
    hide Before;
    if !op.Add? {
      RemoveBefore(m, op.slot, a, b);
      if op.Start? {
        RemoveKeeps(m, op.slot);
        InsertBefore(Remove(m.queue, op.slot), Entry(op.slot, op.timeout), a, b);
      }
    }
  }

  lemma {:induction false} PerformBefore(m: Mgr, ops: seq<Op>, a: Entry, b: Entry)
    requires m.Inv() && AllLegal(m, ops) && Before(m.queue, a, b) && Avoids(ops, [a.slot, b.slot])
    ensures Before(Perform(m, ops).queue, a, b)
    decreases ops
  {
    hide Before;
    if ops == [] {
    } else {
      assert ops[0].Add? || (ops[0].slot != a.slot && ops[0].slot != b.slot);
      StepKeeps(m, ops[0]);
      StepBefore(m, ops[0], a, b);
      assert forall k :: 0 <= k < |ops[1..]| ==> ops[1..][k] == ops[k + 1];
      PerformBefore(Step(m, ops[0]), ops[1..], a, b);
    }
  }

  lemma StartRuns(m: Mgr, e: Entry)
    requires m.Inv() && m.Live(e.slot)
    ensures e in Step(m, Start(e.slot, e.timeout)).queue
  {
    var q := Remove(m.queue, e.slot);
    RemoveKeeps(m, e.slot);
    InsertPlace(q, e);
    assert Insert(q, e)[Place(q, e.timeout)] == e;
  }

  // A timer started stands behind another one that is due no later.
  lemma StartBehind(m: Mgr, a: Entry, b: Entry)
    requires m.Inv() && a in m.queue && m.Live(b.slot) && a.slot != b.slot && a.timeout <= b.timeout
    ensures Before(Step(m, Start(b.slot, b.timeout)).queue, a, b)
  {
    var q := Remove(m.queue, b.slot);
    RemoveSpares(m, b.slot, a);
    RemoveKeeps(m, b.slot);
    InsertPlace(q, b);
    PlaceSplits(q, b.timeout);
    var i :| 0 <= i < |q| && q[i] == a;
    assert Insert(q, b)[i] == a && Insert(q, b)[Place(q, b.timeout)] == b;
  }

  lemma {:induction false} PerformConcat(m: Mgr, xs: seq<Op>, ys: seq<Op>)
    ensures Perform(m, xs + ys) == Perform(Perform(m, xs), ys)
    ensures AllLegal(m, xs + ys) <==> AllLegal(m, xs) && AllLegal(Perform(m, xs), ys)
    decreases xs
  {
    if xs == [] {
      assert xs + ys == ys;
    } else {
      assert (xs + ys)[1..] == xs[1..] + ys;
      PerformConcat(Step(m, xs[0]), xs[1..], ys);
    }
  }

  // A timer that nobody touches stays where it is due.
  lemma PerformSpares(m: Mgr, ops: seq<Op>, a: Entry)
    requires m.Inv() && AllLegal(m, ops) && a in m.queue && Avoids(ops, [a.slot])
    ensures Perform(m, ops).Inv() && a in Perform(m, ops).queue
  {
    assert Slots([a]) == [a.slot];
    PerformKeeps(m, ops, [a]);
  }

  // Equal timeouts stay first-in first-out, whatever happens to other timers in between: of two
  // timers due at the same time the one started later stands behind the other as long as nobody
  // names either again.
  lemma TiesAreFifo(m: Mgr, a: Entry, between: seq<Op>, b: Entry, after: seq<Op>)
    requires m.Inv() && a.timeout == b.timeout && a.slot != b.slot
    requires Avoids(between, [a.slot]) && Avoids(after, [a.slot, b.slot])
    requires AllLegal(m, [Start(a.slot, a.timeout)] + between + [Start(b.slot, b.timeout)] + after)
    ensures Before(Perform(m, [Start(a.slot, a.timeout)] + between + [Start(b.slot, b.timeout)] + after).queue, a, b)
  {
    hide Before, Avoids;
    var x, y := Start(a.slot, a.timeout), Start(b.slot, b.timeout);
    PerformConcat(m, [x] + between + [y], after);
    PerformConcat(m, [x] + between, [y]);
    PerformConcat(m, [x], between);
    PerformOne(m, x);
    StartRuns(m, a);
    StepKeeps(m, x);
    PerformSpares(Step(m, x), between, a);
    var m2 := Perform(Step(m, x), between);
    PerformOne(m2, y);
    StartBehind(m2, a, b);
    StepKeeps(m2, y);
    PerformBefore(Step(m2, y), after, a, b);
  }

  lemma PerformOne(m: Mgr, op: Op)
    ensures Perform(m, [op]) == Step(m, op) && (AllLegal(m, [op]) <==> Legal(m, op))
  {
    assert [op][1..] == [];
  }

  ghost function Slots(es: seq<Entry>): seq<int> {
    seq(|es|, i requires 0 <= i < |es| => es[i].slot)
  }

  // One turn of the expiry loop is legal, and leaves the timers still to be fired running.
  lemma FireTurn(m: Mgr, due: seq<Entry>, callbacks: seq<seq<Op>>)
    requires due != [] && m.Inv() && Apart(due) && forall e :: e in due ==> e in m.queue
    requires Courteous(m, Slots(due), callbacks)
    ensures m.Live(due[0].slot) && Apart(due[1..]) && Slots(due)[1..] == Slots(due[1..])
    ensures var m1, ops := Step(m, Stop(due[0].slot)), First(callbacks);
      && m1.Inv() && AllLegal(m1, ops) && Avoids(ops, Slots(due[1..])) && Perform(m1, ops).Inv()
      && (forall e :: e in due[1..] ==> e in m1.queue && e in Perform(m1, ops).queue)
  {
    var rest, ops := due[1..], First(callbacks);
    var m1 := Step(m, Stop(due[0].slot));
    assert Slots(due)[1..] == Slots(rest);
    assert due[0] in due && due[0] in m.queue;
    StepKeeps(m, Stop(due[0].slot));
    forall e | e in rest
      ensures e in m1.queue
    {
      var i :| 0 <= i < |rest| && rest[i] == e;
      assert due[i + 1] == e && e in due;
      StepAvoids(m, Stop(due[0].slot), e);
    }
    PerformKeeps(m1, ops, rest);
  }

  // Expiry fires a prefix of the due timers, each while it is running and each once; it fires
  // all of them exactly when no callback but the last hands out its own slot again; and the
  // timers it did not fire keep their place in the queue.
  lemma {:induction false} FireMeaning(m: Mgr, due: seq<Entry>, callbacks: seq<seq<Op>>)
    requires m.Inv() && Apart(due) && forall e :: e in due ==> e in m.queue
    requires Courteous(m, Slots(due), callbacks)
    ensures var (fired, after) := Fire(m, Slots(due), callbacks);
      && fired <= Slots(due) && (due != [] ==> fired != []) && after.Inv()
      && (fired == Slots(due) <==> !Reuses(m, Slots(due), callbacks))
      && forall i :: |fired| <= i < |due| ==> due[i] in after.queue
    decreases due
  {
    if due == [] {
    } else {
      var m1, ops := Step(m, Stop(due[0].slot)), First(callbacks);
      FireTurn(m, due, callbacks);
      if !Reissues(m1, ops, due[0].slot) {
        FireMeaning(Perform(m1, ops), due[1..], Rest(callbacks));
      }
    }
  }

  // A live slot is handed out again only after it was deleted, so a callback that does not
  // delete its own timer never cuts an expiry short.
  lemma {:induction false} ReissueNeedsDelete(m: Mgr, ops: seq<Op>, slot: int)
    requires m.Inv() && AllLegal(m, ops) && m.Live(slot) && Reissues(m, ops, slot)
    ensures Delete(slot) in ops
    decreases ops
  {
    var op := ops[0];
    if op == Delete(slot) {
    } else {
      StepKeeps(m, op);
      assert Step(m, op).Live(slot);
      ReissueNeedsDelete(Step(m, op), ops[1..], slot);
    }
  }

  // An expiry fires every due timer when no callback deletes the timer it was called for.
  lemma {:induction false} NoDeleteFiresAll(m: Mgr, due: seq<Entry>, callbacks: seq<seq<Op>>)
    requires m.Inv() && Apart(due) && forall e :: e in due ==> e in m.queue
    requires Courteous(m, Slots(due), callbacks)
    requires forall k :: 0 <= k < |due| && k < |callbacks| ==> Delete(due[k].slot) !in callbacks[k]
    ensures !Reuses(m, Slots(due), callbacks) && Fire(m, Slots(due), callbacks).0 == Slots(due)
    decreases due
  {
    if due == [] {
    } else {
      var m1, ops := Step(m, Stop(due[0].slot)), First(callbacks);
      FireTurn(m, due, callbacks);
      if Reissues(m1, ops, due[0].slot) {
        ReissueNeedsDelete(m1, ops, due[0].slot);
      }
      assert forall k :: 0 <= k < |due[1..]| && k < |Rest(callbacks)| ==> due[1..][k] == due[k + 1] && Rest(callbacks)[k] == callbacks[k + 1];
      NoDeleteFiresAll(Perform(m1, ops), due[1..], Rest(callbacks));
      FireMeaning(m, due, callbacks);
    }
  }

  // A timer's callback that deletes it and adds another gets its own slot from an exhausted pool.
  lemma OwnSlotBack(m: Mgr, slot: int)
    requires m.free == [] && 0 <= slot < m.size
    ensures Reissues(m, [Delete(slot), Add], slot) && AllLegal(m, [Delete(slot), Add])
  {
    var ops, m2 := [Delete(slot), Add], Step(m, Delete(slot));
    assert ops[1..] == [Add] && ops[1..][1..] == [];
    assert m2.free == [slot] && Reissues(m2, ops[1..], slot) && AllLegal(m2, ops[1..]);
  }

  // Of two timers that are due, the second is not fired when the callback of the first does that.
  lemma CutShort()
    ensures var m, callbacks := Mgr(2, [], [Entry(0, 5), Entry(1, 5)]), [[Delete(0), Add]];
      && m.Inv() && Due(m.queue, 5) == [0, 1] && Courteous(m, [0, 1], callbacks) && Fire(m, [0, 1], callbacks).0 == [0]
  {
    var m := Mgr(2, [], [Entry(0, 5), Entry(1, 5)]);
    assert m.queue[1..] == [Entry(1, 5)] && m.queue[1..][1..] == [];
    OwnSlotBack(Step(m, Stop(0)), 0);
    hide Reissues, AllLegal;
  }
}
