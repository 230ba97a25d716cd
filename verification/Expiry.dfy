// lib/core/ogs-timer.c: asking for the next deadline, and firing the timers that are due.
module Expiry {
  import opened RbShape
  import opened TimerSpec
  import T = Timer
  import L = List

  // ogs_timer_mgr_next: -1 when nothing is running, 0 when the earliest timer is due, and
  // otherwise the exact time until then.
  method NextGap(m: T.Manager, current: int) returns (gap: int)
    requires m.Valid()
    ensures gap == if m.View().queue == [] then -1
                   else if m.View().queue[0].timeout <= current then 0
                   else m.View().queue[0].timeout - current
    ensures gap > 0 ==> Due(m.View().queue, current + gap) != [] && Due(m.View().queue, current + gap - 1) == []
  {
    var rbnode := m.tree.First();
    if rbnode != null {
      assert rbnode in m.tree.Contents();
      var this_ := m.timers[rbnode.entry];
      if this_.timeout > current {
        return this_.timeout - current;
      } else {
        return 0;
      }
    }
    return -1;
  }

  // The i-th node of the tree, null at its end, is the tree node of the i-th timer of the queue.
  ghost function NodeAt(m: T.Manager, i: nat): (n: Node?)
    requires m.Valid()
    reads m.pool, m.pool.free, m.pool.index, m.tree, m.tree.links.Keys, m.timers
    ensures n == null <==> i >= |m.View().queue|
    ensures n != null ==>
      n.entry < |m.timers| == |m.ln| && Entry(n.entry, m.timers[n.entry].timeout) == m.View().queue[i]
  {
    if i < |m.tree.Contents()| then
      assert m.tree.Contents()[i] in m.tree.Contents();
      m.tree.Contents()[i]
    else null
  }

  // The state of the first loop after k turns; v is the manager at its start.
  ghost predicate Collecting(list: L.List, m: T.Manager, k: nat, v: Mgr, current: int)
    reads list, list.nodes, m.pool, m.pool.free, m.pool.index, m.tree, m.tree.links.Keys, m.timers
  {
    && m.Valid() && m.View() == v && list.Valid() && k == |list.nodes| <= |v.queue|
    && forall i :: 0 <= i < k ==>
         && v.queue[i].timeout <= current
         && 0 <= v.queue[i].slot < |m.ln| && m.ln[v.queue[i].slot] == list.nodes[i]
  }

  // The k-th timer is not in the list yet.
  lemma Unlisted(list: L.List, m: T.Manager, k: nat, v: Mgr, current: int)
    requires Collecting(list, m, k, v, current) && k < |v.queue| && 0 <= v.queue[k].slot < |m.ln|
    ensures m.ln[v.queue[k].slot] !in list.nodes && forall n :: n in list.nodes ==> n in m.ln
  {
    m.TreeNodes(m.Run());
    forall i | 0 <= i < k
      ensures list.nodes[i] != m.ln[v.queue[k].slot] && list.nodes[i] in m.ln
    {
      assert m.ln[v.queue[i].slot] == list.nodes[i];
    }
  }

  // ogs_list_add of a timer's list node
  method Append(m: T.Manager, list: L.List, slot: nat)
    requires m.Valid() && list.Valid() && slot < |m.ln| && m.ln[slot] !in list.nodes
    modifies list, m.ln[slot], list.nodes
    ensures m.Valid() && m.View() == old(m.View()) && m.tree.Contents() == old(m.tree.Contents())
    ensures list.Valid() && list.nodes == old(list.nodes) + [m.ln[slot]]
  {
    list.Add(m.timers[slot].lnode);
  }

  // ogs_list_add of the k-th timer of the queue
  method AppendNext(m: T.Manager, list: L.List, rbnode: Node, ghost k: nat, ghost v: Mgr, current: int)
    requires Collecting(list, m, k, v, current) && NodeAt(m, k) == rbnode && v.queue[k].timeout <= current
    modifies list, m.ln
    ensures Collecting(list, m, k + 1, v, current) && m.tree.Contents() == old(m.tree.Contents())
  {
    Unlisted(list, m, k, v, current);
    Append(m, list, rbnode.entry);
  }

  // One turn of the first loop of ogs_timer_mgr_expire.
  method CollectTurn(m: T.Manager, list: L.List, rbnode: Node, ghost k: nat, ghost v: Mgr, current: int)
    returns (next: Node?, stop: bool)
    requires Collecting(list, m, k, v, current) && NodeAt(m, k) == rbnode
    modifies list, m.ln
    ensures stop <==> v.queue[k].timeout > current
    ensures Collecting(list, m, if stop then k else k + 1, v, current) && (!stop ==> next == NodeAt(m, k + 1))
  {
    var this_ := m.timers[rbnode.entry];
    if this_.timeout > current {
      return null, true;
    }
    AppendNext(m, list, rbnode, k, v, current);
    next := m.tree.Next(rbnode, k);
    return next, false;
  }

  // The first loop of ogs_timer_mgr_expire.
  method Collect(m: T.Manager, list: L.List, current: int, ghost v: Mgr) returns (ghost k: nat)
    requires Collecting(list, m, 0, v, current)
    modifies m.ln, list
    ensures Collecting(list, m, k, v, current) && Due(v.queue, current) == Slots(v.queue[..k])
  {
    k := 0;
    var rbnode := m.tree.First();
    while rbnode != null
      invariant Collecting(list, m, k, v, current) && rbnode == NodeAt(m, k)
      decreases |v.queue| - k
    {
      var next, stop := CollectTurn(m, list, rbnode, k, v, current);
      if stop {
        break;
      }
      rbnode := next;
      k := k + 1;
    }
    DueIs(v.queue, current, k);
  }

  // What one operation does to the links of the expiry list.
  ghost predicate Relinked(was: seq<L.LNode?>, is_: seq<L.LNode?>, m: Mgr, ops: seq<Op>) {
    |was| == |is_| && forall s :: 0 <= s < |was| ==> is_[s] == if Reissues(m, ops, s) then null else was[s]
  }

  lemma RelinkedTwice(a: seq<L.LNode?>, b: seq<L.LNode?>, c: seq<L.LNode?>, m: Mgr, m1: Mgr, ops: seq<Op>)
    requires ops != [] && m1 == Step(m, ops[0]) && Relinked(a, b, m, [ops[0]]) && Relinked(b, c, m1, ops[1..])
    ensures Relinked(a, c, m, ops)
  {
    forall s | 0 <= s < |a|
      ensures Reissues(m, ops, s) <==> Reissues(m, [ops[0]], s) || Reissues(m1, ops[1..], s)
    {
      assert [ops[0]][1..] == [];
    }
  }

  ghost function Nexts(m: T.Manager): seq<L.LNode?>
    reads m.ln
  {
    seq(|m.ln|, i requires 0 <= i < |m.ln| reads m.ln => m.ln[i].next)
  }

  method DoAdd(m: T.Manager)
    requires m.Valid()
    modifies m.pool, m.pool.free, m.pool.index, m.timers, m.rb, m.ln
    ensures m.Valid() && m.View() == Step(old(m.View()), Add)
    ensures Relinked(old(Nexts(m)), Nexts(m), old(m.View()), [Add])
  {
    var slot := m.Add();
  }

  method DoStart(m: T.Manager, slot: int, timeout: int)
    requires m.Valid() && m.View().Live(slot)
    modifies m.timers, m.tree, m.rb
    ensures m.Valid() && m.View() == Step(old(m.View()), Start(slot, timeout))
  {
    m.KeysInRb();
    m.Start(slot, 1, timeout - 1);
  }

  method DoDelete(m: T.Manager, slot: int)
    requires m.Valid() && m.View().Live(slot)
    modifies m.pool, m.pool.free, m.pool.index, m.timers, m.tree, m.rb
    ensures m.Valid() && m.View() == Step(old(m.View()), Delete(slot))
  {
    m.KeysInRb();
    m.Delete(slot);
  }

  method DoStop(m: T.Manager, slot: int)
    requires m.Valid() && m.View().Live(slot)
    modifies m.timers, m.tree, m.rb
    ensures m.Valid() && m.View() == Step(old(m.View()), Stop(slot))
  {
    m.KeysInRb();
    m.Stop(slot);
  }

  // One operation of a callback.
  method Do(m: T.Manager, op: Op)
    requires m.Valid() && Legal(m.View(), op)
    modifies m.pool, m.pool.free, m.pool.index, m.timers, m.tree, m.rb, m.ln
    ensures m.Valid() && m.View() == Step(old(m.View()), op)
    ensures Relinked(old(Nexts(m)), Nexts(m), old(m.View()), [op])
  {
    match op
    case Add => DoAdd(m);
    case Delete(s) => DoDelete(m, s);
    case Start(s, t) => DoStart(m, s, t);
    case Stop(s) => DoStop(m, s);
  }

  // A callback, operation by operation.
  method Call(m: T.Manager, ops: seq<Op>)
    requires m.Valid() && AllLegal(m.View(), ops)
    modifies m.pool, m.pool.free, m.pool.index, m.timers, m.tree, m.rb, m.ln
    ensures m.Valid() && m.View() == Perform(old(m.View()), ops)
    ensures Relinked(old(Nexts(m)), Nexts(m), old(m.View()), ops)
    decreases ops
  {
    if ops != [] {
      ghost var n0, v0 := Nexts(m), m.View();
      Do(m, ops[0]);
      ghost var n1, v1 := Nexts(m), m.View();
      Call(m, ops[1..]);
      RelinkedTwice(n0, n1, Nexts(m), v0, v1, ops);
    }
  }

  // The walk stands at lnode, with the timers of wait still to be fired.
  ghost predicate Linked(ln: seq<L.LNode>, next: seq<L.LNode?>, lnode: L.LNode?, wait: seq<Entry>) {
    && |next| == |ln| && (forall i :: 0 <= i < |wait| ==> 0 <= wait[i].slot < |ln|)
    && lnode == (if wait == [] then null else ln[wait[0].slot])
    && forall i :: 0 <= i < |wait| ==>
         next[wait[i].slot] == if i + 1 < |wait| then ln[wait[i + 1].slot] else null
  }

  ghost predicate Waiting(v: Mgr, wait: seq<Entry>, callbacks: seq<seq<Op>>) {
    && v.Inv() && Apart(wait) && (forall e :: e in wait ==> e in v.queue)
    && Courteous(v, Slots(wait), callbacks)
  }

  // What is left to fire after the first timer.
  ghost function Left(v: Mgr, wait: seq<Entry>, callbacks: seq<seq<Op>>): seq<Entry>
    requires wait != []
  {
    if Reissues(Step(v, Stop(wait[0].slot)), First(callbacks), wait[0].slot) then [] else wait[1..]
  }

  // After a callback the node of its timer leads to what is left to fire.
  lemma TurnLinked(ln: seq<L.LNode>, was: seq<L.LNode?>, next: seq<L.LNode?>, lnode: L.LNode?, wait: seq<Entry>,
                   v: Mgr, callbacks: seq<seq<Op>>)
    requires wait != [] && Linked(ln, was, lnode, wait) && Waiting(v, wait, callbacks)
    requires Relinked(was, next, Step(v, Stop(wait[0].slot)), First(callbacks))
    ensures Linked(ln, next, next[wait[0].slot], Left(v, wait, callbacks))
  {
    var m1, ops, rest := Step(v, Stop(wait[0].slot)), First(callbacks), wait[1..];
    FireTurn(v, wait, callbacks);
    forall i | 0 <= i < |rest|
      ensures !Reissues(m1, ops, rest[i].slot)
      ensures next[rest[i].slot] == if i + 1 < |rest| then ln[rest[i + 1].slot] else null
    {
      assert was[wait[i + 1].slot] == if i + 2 < |wait| then ln[wait[i + 2].slot] else null;
      assert rest[i] in rest && Slots(rest)[i] == rest[i].slot;
      var k :| 0 <= k < |m1.queue| && m1.queue[k] == rest[i];
      if Reissues(m1, ops, rest[i].slot) {
        ReissueNeedsDelete(m1, ops, rest[i].slot);
      }
    }
    assert was[wait[0].slot] == if 1 < |wait| then ln[wait[1].slot] else null;
    var l := Left(v, wait, callbacks);
    if l != [] {
      assert l == rest && Linked(ln, next, next[wait[0].slot], rest);
    }
  }

  // One turn of the second loop, on the specification.
  lemma TurnMeaning(v: Mgr, wait: seq<Entry>, callbacks: seq<seq<Op>>)
    requires wait != [] && Waiting(v, wait, callbacks)
    ensures var m1, ops := Step(v, Stop(wait[0].slot)), First(callbacks);
      var after, rest := Perform(m1, ops), Left(v, wait, callbacks);
      && v.Live(wait[0].slot) && AllLegal(m1, ops) && Waiting(after, rest, Rest(callbacks))
      && Fire(v, Slots(wait), callbacks) ==
           ([wait[0].slot] + Fire(after, Slots(rest), Rest(callbacks)).0, Fire(after, Slots(rest), Rest(callbacks)).1)
  {
    FireTurn(v, wait, callbacks);
    assert Slots([]) == [] && [wait[0].slot] + [] == [wait[0].slot];
  }

  // One turn of the second loop: ogs_timer_stop, the callback, and only then the next link.
  method FireOne(m: T.Manager, lnode: L.LNode, callbacks: seq<seq<Op>>, ghost v: Mgr, ghost wait: seq<Entry>)
    returns (next: L.LNode?)
    requires m.Valid() && v == m.View() && wait != []
    requires Waiting(v, wait, callbacks) && Linked(m.ln, Nexts(m), lnode, wait)
    modifies m.pool, m.pool.free, m.pool.index, m.timers, m.tree, m.rb, m.ln
    ensures m.Valid() && m.View() == Perform(Step(v, Stop(wait[0].slot)), First(callbacks))
    ensures Linked(m.ln, Nexts(m), next, Left(v, wait, callbacks))
  {
    TurnMeaning(v, wait, callbacks);
    DoStop(m, lnode.entry);
    Call(m, if callbacks == [] then [] else callbacks[0]);
    TurnLinked(m.ln, old(Nexts(m)), Nexts(m), lnode, wait, v, callbacks);
    next := lnode.next;
  }

  // The list of the first loop is where the second one starts.
  lemma CollectedLinked(list: L.List, m: T.Manager, due: seq<Entry>)
    requires list.Valid() && |list.nodes| == |due|
    requires forall i :: 0 <= i < |due| ==> 0 <= due[i].slot < |m.ln| && m.ln[due[i].slot] == list.nodes[i]
    ensures Linked(m.ln, Nexts(m), list.next, due)
  {
    var nodes := list.nodes;
    forall i | 0 <= i < |due|
      ensures Nexts(m)[due[i].slot] == if i + 1 < |due| then m.ln[due[i + 1].slot] else null
    {
      L.Follow(nodes, i);
      assert Nexts(m)[due[i].slot] == nodes[i].next;
    }
  }

  // Fire, when the timers of done have been fired and what is left is wait.
  ghost predicate Halfway(whole: (seq<int>, Mgr), done: seq<int>, v: Mgr, wait: seq<Entry>, callbacks: seq<seq<Op>>) {
    var (fired, after) := Fire(v, Slots(wait), callbacks);
    whole == (done + fired, after)
  }

  lemma HalfwayTurn(whole: (seq<int>, Mgr), done: seq<int>, v: Mgr, wait: seq<Entry>, callbacks: seq<seq<Op>>)
    requires Halfway(whole, done, v, wait, callbacks)
    requires wait != [] ==> Waiting(v, wait, callbacks)
    ensures wait == [] ==> whole == (done, v)
    ensures wait != [] ==>
      var after := Perform(Step(v, Stop(wait[0].slot)), First(callbacks));
      && Halfway(whole, done + [wait[0].slot], after, Left(v, wait, callbacks), Rest(callbacks))
      && Waiting(after, Left(v, wait, callbacks), Rest(callbacks))
  {
    if wait == [] {
      assert Slots(wait) == [] && done + [] == done;
    } else {
      TurnMeaning(v, wait, callbacks);
      var after, rest := Perform(Step(v, Stop(wait[0].slot)), First(callbacks)), Left(v, wait, callbacks);
      var tail := Fire(after, Slots(rest), Rest(callbacks)).0;
      assert done + ([wait[0].slot] + tail) == done + [wait[0].slot] + tail;
    }
  }

  // The second loop of ogs_timer_mgr_expire; fired lists the timers whose callback was called.
  method FireAll(m: T.Manager, first: L.LNode?, callbacks: seq<seq<Op>>, ghost v: Mgr, ghost due: seq<Entry>)
    returns (fired: seq<int>)
    requires m.Valid() && v == m.View() && Waiting(v, due, callbacks) && Linked(m.ln, Nexts(m), first, due)
    modifies m.pool, m.pool.free, m.pool.index, m.timers, m.tree, m.rb, m.ln
    ensures m.Valid() && (fired, m.View()) == Fire(v, Slots(due), callbacks)
  {
    fired := [];
    var lnode, rest := first, callbacks;
    ghost var wait := due;
    assert [] + Fire(v, Slots(due), callbacks).0 == Fire(v, Slots(due), callbacks).0;
    while lnode != null
      invariant m.Valid() && Waiting(m.View(), wait, rest) && Linked(m.ln, Nexts(m), lnode, wait)
      invariant Halfway(Fire(v, Slots(due), callbacks), fired, m.View(), wait, rest)
      decreases |wait|
    {
      ghost var v0 := m.View();
      HalfwayTurn(Fire(v, Slots(due), callbacks), fired, v0, wait, rest);
      fired := fired + [lnode.entry];
      lnode := FireOne(m, lnode, rest, v0, wait);
      wait := Left(v0, wait, rest);
      rest := if rest == [] then [] else rest[1..];
    }
    HalfwayTurn(Fire(v, Slots(due), callbacks), fired, m.View(), wait, rest);
  }

  // ogs_timer_mgr_expire, where callbacks[k] is what the k-th callback does.
  method Expire(m: T.Manager, current: int, callbacks: seq<seq<Op>>) returns (fired: seq<int>)
    requires m.Valid() && Courteous(m.View(), Due(m.View().queue, current), callbacks)
    modifies m.pool, m.pool.free, m.pool.index, m.timers, m.tree, m.rb, m.ln
    ensures m.Valid() && (fired, m.View()) == Fire(old(m.View()), Due(old(m.View()).queue, current), callbacks)
    ensures Fires(old(m.View()), current, callbacks, fired)
  {
    hide Fire, Courteous, Shape.Nodes;
    ghost var v := m.View();
    var list := new L.List();
    ghost var k := Collect(m, list, current, v);
    CollectedLinked(list, m, v.queue[..k]);
    m.TreeNodes(m.Run());
    fired := FireAll(m, list.next, callbacks, v, v.queue[..k]);
    FiresDue(v, current, callbacks, k);
  }

  // The timers fired are due, the earliest first and none twice; and they are all that are due
  // exactly when no callback but the last has its own slot issued again.
  ghost predicate Fires(v: Mgr, current: int, callbacks: seq<seq<Op>>, fired: seq<int>) {
    var n := |Due(v.queue, current)|;
    && |fired| <= n <= |v.queue|
    && (forall i :: 0 <= i < |v.queue| ==> (i < n <==> v.queue[i].timeout <= current))
    && (forall i :: 0 <= i < |fired| ==> fired[i] == v.queue[i].slot)
    && (n > 0 ==> fired != [])
    && (|fired| == n <==> !Reuses(v, Due(v.queue, current), callbacks))
  }

  lemma FiresDue(v: Mgr, current: int, callbacks: seq<seq<Op>>, k: nat)
    requires v.Inv() && k <= |v.queue| && Due(v.queue, current) == Slots(v.queue[..k])
    requires Courteous(v, Due(v.queue, current), callbacks)
    ensures Fires(v, current, callbacks, Fire(v, Due(v.queue, current), callbacks).0)
  {
    DueExact(v.queue, current);
    FireMeaning(v, v.queue[..k], callbacks);
    var due, fired := Slots(v.queue[..k]), Fire(v, Slots(v.queue[..k]), callbacks).0;
    assert |fired| == |due| <==> fired == due;
    assert forall i :: 0 <= i < |fired| ==> fired[i] == due[i];
  }
}
