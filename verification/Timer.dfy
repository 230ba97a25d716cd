// lib/core/ogs-timer.c: timers in a pool, the running ones in a red-black tree by deadline.
module Timer {
  import opened Prelude
  import opened RbShape
  import opened RbTree
  import opened TimerSpec
  import P = Pool
  import L = List
  import RbBalance
  import RbLinks

  // ogs_timer_t.  Its tree node and its list node name the timer by its slot.
  class Timer {
    const rbnode: Node
    const lnode: L.LNode
    var running: bool
    var timeout: int

    constructor (slot: nat)
      ensures rbnode.entry == slot && lnode.entry == slot && fresh(rbnode) && fresh(lnode)
    {
      rbnode := new Node(slot);
      lnode := new L.LNode(slot);
      running := false;
      timeout := 0;
    }
  }

  // Nodes as queue entries, where when[slot] is the deadline of that slot's timer.
  ghost function Entries(s: seq<Node>, when: seq<int>): seq<Entry>
    requires InRange(s, |when|)
  {
    seq(|s|, i requires 0 <= i < |s| => assert s[i] in s; Entry(s[i].entry, when[s[i].entry]))
  }

  ghost predicate InRange(s: seq<Node>, n: nat) {
    forall x :: x in s ==> x.entry < n
  }

  // Taking a node out of the tree takes its timer out of the queue.
  lemma {:induction false} EntriesWithout(s: seq<Node>, x: Node, when: seq<int>)
    requires InRange(s, |when|) && forall y :: y in s && y.entry == x.entry ==> y == x
    ensures InRange(RbBalance.Without(s, x), |when|)
    ensures Entries(RbBalance.Without(s, x), when) == Remove(Entries(s, when), x.entry)
    decreases s
  {
    if s == [] {
    } else {
      assert s[0] in s && s == [s[0]] + s[1..];
      assert Entries(s, when) == [Entry(s[0].entry, when[s[0].entry])] + Entries(s[1..], when);
      if s[0] != x {
        EntriesWithout(s[1..], x, when);
      }
    }
  }

  // A node put between the timers due no later and those due later is where Insert puts it.
  lemma {:induction false} EntriesInsert(a: seq<Node>, x: Node, b: seq<Node>, when: seq<int>)
    requires InRange(a + b, |when|) && x.entry < |when|
    requires forall y :: y in a ==> y.entry < |when| && when[y.entry] <= when[x.entry]
    requires b != [] ==> b[0].entry < |when| && when[x.entry] < when[b[0].entry]
    ensures InRange(a + [x] + b, |when|)
    ensures Entries(a + [x] + b, when) == Insert(Entries(a + b, when), Entry(x.entry, when[x.entry]))
    decreases a
  {
    var e := Entry(x.entry, when[x.entry]);
    if a == [] {
      assert a + b == b && a + [x] + b == [x] + b;
      assert b != [] ==> b[0] in b;
      assert Entries([x] + b, when) == [e] + Entries(b, when);
    } else {
      assert a[0] in a && a + b == [a[0]] + (a[1..] + b) && a + [x] + b == [a[0]] + (a[1..] + [x] + b);
      EntriesInsert(a[1..], x, b, when);
      var f := Entry(a[0].entry, when[a[0].entry]);
      assert Entries(a + b, when) == [f] + Entries(a[1..] + b, when);
      assert Entries(a + [x] + b, when) == [f] + Entries(a[1..] + [x] + b, when);
    }
  }

  // The manager's data as values: rb[i] is the tree node of timer i, order the tree, free the
  // free slots, when and run what the timers' fields hold.
  ghost predicate Sane(rb: seq<Node>, order: seq<Node>, free: seq<int>, when: seq<int>, run: seq<bool>) {
    && |when| == |run| == |rb| && InRange(order, |rb|)
    && (forall i :: 0 <= i < |rb| ==> rb[i].entry == i)
    && (forall n :: n in order ==> rb[n.entry] == n && run[n.entry] && n.entry !in free)
    && (forall i :: 0 <= i < |rb| && i !in free && run[i] ==> rb[i] in order)
    && Sorted(Entries(order, when))
  }

  lemma AddSane(rb: seq<Node>, order: seq<Node>, free: seq<int>, when: seq<int>, run: seq<bool>, s: int)
    requires Sane(rb, order, free, when, run) && P.Sound(free, |rb|)
    requires free != [] && s == free[0] && 0 <= s < |rb|
    ensures rb[s] !in order && Sane(rb, order, free[1..], when[s := 0], run[s := false])
    ensures Entries(order, when[s := 0]) == Entries(order, when)
  {
    assert s in free;
    SameEntries(order, when, s, 0);
  }

  // The deadline of a timer outside the tree does not matter.
  lemma SameEntries(order: seq<Node>, when: seq<int>, s: int, t: int)
    requires InRange(order, |when|) && 0 <= s < |when| && forall n :: n in order ==> n.entry != s
    ensures Entries(order, when[s := t]) == Entries(order, when)
  {
    forall i | 0 <= i < |order|
      ensures Entries(order, when[s := t])[i] == Entries(order, when)[i]
    {
      assert order[i] in order;
    }
  }

  ghost predicate DistinctNodes(order: seq<Node>) {
    forall i, j :: 0 <= i < j < |order| ==> order[i] != order[j]
  }

  // A running timer leaves the tree.
  lemma StopSane(rb: seq<Node>, order: seq<Node>, free: seq<int>, when: seq<int>, run: seq<bool>, s: int)
    requires Sane(rb, order, free, when, run) && DistinctNodes(order)
    requires 0 <= s < |rb| && rb[s] in order && Apart(Entries(order, when))
    ensures var rest := RbBalance.Without(order, rb[s]);
      Sane(rb, rest, free, when, run[s := false]) && Entries(rest, when) == Remove(Entries(order, when), s)
  {
    var rest, q := RbBalance.Without(order, rb[s]), Entries(order, when);
    EntriesWithout(order, rb[s], when);
    forall n | n in rest
      ensures n in order && n != rb[s]
    {
      RbBalance.WithoutMember(order, rb[s], n);
    }
    forall n | n in order && n != rb[s]
      ensures n in rest
    {
      RbBalance.WithoutMember(order, rb[s], n);
    }
    var k :| 0 <= k < |order| && order[k] == rb[s];
    RemovePlace(q, k);
    DeletedKeeps(q, k, Remove(q, s));
  }

  // A timer that has been stopped can be freed.
  lemma FreeSane(rb: seq<Node>, order: seq<Node>, free: seq<int>, when: seq<int>, run: seq<bool>, s: int)
    requires Sane(rb, order, free, when, run) && 0 <= s < |rb| && !run[s]
    ensures Sane(rb, order, free + [s], when, run)
  {
    assert forall i :: i in free + [s] <==> i in free || i == s;
  }

  // A node joins the tree behind the timers due no later and before those due later.
  lemma StartSane(rb: seq<Node>, a: seq<Node>, b: seq<Node>, free: seq<int>, when: seq<int>, run: seq<bool>, s: int)
    requires Sane(rb, a + b, free, when, run) && 0 <= s < |rb| && s !in free
    requires Splits(a, b, when, when[s])
    ensures Sane(rb, a + [rb[s]] + b, free, when, run[s := true])
    ensures Entries(a + [rb[s]] + b, when) == Insert(Entries(a + b, when), Entry(s, when[s]))
  {
    var x, order := rb[s], a + [rb[s]] + b;
    assert forall n :: n in order <==> n in a + b || n == x;
    assert forall y :: y in a ==> y in a + b;
    assert b != [] ==> b[0] in a + b;
    EntriesInsert(a, x, b, when);
    InsertSorted(Entries(a + b, when), Entry(s, when[s]));
  }

  // Everything in a is due by t, and the first of b later.
  ghost predicate Splits(a: seq<Node>, b: seq<Node>, when: seq<int>, t: int) {
    && (forall y :: y in a ==> y.entry < |when| && when[y.entry] <= t)
    && (b != [] ==> b[0].entry < |when| && t < when[b[0].entry])
  }

  // Going right at a node that is due by t moves it and everything before it to the left part.
  lemma GoRight(a: seq<Node>, l: seq<Node>, x: Node, r: seq<Node>, b: seq<Node>, when: seq<int>, t: int)
    requires InRange(a + (l + [x] + r) + b, |when|) && Sorted(Entries(a + (l + [x] + r) + b, when))
    requires Splits(a, b, when, t) && x.entry < |when| && when[x.entry] <= t
    ensures Splits(a + l + [x], b, when, t)
  {
    var s, k := a + (l + [x] + r) + b, |a| + |l|;
    assert s[k] == x && s[k] in s;
    forall y | y in a + l + [x]
      ensures y.entry < |when| && when[y.entry] <= t
    {
      var i :| 0 <= i < |a + l + [x]| && (a + l + [x])[i] == y;
      assert s[i] == y && s[i] in s;
      var q := Entries(s, when);
      assert i < k ==> q[i].timeout <= q[k].timeout;
    }
  }

  // A timer that is not running stands nowhere in the queue.
  lemma IdleSane(rb: seq<Node>, order: seq<Node>, free: seq<int>, when: seq<int>, run: seq<bool>, s: int)
    requires Sane(rb, order, free, when, run) && 0 <= s < |rb| && !run[s]
    ensures rb[s] !in order && Remove(Entries(order, when), s) == Entries(order, when)
  {
    var q := Entries(order, when);
    forall i | 0 <= i < |q|
      ensures q[i].slot != s
    {
      assert order[i] in order;
    }
    RemoveAbsent(q, s);
  }

  // Starting is taking out, then putting in.
  lemma Restarted(before: Mgr, between: Mgr, after: Mgr, s: int, t: int)
    requires between == before.(queue := Remove(before.queue, s))
    requires after == between.(queue := Insert(between.queue, Entry(s, t)))
    ensures after == Step(before, Start(s, t))
  {
  }

  lemma OrderAround(shape: Shape, c: Ctx)
    requires Fill(c, Leaf) == shape
    ensures shape.Inorder() == c.Before() + c.After()
  {
    FillOrder(c, Leaf);
    assert c.Before() + [] + c.After() == c.Before() + c.After();
  }

  class Manager {
    const pool: P.Pool
    const timers: seq<Timer>  // the array of the pool
    const tree: Tree
    ghost const rb: seq<Node>
    ghost const ln: seq<L.LNode>

    ghost predicate Layout() {
      && |timers| == |rb| == |ln| == pool.size
      && (forall i :: 0 <= i < |timers| ==> timers[i].rbnode == rb[i] && timers[i].lnode == ln[i])
      && (forall i :: 0 <= i < |timers| ==> rb[i].entry == i && ln[i].entry == i)
      && (forall i, j :: 0 <= i < j < |timers| ==> timers[i] != timers[j])
    }

    // The deadlines and the running flags, slot by slot.
    ghost function When(): seq<int>
      reads timers
    {
      seq(|timers|, i requires 0 <= i < |timers| reads timers => timers[i].timeout)
    }

    ghost function Run(): seq<bool>
      reads timers
    {
      seq(|timers|, i requires 0 <= i < |timers| reads timers => timers[i].running)
    }

    // Everything fits together if the running flags were r.
    ghost predicate ValidIf(r: seq<bool>)
      reads pool, pool.free, pool.index, tree, tree.links.Keys, timers
    {
      && Layout() && pool.Valid() && tree.Valid()
      && Sane(rb, tree.Contents(), pool.queue, When(), r)
    }

    ghost predicate Valid()
      reads pool, pool.free, pool.index, tree, tree.links.Keys, timers
    {
      ValidIf(Run())
    }

    ghost function View(): Mgr
      requires InRange(tree.Contents(), |timers|)
      reads pool, tree, timers
    {
      Mgr(pool.size, pool.queue, Entries(tree.Contents(), When()))
    }

    // ogs_timer_mgr_create
    constructor (capacity: nat)
      ensures Valid() && View() == Mgr(capacity, seq(capacity, i => i), [])
    {
      var ts: seq<Timer> := [];
      while |ts| < capacity
        invariant |ts| <= capacity
        invariant forall i :: 0 <= i < |ts| ==> ts[i].rbnode.entry == i && ts[i].lnode.entry == i
        invariant forall i, j :: 0 <= i < j < |ts| ==> ts[i] != ts[j]
      {
        var t := new Timer(|ts|);
        ts := ts + [t];
      }
      timers := ts;
      rb := seq(capacity, i requires 0 <= i < capacity => ts[i].rbnode);
      ln := seq(capacity, i requires 0 <= i < capacity => ts[i].lnode);
      pool := new P.Pool(capacity);
      tree := new Tree();
      new;
      forall i | 0 <= i < capacity
        ensures i in pool.queue
      {
        assert pool.queue[i] == i;
      }
    }

    // memset on the tree node and the list node of a timer outside the tree
    method ClearNodes(slot: int)
      requires Layout() && pool.Valid() && tree.Valid() && 0 <= slot < |timers| && rb[slot] !in tree.links
      modifies rb[slot], ln[slot]
      ensures pool.Valid() && tree.Valid() && tree.Contents() == old(tree.Contents())
      ensures forall s :: 0 <= s < |ln| ==> ln[s].next == if s == slot then null else old(ln[s].next)
    {
      hide P.Pool.Valid, Tree.Valid;
      var t := timers[slot];
      t.rbnode.parent, t.rbnode.left, t.rbnode.right, t.rbnode.color := null, null, null, Black;
      t.lnode.prev, t.lnode.next := null, null;
    }

    // memset(timer, 0, sizeof *timer) on a slot the pool has just handed out
    method Clear(slot: int)
      requires Layout() && pool.Valid() && tree.Valid() && 0 <= slot < |timers| && rb[slot] !in tree.links
      requires Sane(rb, tree.Contents(), pool.queue, When()[slot := 0], Run()[slot := false])
      modifies timers[slot], rb[slot], ln[slot]
      ensures Valid() && When() == old(When())[slot := 0]
      ensures forall s :: 0 <= s < |ln| ==> ln[s].next == if s == slot then null else old(ln[s].next)
    {
      hide Sane, P.Pool.Valid, Tree.Valid;
      ClearNodes(slot);
      timers[slot].running := false;
      timers[slot].timeout := 0;
      assert When() == old(When())[slot := 0];
      assert Run() == old(Run())[slot := false];
    }

    // timer->running = b
    method SetRunning(slot: int, b: bool, ghost r: seq<bool>)
      requires ValidIf(r) && 0 <= slot < |timers|
      modifies timers[slot]
      ensures ValidIf(r) && View() == old(View()) && Run() == old(Run())[slot := b]
    {
      timers[slot].running := b;
      assert When() == old(When());
    }

    // timer->timeout = timeout
    method SetTimeout(slot: int, timeout: int, ghost r: seq<bool>)
      requires ValidIf(r) && View().Live(slot) && !r[slot]
      modifies timers[slot]
      ensures ValidIf(r) && View() == old(View()) && Run() == old(Run()) && When()[slot] == timeout
    {
      IdleSane(rb, tree.Contents(), pool.queue, When(), r, slot);
      SameEntries(tree.Contents(), When(), slot, timeout);
      timers[slot].timeout := timeout;
      assert When() == old(When())[slot := timeout];
    }

    // ogs_timer_add: NONE when the pool is exhausted
    method Add() returns (slot: int)
      requires Valid()
      modifies pool, pool.free, pool.index, timers, rb, ln
      ensures Valid() && View() == Step(old(View()), TimerSpec.Add)
      ensures slot == if old(pool.queue) == [] then NONE else old(pool.queue)[0]
      ensures forall s :: 0 <= s < |ln| ==> ln[s].next == if s == slot then null else old(ln[s].next)
    {
      ghost var free := pool.queue;
      slot := pool.Alloc();
      if slot == NONE {
        return;
      }
      InorderNodes(tree.shape);
      AddSane(rb, tree.Contents(), free, When(), Run(), slot);
      Clear(slot);
    }

    // The tree and the queue of the specification list the same timers.
    lemma TreeNodes(r: seq<bool>)
      requires ValidIf(r)
      ensures tree.links.Keys == set n | n in tree.Contents()
      ensures DistinctNodes(tree.Contents()) && View().Inv()
    {
      InorderNodes(tree.shape);
      var s, q := tree.Contents(), View().queue;
      forall i, j | 0 <= i < j < |s|
        ensures s[i] != s[j]
      {
        InorderInjective(tree.shape, i, j);
      }
      forall i, j | 0 <= i < j < |q|
        ensures q[i].slot != q[j].slot
      {
        assert s[i] in s && s[j] in s;
      }
      forall i | 0 <= i < |q|
        ensures View().Live(q[i].slot)
      {
        assert s[i] in s;
      }
    }

    // ogs_rbtree_delete; the pool and the timers' own fields stay as they are.
    method Unhook(slot: int)
      requires Layout() && 0 <= slot < |rb| && pool.Valid() && tree.Valid() && rb[slot] in tree.links
      modifies tree, tree.links.Keys
      ensures tree.Valid() && tree.Contents() == RbBalance.Without(old(tree.Contents()), rb[slot])
      ensures tree.links.Keys <= old(tree.links.Keys)
      ensures pool.Valid() && When() == old(When()) && Run() == old(Run())
    {
      tree.Delete(timers[slot].rbnode);
    }

    // The tree holds exactly the allocated timers marked running, each at its deadline.
    lemma RunningExactly(slot: int)
      requires Valid() && 0 <= slot < |timers|
      ensures View().Inv()
      ensures View().Running(slot) <==> pool.Live(slot) && timers[slot].running
      ensures View().Running(slot) <==> Entry(slot, timers[slot].timeout) in View().queue
    {
      TreeNodes(Run());
      var s := tree.Contents();
      if View().Running(slot) {
        var i :| 0 <= i < |View().queue| && View().queue[i].slot == slot;
        assert s[i] in s && View().queue[i] == Entry(slot, timers[slot].timeout);
      }
      if pool.Live(slot) && timers[slot].running {
        assert rb[slot] in s;
        var i :| 0 <= i < |s| && s[i] == rb[slot];
        assert View().queue[i].slot == slot;
      }
    }

    lemma KeysInRb()
      requires Valid()
      ensures forall n | n in tree.links.Keys :: n in rb
    {
      TreeNodes(Run());
    }

    // Takes a running timer out of the tree; its running flag is the caller's business.
    method Dequeue(slot: int, ghost r: seq<bool>)
      requires ValidIf(r) && View().Live(slot) && r[slot]
      modifies tree, tree.links.Keys
      ensures ValidIf(r[slot := false]) && tree.links.Keys <= old(tree.links.Keys)
      ensures View() == old(View()).(queue := Remove(old(View()).queue, slot)) && Run() == old(Run())
    {
      TreeNodes(r);
      StopSane(rb, tree.Contents(), pool.queue, When(), r, slot);
      Unhook(slot);
    }

    // ogs_timer_stop
    method Stop(slot: int)
      requires Valid() && View().Live(slot)
      modifies timers, tree, tree.links.Keys
      ensures Valid() && View() == Step(old(View()), TimerSpec.Stop(slot)) && !Run()[slot]
    {
      var s := pool.Cycle(slot);
      var timer := timers[s];
      if !timer.running {
        IdleSane(rb, tree.Contents(), pool.queue, When(), Run(), s);
        return;
      }
      ghost var r := Run();
      SetRunning(s, false, r);
      Dequeue(s, r);
    }

    // ogs_timer_delete
    method Delete(slot: int)
      requires Valid() && View().Live(slot)
      modifies timers, tree, tree.links.Keys, pool, pool.free, pool.index
      ensures Valid() && View() == Step(old(View()), TimerSpec.Delete(slot))
    {
      ghost var m := View();
      var s := pool.Cycle(slot);
      Stop(s);
      Release(s, m);
    }

    // ogs_pool_free on a stopped timer
    method Release(slot: int, ghost m: Mgr)
      requires Valid() && View().Live(slot) && !Run()[slot] && View() == Step(m, TimerSpec.Stop(slot))
      modifies pool, pool.free, pool.index
      ensures Valid() && View() == Step(m, TimerSpec.Delete(slot))
    {
      FreeSane(rb, tree.Contents(), pool.queue, When(), Run(), slot);
      pool.Free(slot);
    }

    // What the descent sees at a node: its links, its timer, and the order around it.
    lemma DescentView(r: seq<bool>, c: Ctx, t: Shape)
      requires ValidIf(r) && Fill(c, t) == tree.shape && t.Branch?
      ensures t.node.left == t.left.Root() && t.node.right == t.right.Root()
      ensures t.node.entry < |timers| && timers[t.node.entry].timeout == When()[t.node.entry]
      ensures var s := c.Before() + (t.left.Inorder() + [t.node] + t.right.Inorder()) + c.After();
        InRange(s, |timers|) && Sorted(Entries(s, When()))
    {
      RbLinks.Look(tree.links, tree.root, c, t);
      FillOrder(c, t);
      TreeNodes(r);
      assert t.node in (set n | n in tree.Contents());
    }

    // The descent of add_timer_node: to the right of every timer due no later.
    method FindPlace(timeout: int, ghost r: seq<bool>) returns (parent: Node?, onLeft: bool, ghost c: Ctx)
      requires ValidIf(r)
      ensures Fill(c, Leaf) == tree.shape
      ensures parent == c.Parent(null) && (parent != null ==> onLeft == c.InLeft?)
      ensures Splits(c.Before(), c.After(), When(), timeout)
    {
      hide Sane, Sorted;
      var new_ := tree.root;
      parent, onLeft := null, false;
      ghost var t := tree.shape;
      c := Top;
      while new_ != null
        invariant Fill(c, t) == tree.shape && t.Root() == new_
        invariant parent == c.Parent(null) && (parent != null ==> onLeft == c.InLeft?)
        invariant Splits(c.Before(), c.After(), When(), timeout)
        decreases t
      {
        DescentView(r, c, t);
        var this_ := timers[new_.entry];
        parent := new_;
        if timeout < this_.timeout {
          c, t := InLeft(c, t.node, t.color, t.right), t.left;
          onLeft := true;
          new_ := new_.left;
        } else {
          GoRight(c.Before(), t.left.Inorder(), t.node, t.right.Inorder(), c.After(), When(), timeout);
          c, t := InRight(c, t.left, t.node, t.color), t.right;
          onLeft := false;
          new_ := new_.right;
        }
      }
    }

    // add_timer_node: the node becomes a red leaf where the descent stops, and the tree is
    // recoloured.  m is the manager before its timer was taken out.
    method AddTimerNode(slot: int, duration: int, now: int, ghost r: seq<bool>, ghost m: Mgr)
      requires ValidIf(r) && View().Live(slot) && !r[slot]
      requires View() == m.(queue := Remove(m.queue, slot))
      modifies timers, tree, tree.links.Keys, rb[slot]
      ensures ValidIf(r[slot := true]) && Run() == old(Run())
      ensures View() == Step(m, TimerSpec.Start(slot, now + duration))
    {
      SetTimeout(slot, now + duration, r);
      ghost var between := View();
      Enqueue(slot, r);
      Restarted(m, between, View(), slot, now + duration);
    }

    // The rest of add_timer_node, once the deadline is known.
    method Enqueue(slot: int, ghost r: seq<bool>)
      requires ValidIf(r) && View().Live(slot) && !r[slot]
      modifies tree, tree.links.Keys, rb[slot]
      ensures ValidIf(r[slot := true]) && Run() == old(Run())
      ensures View() == old(View()).(queue := Insert(old(View()).queue, Entry(slot, When()[slot])))
    {
      hide Sane, Splits, DistinctNodes, Mgr.Inv, Insert;
      var parent, onLeft;
      ghost var c;
      IdleSane(rb, tree.Contents(), pool.queue, When(), r, slot);
      parent, onLeft, c := FindPlace(timers[slot].timeout, r);
      OrderAround(tree.shape, c);
      StartSane(rb, c.Before(), c.After(), pool.queue, When(), r, slot);
      TreeNodes(r);
      Join(slot, parent, onLeft, c);
    }

    // ogs_rbtree_link_node and ogs_rbtree_insert_color
    method Join(slot: int, parent: Node?, onLeft: bool, ghost c: Ctx)
      requires Layout() && 0 <= slot < |rb| && tree.Valid() && rb[slot] !in tree.links && pool.Valid()
      requires Fill(c, Leaf) == tree.shape
      requires parent == c.Parent(null) && (parent != null ==> onLeft == c.InLeft?)
      modifies tree, tree.links.Keys, rb[slot]
      ensures tree.Valid() && tree.Contents() == c.Before() + [rb[slot]] + c.After()
      ensures pool.Valid() && When() == old(When()) && Run() == old(Run())
    {
      tree.Insert(timers[slot].rbnode, parent, onLeft, c);
    }

    // ogs_timer_start: duration is not zero, and now is the clock
    method Start(slot: int, duration: int, now: int)
      requires Valid() && View().Live(slot) && duration != 0
      modifies timers, tree, tree.links.Keys, rb[slot]
      ensures Valid() && View() == Step(old(View()), TimerSpec.Start(slot, now + duration))
    {
      var s := pool.Cycle(slot);
      ghost var m := View();
      Withdraw(s);
      Relaunch(s, duration, now, Run()[s := false], m);
    }

    // timer->running = true; add_timer_node
    method Relaunch(slot: int, duration: int, now: int, ghost r: seq<bool>, ghost m: Mgr)
      requires ValidIf(r) && View().Live(slot) && r == Run()[slot := false]
      requires View() == m.(queue := Remove(m.queue, slot))
      modifies timers, tree, tree.links.Keys, rb[slot]
      ensures Valid() && View() == Step(m, TimerSpec.Start(slot, now + duration))
    {
      SetRunning(slot, true, r);
      AddTimerNode(slot, duration, now, r, m);
    }

    // if (timer->running == true) ogs_rbtree_delete
    method Withdraw(slot: int)
      requires Valid() && View().Live(slot)
      modifies tree, tree.links.Keys
      ensures ValidIf(Run()[slot := false]) && tree.links.Keys <= old(tree.links.Keys) && Run() == old(Run())
      ensures View() == old(View()).(queue := Remove(old(View()).queue, slot))
    {
      if timers[slot].running {
        Dequeue(slot, Run());
      } else {
        IdleSane(rb, tree.Contents(), pool.queue, When(), Run(), slot);
      }
    }
  }
}
