// lib/core/ogs-pool.h: a fixed array of slots, a ring of the free ones, and an index of the live
// ones.  A node is named by its position in the array, and NONE stands for NULL.
module Pool {
  import opened Prelude

  // Position i of a ring of n places that starts at head.
  function Ring(head: nat, i: nat, n: nat): nat
    requires head < n && i <= n
  {
    if head + i < n then head + i else head + i - n
  }

  lemma Modulo(a: nat, n: nat)
    requires a <= n && n > 0
    ensures a % n == if a == n then 0 else a
  {}

  class Pool {
    const size: nat
    var head: nat
    var tail: nat
    var avail: nat
    const free: array<int>
    const index: array<int>
    ghost var queue: seq<int>  // the free slots, the next one to be issued first

    ghost predicate Valid()
      reads this, free, index
    {
      && free.Length == index.Length == size && free != index
      && avail == |queue| <= size && Distinct(queue)
      && (size > 0 ==> head < size && tail == Ring(head, avail, size))
      && (forall i :: 0 <= i < |queue| ==> 0 <= queue[i] < size && free[Ring(head, i, size)] == queue[i])
      && (forall i :: 0 <= i < size ==> index[i] == if i in queue then NONE else i)
    }

    ghost predicate Live(node: int)
      reads this
    {
      0 <= node < size && node !in queue
    }

    // ogs_pool_init
    constructor (n: nat)
      ensures Valid() && size == n && queue == seq(n, i => i)
      ensures fresh(free) && fresh(index)
    {
      size := n;
      avail := n;
      head := 0;
      tail := 0;
      free := new int[n];
      index := new int[n];
      new;
      var i := 0;
      while i < n
        invariant 0 <= i <= n && free.Length == index.Length == n && free != index
        invariant fresh(free) && fresh(index)
        invariant head == tail == 0 && avail == n
        invariant forall k :: 0 <= k < i ==> free[k] == k && index[k] == NONE
      {
        free[i] := i;
        index[i] := NONE;
        i := i + 1;
      }
      queue := seq(n, k => k);
      forall k | 0 <= k < n
        ensures k in queue
      {
        assert queue[k] == k;
      }
    }

    // ogs_pool_index: one more than the position
    function Index(node: int): int { node + 1 }

    // ogs_pool_find
    method Find(i: int) returns (node: int)
      requires Valid()
      ensures node == if Live(i - 1) then i - 1 else NONE
    {
      node := if 0 < i <= size then index[i - 1] else NONE;
    }

    // ogs_pool_cycle: the node itself while it is live
    method Cycle(node: int) returns (r: int)
      requires Valid()
      ensures r == if Live(node) then node else NONE
    {
      r := Find(Index(node));
    }

    // ogs_pool_alloc
    method Alloc() returns (node: int)
      requires Valid()
      modifies this, free, index
      ensures Valid()
      ensures old(queue) == [] ==> node == NONE && queue == []
      ensures old(queue) != [] ==> node == old(queue)[0] && queue == old(queue)[1..]
    {
      node := NONE;
      if avail > 0 {
        Modulo(head + 1, size);
        assert Ring(head, 0, size) == head && queue[0] == free[head];
        avail := avail - 1;
        node := free[head];
        free[head] := NONE;
        head := (head + 1) % size;
        index[Index(node) - 1] := node;
        queue := queue[1..];
      }
    }

    // ogs_pool_free
    method Free(node: int)
      requires Valid() && Live(node)
      modifies this, free, index
      ensures Valid()
      ensures queue == old(queue) + [node]
    {
      Pigeonhole(queue, size, node);
      if avail < size {
        Modulo(tail + 1, size);
        avail := avail + 1;
        free[tail] := node;
        tail := (tail + 1) % size;
        index[Index(node) - 1] := NONE;
        queue := queue + [node];
      }
    }
  }

  // ---------- Whole runs, on the queue of free slots ----------

  datatype Use = Allocate | Release(node: int)

  ghost function Step(q: seq<int>, u: Use): seq<int> {
    match u
    case Allocate => if q == [] then [] else q[1..]
    case Release(n) => q + [n]
  }

  ghost function Run(q: seq<int>, us: seq<Use>): seq<int>
    decreases us
  {
    if us == [] then q else Run(Step(q, us[0]), us[1..])
  }

  // The slots a run hands out, in order.
  ghost function Issued(q: seq<int>, us: seq<Use>): seq<int>
    decreases us
  {
    if us == [] then []
    else (if us[0].Allocate? && q != [] then [q[0]] else []) + Issued(Step(q, us[0]), us[1..])
  }

  ghost function Released(us: seq<Use>): seq<int> {
    if us == [] then [] else (if us[0].Release? then [us[0].node] else []) + Released(us[1..])
  }

  // The run frees live nodes only.
  ghost predicate Legal(q: seq<int>, us: seq<Use>, n: nat)
    decreases us
  {
    us != [] ==>
      && (us[0].Release? ==> 0 <= us[0].node < n && us[0].node !in q)
      && Legal(Step(q, us[0]), us[1..], n)
  }

  // Free slots of a pool of n: distinct and in range.
  ghost predicate Sound(q: seq<int>, n: nat) {
    Distinct(q) && forall y :: y in q ==> 0 <= y < n
  }

  lemma {:induction false} RunSound(q: seq<int>, us: seq<Use>, n: nat)
    requires Sound(q, n) && Legal(q, us, n)
    ensures Sound(Run(q, us), n)
    decreases us
  {
    if us == [] {
    } else {
      forall y | y in Step(q, us[0])
        ensures 0 <= y < n
      {
        if us[0].Allocate? { assert y in q; }
      }
      RunSound(Step(q, us[0]), us[1..], n);
    }
  }

  lemma Regroup(a: seq<int>, b: seq<int>, c: seq<int>)
    ensures (a + b) + c == a + (b + c) && [] + a == a
  {
  }

  // First in, first out: what was free, followed by what is freed, is issued in that order.
  lemma {:induction false} RunIsFifo(q: seq<int>, us: seq<Use>)
    ensures Issued(q, us) + Run(q, us) == q + Released(us)
    decreases us
  {
    if us == [] {
      assert q + [] == q;
    } else {
      RunIsFifo(Step(q, us[0]), us[1..]);
      FifoStep(q, us);
    }
  }

  lemma FifoStep(q: seq<int>, us: seq<Use>)
    requires us != []
    requires var q1, rest := Step(q, us[0]), us[1..]; Issued(q1, rest) + Run(q1, rest) == q1 + Released(rest)
    ensures Issued(q, us) + Run(q, us) == q + Released(us)
  {
    var q1, rest := Step(q, us[0]), us[1..];
    var i, r, d := Issued(q1, rest), Run(q1, rest), Released(rest);
    if us[0].Release? {
      assert Issued(q, us) == [] + i && Released(us) == [us[0].node] + d;
      ReleaseStep(q, i, r, d, us[0].node);
    } else {
      assert Released(us) == [] + d;
      AllocateStep(q, q1, i, r, d);
    }
  }

  lemma ReleaseStep(q: seq<int>, i: seq<int>, r: seq<int>, d: seq<int>, n: int)
    requires i + r == (q + [n]) + d
    ensures ([] + i) + r == q + ([n] + d)
  {
    Regroup(i, r, []);
    Regroup(q, [n], d);
  }

  lemma AllocateStep(q: seq<int>, q1: seq<int>, i: seq<int>, r: seq<int>, d: seq<int>)
    requires i + r == q1 + d && q1 == if q == [] then [] else q[1..]
    ensures ((if q == [] then [] else [q[0]]) + i) + r == q + ([] + d)
  {
    var h := if q == [] then [] else [q[0]];
    assert q == h + q1;
    Regroup(h, i, r);
    Regroup(h, q1, d);
    Regroup(d, [], []);
  }

  // A slot just freed comes out only after every slot that was free before it, in their order.
  lemma FreedSlotWaits(q: seq<int>, x: int, us: seq<Use>, n: nat, k: nat)
    requires Sound(q + [x], n) && k < |Issued(q + [x], us)| && Issued(q + [x], us)[k] == x
    ensures k >= |q| && Issued(q + [x], us)[..|q|] == q
  {
    RunIsFifo(q + [x], us);
    var out := Issued(q + [x], us);
    var all := q + [x] + Released(us);
    assert out == all[..|out|];
    assert (q + [x])[|q|] == x && forall i :: 0 <= i < |q| ==> (q + [x])[i] != x && all[i] == q[i];
  }

  // Available and live slots together are all slots.
  lemma AvailPlusLive(q: seq<int>, n: nat)
    requires Sound(q, n)
    ensures |q| + |Below(n) - (set y | y in q)| == n
    ensures forall x :: x in Below(n) - (set y | y in q) <==> 0 <= x < n && x !in q
  {
    BelowIs(n);
    SetSize(q);
    assert (set y | y in q) <= Below(n);
  }
}
