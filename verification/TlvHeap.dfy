// lib/core/ogs-tlv.c: TLV nodes are slots of a pool and point to one another by slot.
module TlvHeap {
  import opened Prelude
  import opened TlvSpec
  import opened TlvPut
  import P = Pool

  // ogs_tlv_t, without the fields of ogs_tlv_copy.
  datatype Node = Node(head: int, tail: int, next: int, parent: int, embedded: int,
                       mode: Mode, type_: nat, length: nat, instance: nat, value: Value)

  const CLEARED := Node(NONE, NONE, NONE, NONE, NONE, T1L1, 0, 0, 0, Bytes([]))

  // The node holds what the tree says.  The length and value of a node with embedded nodes are
  // not looked at.
  ghost predicate Bears(n: Node, t: Tree) {
    && n.mode == t.mode && n.type_ == t.type_ && n.instance == t.instance
    && (t.kids == [] ==> n.value == t.value && n.length == Length(t.value))
  }

  // From p on, the nodes are linked as the trees of ts.
  ghost predicate Linked(nodes: seq<Node>, p: int, ts: seq<Tree>)
    decreases ts
  {
    if ts == [] then p == NONE
    else
      && p == ts[0].slot && 0 <= p < |nodes| && Bears(nodes[p], ts[0])
      && Linked(nodes, nodes[p].embedded, ts[0].kids) && Linked(nodes, nodes[p].next, ts[1..])
  }

  ghost predicate LinkedOne(nodes: seq<Node>, p: int, t: Tree) {
    p == t.slot && 0 <= p < |nodes| && Bears(nodes[p], t) && Linked(nodes, nodes[p].embedded, t.kids)
  }

  // The slots of a forest, each node before its embedded nodes.
  ghost function Slots(ts: seq<Tree>): seq<int> {
    if ts == [] then [] else [ts[0].slot] + Slots(ts[0].kids) + Slots(ts[1..])
  }

  lemma DistinctParts(a: seq<int>, b: seq<int>)
    ensures Distinct(a + b) <==> Distinct(a) && Distinct(b) && forall x :: x in a ==> x !in b
  {
    var s := a + b;
    if Distinct(s) {
      forall i, j | 0 <= i < j < |a| ensures a[i] != a[j] { assert s[i] != s[j]; }
      forall i, j | 0 <= i < j < |b| ensures b[i] != b[j] { assert s[|a| + i] != s[|a| + j]; }
      forall i, j | 0 <= i < |a| && 0 <= j < |b| ensures a[i] != b[j] { assert s[i] != s[|a| + j]; }
    }
    if Distinct(a) && Distinct(b) && forall x :: x in a ==> x !in b {
      forall i, j | 0 <= i < j < |s|
        ensures s[i] != s[j]
      {
        if i < |a| { assert s[i] in a; }
        if j >= |a| { assert s[j] in b; }
      }
    }
  }

  // The first tree, its embedded trees and the later ones do not share slots.
  lemma SlotsApart(ts: seq<Tree>)
    requires ts != [] && Distinct(Slots(ts))
    ensures Distinct(Slots(ts[0].kids)) && Distinct(Slots(ts[1..]))
    ensures ts[0].slot !in Slots(ts[0].kids) && ts[0].slot !in Slots(ts[1..])
    ensures forall x :: x in Slots(ts[0].kids) ==> x !in Slots(ts[1..])
  {
    var s, k, r := [ts[0].slot], Slots(ts[0].kids), Slots(ts[1..]);
    DistinctParts(s + k, r);
    DistinctParts(s, k);
    assert ts[0].slot in s + k && forall x :: x in k ==> x in s + k;
  }

  // What linking depends on: not the list ends kept in a head, nor the parent.
  function Core(n: Node): Node { n.(head := NONE, tail := NONE, parent := NONE) }

  ghost predicate SameAt(a: seq<Node>, b: seq<Node>, slots: seq<int>) {
    |a| == |b| && forall x :: x in slots && 0 <= x < |a| ==> Core(b[x]) == Core(a[x])
  }

  lemma {:induction false} LinkedFrame(a: seq<Node>, b: seq<Node>, p: int, ts: seq<Tree>)
    requires Linked(a, p, ts) && SameAt(a, b, Slots(ts))
    ensures Linked(b, p, ts)
    decreases ts
  {
    if ts == [] {
    } else {
      assert ts[0].slot in Slots(ts);
      assert Core(b[p]) == Core(a[p]);
      LinkedFrame(a, b, a[p].embedded, ts[0].kids);
      LinkedFrame(a, b, a[p].next, ts[1..]);
    }
  }

  lemma {:induction false} LinkedSlots(nodes: seq<Node>, p: int, ts: seq<Tree>)
    requires Linked(nodes, p, ts)
    ensures forall x :: x in Slots(ts) ==> 0 <= x < |nodes|
    decreases ts
  {
    if ts == [] {
    } else {
      LinkedSlots(nodes, nodes[p].embedded, ts[0].kids);
      LinkedSlots(nodes, nodes[p].next, ts[1..]);
    }
  }

  // ---------- ogs_tlv_calc_length ----------

  // The nodes after measuring: every node with embedded nodes has learnt their length.
  ghost function Measure(nodes: seq<Node>, ts: seq<Tree>): (r: seq<Node>)
    ensures |r| == |nodes|
    decreases ts, 0
  {
    if ts == [] then nodes else Measure(MeasureOne(nodes, ts[0]), ts[1..])
  }

  ghost function MeasureOne(nodes: seq<Node>, t: Tree): (r: seq<Node>)
    ensures |r| == |nodes|
    decreases t, 1
  {
    if t.kids == [] then nodes else Lengthen(Measure(nodes, t.kids), t.slot, Size(t.kids))
  }

  function Lengthen(nodes: seq<Node>, s: int, n: nat): (r: seq<Node>)
    ensures |r| == |nodes|
  {
    if 0 <= s < |nodes| then nodes[s := nodes[s].(length := n)] else nodes
  }

  // The order in which ogs_tlv_free_all gives slots back: embedded nodes before their node.
  ghost function FreeOrder(ts: seq<Tree>): seq<int> {
    if ts == [] then [] else FreeOrder(ts[0].kids) + [ts[0].slot] + FreeOrder(ts[1..])
  }

  // Each slot is given back exactly once.
  lemma {:induction false} FreesAll(ts: seq<Tree>)
    ensures multiset(FreeOrder(ts)) == multiset(Slots(ts)) && |FreeOrder(ts)| == |Slots(ts)|
    decreases ts
  {
    if ts == [] {
    } else {
      FreesAll(ts[0].kids);
      FreesAll(ts[1..]);
    }
  }

  ghost predicate AllLive(pool: P.Pool, slots: seq<int>)
    reads pool, pool.free, pool.index
    requires pool.Valid()
  {
    forall x :: x in slots ==> pool.Live(x)
  }

  class Store {
    const pool: P.Pool
    var nodes: seq<Node>

    ghost predicate Valid()
      reads this, pool, pool.free, pool.index
    {
      pool.Valid() && |nodes| == pool.size
    }

    // ogs_tlv_init
    constructor (size: nat)
      ensures Valid() && fresh(pool) && fresh(pool.free) && fresh(pool.index)
      ensures pool.size == size && pool.queue == seq(size, i => i)
    {
      pool := new P.Pool(size);
      nodes := seq(size, _ => CLEARED);
    }

    // ogs_tlv_calc_length
    method CalcLength(tlv: int, ghost ts: seq<Tree>) returns (length: nat)
      requires Valid() && Linked(nodes, tlv, ts)
      modifies this`nodes
      ensures Valid() && length == Size(ts) && nodes == Measure(old(nodes), ts)
      decreases ts
    {
      var iter := tlv;
      length := 0;
      ghost var k := 0;
      assert ts[0..] == ts;
      while iter != NONE
        invariant k <= |ts| && Valid() && Linked(nodes, iter, ts[k..])
        invariant length + Size(ts[k..]) == Size(ts) && Measure(nodes, ts[k..]) == Measure(old(nodes), ts)
        decreases |ts| - k
      {
        ghost var t, n := ts[k], nodes;
        assert ts[k..][0] == t && ts[k..][1..] == ts[k + 1..];
        MeasureOneSteady(n, iter, t);
        length := length + HeaderSize(nodes[iter].mode);
        if nodes[iter].embedded != NONE {
          var l := CalcLength(nodes[iter].embedded, t.kids);
          nodes := nodes[iter := nodes[iter].(length := l)];
        }
        assert nodes == MeasureOne(n, t);
        SteadyLinked(n, nodes, n[iter].next, ts[k + 1..]);
        length := length + nodes[iter].length;
        iter := nodes[iter].next;
        k := k + 1;
      }
    }

    // ogs_tlv_render of one node at pos: its header, then its value or its embedded nodes.
    method RenderOne(curr: int, ghost t: Tree, data: array<Byte>, blk: nat, pos: nat, length: nat) returns (next: nat)
      requires Valid() && LinkedOne(nodes, curr, t) && GivenOne(t)
      requires blk <= pos && blk + length <= data.Length && pos + SizeOne(t) <= blk + length
      modifies this`nodes, data
      ensures Valid() && Steady(old(nodes), nodes)
      ensures next == pos + SizeOne(t) && Holds(data[..], pos, EncodeOne(t)) && Kept(old(data[..]), data[..], pos, next)
      decreases t, 1
    {
      EncodeSizeOne(t);
      var n := nodes[curr];
      if n.embedded == NONE {
        next := PutHeader(n.mode, n.type_, n.length, n.instance, data, pos);
        ghost var d := data[..];
        assert next - blk + n.length <= length;
        next := PutBytes(n.value.bytes, data, next);
        PutTwice(d, data[..], pos, Header(t.mode, t.type_, n.length, t.instance), n.value.bytes);
      } else {
        assert nodes[curr].embedded == n.embedded && Linked(nodes, n.embedded, t.kids);
        MeasureSteady(nodes, n.embedded, t.kids);
        ghost var was := nodes;
        var embeddedLength := CalcLength(n.embedded, t.kids);
        SteadyLinked(was, nodes, n.embedded, t.kids);
        EncodeSize(t.kids);
        next := PutHeader(n.mode, n.type_, embeddedLength, n.instance, data, pos);
        ghost var d := data[..];
        var m := Render(n.embedded, t.kids, data, next, length - (next - blk));
        PutTwice(d, data[..], pos, Header(t.mode, t.type_, embeddedLength, t.instance), Encode(t.kids));
        next := next + embeddedLength;
      }
    }

    // One turn of its loop; pos is where the first k nodes end.
    method RenderTurn(curr: int, ghost ts: seq<Tree>, ghost k: nat, data: array<Byte>, blk: nat, pos: nat, length: nat)
      returns (next: nat)
      requires k < |ts| && Valid() && Linked(nodes, curr, ts[k..]) && Given(ts)
      requires blk <= pos && blk + length <= data.Length && pos + Size(ts[k..]) <= blk + length
      requires Holds(data[..], blk, Encode(ts[..k])) && blk + |Encode(ts[..k])| == pos
      modifies this`nodes, data
      ensures Valid() && Steady(old(nodes), nodes)
      ensures next == pos + SizeOne(ts[k]) && Holds(data[..], blk, Encode(ts[..k + 1])) && blk + |Encode(ts[..k + 1])| == next
      ensures Kept(old(data[..]), data[..], pos, next)
      decreases ts[k], 2
    {
      ghost var t, d := ts[k], data[..];
      assert ts[k..][0] == t;
      EncodeSizeOne(t);
      EncodeSnoc(ts, k);
      next := RenderOne(curr, t, data, blk, pos, length);
      PutTwice(d, data[..], blk, Encode(ts[..k]), EncodeOne(t));
    }

    // ogs_tlv_render
    method Render(root: int, ghost ts: seq<Tree>, data: array<Byte>, blk: nat, length: nat) returns (n: nat)
      requires Valid() && Linked(nodes, root, ts) && Given(ts)
      requires blk + length <= data.Length && Size(ts) <= length
      modifies this`nodes, data
      ensures Valid() && Steady(old(nodes), nodes)
      ensures n == Size(ts) && Holds(data[..], blk, Encode(ts)) && Kept(old(data[..]), data[..], blk, blk + n)
      decreases ts
    {
      var curr, pos := root, blk;
      ghost var k := 0;
      assert ts[0..] == ts;
      while curr != NONE
        invariant k <= |ts| && blk <= pos && pos + Size(ts[k..]) == blk + Size(ts)
        invariant Valid() && Linked(nodes, curr, ts[k..]) && Steady(old(nodes), nodes)
        invariant Holds(data[..], blk, Encode(ts[..k])) && blk + |Encode(ts[..k])| == pos
        invariant Kept(old(data[..]), data[..], blk, pos)
        decreases |ts| - k
      {
        assert ts[k..][0] == ts[k] && ts[k..][1..] == ts[k + 1..];
        var next := nodes[curr].next;
        ghost var n := nodes;
        pos := RenderTurn(curr, ts, k, data, blk, pos, length);
        SteadyLinked(n, nodes, next, ts[k + 1..]);
        curr := next;
        k := k + 1;
      }
      assert ts[..k] == ts;
      n := pos - blk;
    }

    // ogs_tlv_get, except that it returns NONE where the source aborts.
    method Get() returns (s: int)
      requires Valid()
      modifies this`nodes, pool, pool.free, pool.index
      ensures Valid()
      ensures old(pool.queue) == [] ==> s == NONE && pool.queue == [] && nodes == old(nodes)
      ensures old(pool.queue) != [] ==>
        s == old(pool.queue)[0] && pool.queue == old(pool.queue)[1..] && 0 <= s < |nodes| && nodes == old(nodes)[s := CLEARED]
    {
      s := pool.Alloc();
      if s != NONE {
        nodes := nodes[s := CLEARED];
      }
    }

    // ogs_tlv_free_all
    method FreeAll(root: int, ghost ts: seq<Tree>)
      requires Valid() && Linked(nodes, root, ts) && Distinct(Slots(ts)) && AllLive(pool, Slots(ts))
      modifies pool, pool.free, pool.index
      ensures Valid() && pool.queue == old(pool.queue) + FreeOrder(ts)
      decreases ts
    {
      hide Distinct, AllLive, Slots;
      var iter := root;
      ghost var k := 0;
      assert ts[0..] == ts;
      while iter != NONE
        invariant k <= |ts| && Valid() && nodes == old(nodes) && Linked(nodes, iter, ts[k..])
        invariant Distinct(Slots(ts[k..])) && AllLive(pool, Slots(ts[k..]))
        invariant pool.queue + FreeOrder(ts[k..]) == old(pool.queue) + FreeOrder(ts)
        decreases |ts| - k
      {
        ghost var t, rest, q := ts[k], ts[k + 1..], pool.queue;
        assert ts[k..][0] == t && ts[k..][1..] == rest && [t] + rest == ts[k..];
        var next := nodes[iter].next;
        FreeOne(iter, t, rest);
        assert q + (FreeOrder(t.kids) + [t.slot] + FreeOrder(rest)) == pool.queue + FreeOrder(rest);
        iter := next;
        k := k + 1;
      }
    }

    // One turn of its loop: the embedded nodes, and then the node.
    method FreeOne(iter: int, ghost t: Tree, ghost rest: seq<Tree>)
      requires Valid() && LinkedOne(nodes, iter, t) && Distinct(Slots([t] + rest)) && AllLive(pool, Slots([t] + rest))
      modifies pool, pool.free, pool.index
      ensures Valid() && pool.queue == old(pool.queue) + FreeOrder(t.kids) + [t.slot]
      ensures Distinct(Slots(rest)) && AllLive(pool, Slots(rest))
      decreases t, 1
    {
      ghost var ts, q := [t] + rest, pool.queue;
      assert ts[0] == t && ts[1..] == rest;
      SlotsApart(ts);
      FreedIn(t.kids);
      assert t.slot in Slots(ts) && forall x :: x in Slots(t.kids) || x in Slots(rest) ==> x in Slots(ts);
      if nodes[iter].embedded != NONE {
        FreeAll(nodes[iter].embedded, t.kids);
      } else {
        assert q == q + FreeOrder(t.kids);
      }
      pool.Free(iter);
    }

    // tlv_get_element
    method GetElement(tlv: int, mem: seq<Byte>, blk: nat, mode: Mode) returns (next: nat)
      requires Valid() && 0 <= tlv < |nodes|
      modifies this`nodes
      ensures Valid() && next == TlvSpec.Get(mem, blk, mode).End()
      ensures nodes == old(nodes)[tlv := Filled(old(nodes)[tlv], TlvSpec.Get(mem, blk, mode), mode)]
    {
      var e := TlvSpec.Get(mem, blk, mode);
      nodes := nodes[tlv := nodes[tlv].(mode := mode, type_ := e.type_, length := e.length,
                                        instance := if mode == T1L2I1 then e.instance else nodes[tlv].instance,
                                        value := Part(e.value, e.length))];
      next := e.End();
    }

    // ogs_tlv_parse_block.  taken lists the nodes it took from the pool, in order; the source
    // aborts where this one does.
    method ParseBlock(length: nat, mem: seq<Byte>, blk: nat, mode: Mode)
      returns (root: int, aborted: bool, ghost taken: seq<int>)
      requires Valid()
      modifies this`nodes, pool, pool.free, pool.index
      ensures Valid() && (aborted ==> pool.queue == []) && SameOutside(old(nodes), nodes, taken)
      ensures aborted <==> |old(pool.queue)| < |Scan(mem, blk, blk + length, mode)|
      ensures |taken| <= |old(pool.queue)| && taken == old(pool.queue)[..|taken|]
      ensures !aborted ==> Outcome(old(pool.queue), taken, root, nodes, pool.queue, mode, TlvSpec.ParseBlock(mem, blk, length, mode))
    {
      var pos;
      root, pos, aborted, taken := ReadAll(length, mem, blk, mode);
      if !aborted {
        root := Settle(old(pool.queue), root, length, mem, blk, pos, mode, taken);
      }
    }

    // Whether the last element ends where the block does: otherwise the nodes go back.
    method Settle(ghost q: seq<int>, first: int, length: nat, mem: seq<Byte>, blk: nat, pos: nat, mode: Mode, ghost taken: seq<int>)
      returns (root: int)
      requires Valid() && Distinct(q) && q == taken + pool.queue && taken != [] && first == taken[0] != NONE
      requires var es := Scan(mem, blk, blk + length, mode);
        Chain(nodes, taken, es, mode) && pos == es[|es| - 1].End()
      modifies pool, pool.free, pool.index
      ensures Valid()
      ensures Outcome(q, taken, root, nodes, pool.queue, mode, TlvSpec.ParseBlock(mem, blk, length, mode))
    {
      root := first;
      if pos != blk + length {
        ScanPlain(mem, blk, blk + length, mode);
        Discard(root, taken, Scan(mem, blk, blk + length, mode), mode);
        root := NONE;
      }
    }

    // Everything up to that test.
    method ReadAll(length: nat, mem: seq<Byte>, blk: nat, mode: Mode)
      returns (root: int, pos: nat, aborted: bool, ghost taken: seq<int>)
      requires Valid()
      modifies this`nodes, pool, pool.free, pool.index
      ensures Valid() && (aborted ==> pool.queue == []) && SameOutside(old(nodes), nodes, taken)
      ensures aborted <==> |old(pool.queue)| < |Scan(mem, blk, blk + length, mode)|
      ensures |taken| <= |old(pool.queue)| && taken == old(pool.queue)[..|taken|]
      ensures !aborted ==>
        var es := Scan(mem, blk, blk + length, mode);
        && Chain(nodes, taken, es, mode) && pos == es[|es| - 1].End()
        && taken != [] && root == taken[0] != NONE && old(pool.queue) == taken + pool.queue
    {
      ghost var q := pool.queue;
      root, pos := ReadElement([], [], NONE, mem, blk, mode);
      aborted, taken := root == NONE, [];
      if !aborted {
        assert [] + [root] == [root] && [] + [TlvSpec.Get(mem, blk, mode)] == [TlvSpec.Get(mem, blk, mode)];
        assert q == [root] + pool.queue;
        ghost var n := nodes;
        pos, aborted, taken := ReadOn(length, mem, blk, pos, mode, root);
        TakenFirst(q, taken, pool.queue);
      }
    }

    // The loop of ogs_tlv_parse_block, once the first element has been read into the node curr.
    method ReadOn(length: nat, mem: seq<Byte>, blk: nat, from: nat, mode: Mode, first: int)
      returns (pos: nat, aborted: bool, ghost taken: seq<int>)
      requires Valid() && Chain(nodes, [first], [TlvSpec.Get(mem, blk, mode)], mode)
      requires from == TlvSpec.Get(mem, blk, mode).End() && Distinct([first] + pool.queue)
      modifies this`nodes, pool, pool.free, pool.index
      ensures Valid() && (aborted ==> pool.queue == []) && SameOutside(old(nodes), nodes, taken)
      ensures aborted ==> |old(pool.queue)| + 1 < |Scan(mem, blk, blk + length, mode)|
      ensures taken != [] && taken[0] == first && [first] + old(pool.queue) == taken + pool.queue
      ensures !aborted ==>
        var es := Scan(mem, blk, blk + length, mode);
        Chain(nodes, taken, es, mode) && pos == es[|es| - 1].End()
    {
      hide Valid, Distinct, Scan, LengthBytes, Number, LowHalf;
      ghost var q, n0, es := [first] + pool.queue, nodes, [TlvSpec.Get(mem, blk, mode)];
      ghost var last: nat := blk;
      var curr := first;
      pos, aborted, taken := from, false, [first];
      assert es[..0] + Scan(mem, blk, blk + length, mode) == Scan(mem, blk, blk + length, mode);
      while pos < blk + length
        invariant Valid() && InBlock(n0, q, taken, curr, es, mode) && taken[0] == first
        invariant Reading(mem, blk, last, pos, blk + length, mode, es)
        decreases blk + length - pos
      {
        var next, end := ReadTurn(n0, q, taken, curr, es, mem, pos, mode);
        if next == NONE {
          ReadingMore(mem, blk, last, pos, blk + length, mode, es);
          aborted := true;
          return;
        }
        ReadingNext(mem, blk, last, pos, blk + length, mode, es);
        es, last := es + [TlvSpec.Get(mem, pos, mode)], pos;
        taken, curr, pos := taken + [next], next, end;
      }
      ReadingDone(mem, blk, last, pos, blk + length, mode, es);
    }

    // The nodes of the elements read so far; n0 and q are the nodes and the free slots before.
    ghost predicate InBlock(n0: seq<Node>, q: seq<int>, taken: seq<int>, curr: int, es: seq<Elem>, mode: Mode)
      reads this, pool
    {
      && Chain(nodes, taken, es, mode) && taken != [] && curr == taken[|taken| - 1]
      && q == taken + pool.queue && Distinct(q) && SameOutside(n0, nodes, taken)
    }

    method ReadTurn(ghost n0: seq<Node>, ghost q: seq<int>, ghost taken: seq<int>, curr: int, ghost es: seq<Elem>,
                    mem: seq<Byte>, blk: nat, mode: Mode) returns (next: int, end: nat)
      requires Valid() && InBlock(n0, q, taken, curr, es, mode)
      modifies this`nodes, pool, pool.free, pool.index
      ensures Valid() && (next == NONE ==> pool.queue == [] && InBlock(n0, q, taken, curr, es, mode))
      ensures next != NONE ==>
        end == TlvSpec.Get(mem, blk, mode).End() && InBlock(n0, q, taken + [next], next, es + [TlvSpec.Get(mem, blk, mode)], mode)
    {
      next, end := ReadElement(taken, es, curr, mem, blk, mode);
      if next != NONE {
        TakeNext(q, taken, next, pool.queue);
      }
    }

    // ogs_tlv_free_all on a block that did not parse
    method Discard(root: int, ghost taken: seq<int>, ghost es: seq<Elem>, mode: Mode)
      requires Valid() && Chain(nodes, taken, es, mode) && Plain(es, mode) && taken != [] && root == taken[0]
      requires Distinct(taken + pool.queue)
      modifies pool, pool.free, pool.index
      ensures Valid() && multiset(pool.queue) == multiset(taken + old(pool.queue))
    {
      ghost var ts := TreesOf(taken, es, mode);
      ChainLinked(nodes, taken, es, mode, 0);
      assert ts[0..] == ts && taken[0..] == taken;
      DistinctParts(taken, pool.queue);
      forall x | x in taken
        ensures pool.Live(x)
      {
        var i :| 0 <= i < |taken| && taken[i] == x;
        assert ChainAt(nodes, taken, es, mode, i);
      }
      FreeAll(root, ts);
      FreesAll(ts);
    }

    // One more node at the end of the chain, for the element at blk.
    method ReadElement(ghost slots: seq<int>, ghost es: seq<Elem>, prev: int, mem: seq<Byte>, blk: nat, mode: Mode)
      returns (curr: int, next: nat)
      requires Valid() && Chain(nodes, slots, es, mode) && Distinct(slots + pool.queue)
      requires prev == if slots == [] then NONE else slots[|slots| - 1]
      modifies this`nodes, pool, pool.free, pool.index
      ensures Valid() && (old(pool.queue) == [] ==> curr == NONE && pool.queue == [] && nodes == old(nodes))
      ensures old(pool.queue) != [] ==>
        var e := TlvSpec.Get(mem, blk, mode);
        && curr == old(pool.queue)[0] && pool.queue == old(pool.queue)[1..] && next == e.End()
        && Chain(nodes, slots + [curr], es + [e], mode) && SameOutside(old(nodes), nodes, slots + [curr])
    {
      ghost var n0, q := nodes, pool.queue;
      curr := Get();
      next := 0;
      if curr != NONE {
        ghost var e := TlvSpec.Get(mem, blk, mode);
        NewSlot(slots, q);
        if prev != NONE {
          assert slots != [] ==> ChainAt(n0, slots, es, mode, |slots| - 1);
          nodes := nodes[prev := nodes[prev].(next := curr)];
        }
        next := GetElement(curr, mem, blk, mode);
        ChainGrows(n0, nodes, slots, es, curr, e, mode);
      }
    }
  }

  // What parsing a block leaves behind: the nodes of its elements, or no node at all.
  ghost predicate Outcome(q: seq<int>, taken: seq<int>, root: int, nodes: seq<Node>, queue: seq<int>, mode: Mode,
                          r: Option<seq<Elem>>)
  {
    match r
    case None => root == NONE && multiset(queue) == multiset(q)
    case Some(es) => taken != [] && root == taken[0] != NONE && Chain(nodes, taken, es, mode) && q == taken + queue
  }

  // es are the elements from blk on, the last of them at last, and it ends at pos.
  ghost predicate Reading(mem: seq<Byte>, blk: nat, last: nat, pos: nat, end: nat, mode: Mode, es: seq<Elem>) {
    && es != [] && es[|es| - 1] == TlvSpec.Get(mem, last, mode) && pos == es[|es| - 1].End()
    && es[..|es| - 1] + Scan(mem, last, end, mode) == Scan(mem, blk, end, mode)
  }

  lemma TakenFirst(q: seq<int>, taken: seq<int>, rest: seq<int>)
    requires q == taken + rest
    ensures |taken| <= |q| && taken == q[..|taken|]
  {
  }

  lemma TakeNext(q: seq<int>, taken: seq<int>, s: int, rest: seq<int>)
    requires q == taken + ([s] + rest)
    ensures q == taken + [s] + rest
  {
  }

  lemma ReadingNext(mem: seq<Byte>, blk: nat, last: nat, pos: nat, end: nat, mode: Mode, es: seq<Elem>)
    requires Reading(mem, blk, last, pos, end, mode, es) && pos < end
    ensures Reading(mem, blk, pos, TlvSpec.Get(mem, pos, mode).End(), end, mode, es + [TlvSpec.Get(mem, pos, mode)])
  {
    var e := es[|es| - 1];
    assert es == es[..|es| - 1] + [e];
    assert es[..|es| - 1] + ([e] + Scan(mem, pos, end, mode)) == es + Scan(mem, pos, end, mode);
    assert (es + [TlvSpec.Get(mem, pos, mode)])[..|es|] == es;
  }

  lemma ReadingMore(mem: seq<Byte>, blk: nat, last: nat, pos: nat, end: nat, mode: Mode, es: seq<Elem>)
    requires Reading(mem, blk, last, pos, end, mode, es) && pos < end
    ensures |es| < |Scan(mem, blk, end, mode)|
  {
    var e := es[|es| - 1];
    assert Scan(mem, last, end, mode) == [e] + Scan(mem, pos, end, mode);
  }

  lemma ReadingDone(mem: seq<Byte>, blk: nat, last: nat, pos: nat, end: nat, mode: Mode, es: seq<Elem>)
    requires Reading(mem, blk, last, pos, end, mode, es) && pos >= end
    ensures es == Scan(mem, blk, end, mode)
  {
    assert es == es[..|es| - 1] + [es[|es| - 1]];
  }

  ghost predicate SameOutside(a: seq<Node>, b: seq<Node>, slots: seq<int>) {
    |a| == |b| && forall x :: 0 <= x < |a| && x !in slots ==> b[x] == a[x]
  }

  lemma NewSlot(slots: seq<int>, q: seq<int>)
    requires Distinct(slots + q) && q != []
    ensures q[0] !in slots && slots + q == slots + [q[0]] + q[1..] && Distinct(slots)
  {
    DistinctParts(slots, q);
    forall i | 0 <= i < |slots|
      ensures slots[i] != q[0]
    {
      assert (slots + q)[i] == slots[i] && (slots + q)[|slots|] == q[0];
    }
  }

  lemma ChainGrows(a: seq<Node>, b: seq<Node>, slots: seq<int>, es: seq<Elem>, s: int, e: Elem, mode: Mode)
    requires Chain(a, slots, es, mode) && s !in slots && Distinct(slots) && 0 <= s < |a| == |b|
    requires b[s] == LinkNode(e, mode, NONE)
    requires forall x :: 0 <= x < |a| && x != s ==>
      b[x] == if slots != [] && x == slots[|slots| - 1] then a[x].(next := s) else a[x]
    ensures Chain(b, slots + [s], es + [e], mode)
  {
    var l, f := slots + [s], es + [e];
    forall i | 0 <= i < |f|
      ensures ChainAt(b, l, f, mode, i)
    {
      if i < |es| {
        assert l[i] == slots[i] && f[i] == es[i] && slots[i] in slots;
        assert ChainAt(a, slots, es, mode, i);
        assert i < |es| - 1 ==> slots[i] != slots[|slots| - 1] && l[i + 1] == slots[i + 1];
      }
    }
  }

  // A node after tlv_get_element, which writes the instance only in the mode that has one.
  function Filled(n: Node, e: Elem, mode: Mode): Node {
    n.(mode := mode, type_ := e.type_, length := e.length, instance := if mode == T1L2I1 then e.instance else n.instance,
       value := Part(e.value, e.length))
  }

  // The slots are linked one behind the other and hold the elements.
  ghost predicate Chain(nodes: seq<Node>, slots: seq<int>, es: seq<Elem>, mode: Mode) {
    |slots| == |es| && forall i :: 0 <= i < |es| ==> ChainAt(nodes, slots, es, mode, i)
  }

  ghost predicate ChainAt(nodes: seq<Node>, slots: seq<int>, es: seq<Elem>, mode: Mode, i: nat)
    requires i < |es| == |slots|
  {
    && 0 <= slots[i] < |nodes|
    && nodes[slots[i]] == LinkNode(es[i], mode, if i + 1 < |es| then slots[i + 1] else NONE)
  }

  ghost function LinkNode(e: Elem, mode: Mode, next: int): Node {
    Filled(CLEARED, e, mode).(next := next)
  }

  ghost function TreesOf(slots: seq<int>, es: seq<Elem>, mode: Mode): (ts: seq<Tree>)
    requires |slots| == |es|
    ensures |ts| == |es|
    ensures forall i :: 0 <= i < |es| ==>
      ts[i] == Tree(slots[i], mode, es[i].type_, es[i].instance, Part(es[i].value, es[i].length), [])
  {
    seq(|es|, i requires 0 <= i < |es| =>
      Tree(slots[i], mode, es[i].type_, es[i].instance, Part(es[i].value, es[i].length), []))
  }

  // Elements read in a mode that has no instance byte have instance 0.
  ghost predicate Plain(es: seq<Elem>, mode: Mode) {
    mode != T1L2I1 ==> forall i :: 0 <= i < |es| ==> es[i].instance == 0
  }

  lemma {:induction false} ScanPlain(mem: seq<Byte>, pos: nat, end: nat, mode: Mode)
    ensures Plain(Scan(mem, pos, end, mode), mode)
    decreases end - pos
  {
    var e := TlvSpec.Get(mem, pos, mode);
    if e.End() >= end {
    } else {
      ScanPlain(mem, e.End(), end, mode);
    }
  }

  lemma {:induction false} ChainLinked(nodes: seq<Node>, slots: seq<int>, es: seq<Elem>, mode: Mode, k: nat)
    requires Chain(nodes, slots, es, mode) && Plain(es, mode) && k <= |es|
    ensures Linked(nodes, if k < |es| then slots[k] else NONE, TreesOf(slots, es, mode)[k..])
    ensures Slots(TreesOf(slots, es, mode)[k..]) == slots[k..]
    decreases |es| - k
  {
    hide TreesOf;
    if k == |es| {
    } else {
      assert ChainAt(nodes, slots, es, mode, k);
      ChainLinked(nodes, slots, es, mode, k + 1);
      var ts := TreesOf(slots, es, mode);
      assert ts[k..][0] == ts[k] && ts[k..][1..] == ts[k + 1..];
      assert [slots[k]] + [] + slots[k + 1..] == slots[k..];
    }
  }

  lemma FreedIn(ts: seq<Tree>)
    ensures forall x :: x in FreeOrder(ts) <==> x in Slots(ts)
  {
    FreesAll(ts);
    forall x
      ensures x in FreeOrder(ts) <==> x in Slots(ts)
    {
      assert x in FreeOrder(ts) <==> x in multiset(FreeOrder(ts));
      assert x in Slots(ts) <==> x in multiset(Slots(ts));
    }
  }

  // Lengths changed, and only those of nodes with embedded nodes.
  ghost predicate Steady(a: seq<Node>, b: seq<Node>) {
    && |a| == |b|
    && forall x :: 0 <= x < |a| ==> b[x] == a[x].(length := b[x].length) && (a[x].embedded == NONE ==> b[x] == a[x])
  }

  lemma {:induction false} SteadyLinked(a: seq<Node>, b: seq<Node>, p: int, ts: seq<Tree>)
    requires Linked(a, p, ts) && Steady(a, b)
    ensures Linked(b, p, ts)
    decreases ts
  {
    if ts == [] {
    } else {
      SteadyLinked(a, b, a[p].embedded, ts[0].kids);
      SteadyLinked(a, b, a[p].next, ts[1..]);
      assert b[p] == a[p].(length := b[p].length);
    }
  }

  lemma {:induction false} MeasureSteady(nodes: seq<Node>, p: int, ts: seq<Tree>)
    requires Linked(nodes, p, ts)
    ensures Steady(nodes, Measure(nodes, ts))
    decreases ts, 0
  {
    if ts == [] {
    } else {
      var n1 := MeasureOne(nodes, ts[0]);
      MeasureOneSteady(nodes, p, ts[0]);
      SteadyLinked(nodes, n1, nodes[p].next, ts[1..]);
      MeasureSteady(n1, nodes[p].next, ts[1..]);
    }
  }

  lemma {:induction false} MeasureOneSteady(nodes: seq<Node>, p: int, t: Tree)
    requires LinkedOne(nodes, p, t)
    ensures Steady(nodes, MeasureOne(nodes, t))
    decreases t, 1
  {
    if t.kids == [] {
    } else {
      MeasureSteady(nodes, nodes[p].embedded, t.kids);
    }
  }
}
