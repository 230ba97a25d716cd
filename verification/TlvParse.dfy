// lib/core/ogs-tlv-msg.c: parsing a packet into a message struct.
module TlvParse {
  import opened Prelude
  import opened TlvSpec
  import opened TlvMsgSpec
  import opened TlvHeap
  import opened TlvList
  import opened TlvBuild

  // ---------- Looking up a field ----------

  // tlv_find_desc_by_type_inst
  method FindDesc(ds: seq<Desc>, type_: nat, instance: nat, position: nat) returns (r: Option<(nat, int)>)
    ensures r == Find(ds, type_, instance, position, 0, 0)
  {
    var i, offset, left := 0, 0, position;
    while i < |ds|
      invariant i <= |ds| && Find(ds, type_, instance, left, i, offset) == Find(ds, type_, instance, position, 0, 0)
    {
      if ds[i].Type() == type_ && ds[i].Instance() == instance {
        if left == 0 {
          return Some((i, offset));
        }
        left := left - 1;
      }
      offset := offset + Advance(ds, i);
      i := i + 1;
    }
    return None;
  }

  // The scan of tlv_parse_compound for a copy that is not present yet.
  method FreeCopy(msg: Msg, a: int, vsize: nat, n: nat) returns (r: Option<int>)
    ensures r == FirstFree(msg, a, vsize, n)
  {
    var j, at := 0, a;
    while j < n
      invariant j <= n && FirstFree(msg, at, vsize, n - j) == FirstFree(msg, a, vsize, n)
    {
      if !msg.Present(at) {
        return Some(at);
      }
      j, at := j + 1, at + vsize;
    }
    return None;
  }

  // ---------- The nodes of a packet ----------

  lemma DistinctIff(s: seq<int>)
    ensures Distinct(s) <==> forall x :: multiset(s)[x] <= 1
    decreases s
  {
    if s == [] {
    } else {
      var t, x := s[1..], s[0];
      assert s == [x] + t && multiset(s) == multiset{x} + multiset(t);
      DistinctIff(t);
      DistinctParts([x], t);
      assert x in t <==> multiset(t)[x] > 0;
      if forall y :: multiset(s)[y] <= 1 {
        assert multiset(s)[x] <= 1;
        forall y
          ensures multiset(t)[y] <= 1
        {
          assert multiset(s)[y] <= 1;
        }
      }
    }
  }

  // All slots of q0 are in the forest or free.
  ghost predicate Kept(ts: seq<Tree>, queue: seq<int>, q0: seq<int>) {
    multiset(Slots(ts)) + multiset(queue) == multiset(q0)
  }

  lemma KeptApart(ts: seq<Tree>, queue: seq<int>, q0: seq<int>)
    requires Kept(ts, queue, q0) && Distinct(q0)
    ensures Distinct(Slots(ts) + queue) && Distinct(Slots(ts)) && Distinct(queue)
    ensures forall x :: x in Slots(ts) ==> x !in queue && x in q0
    ensures forall x :: x in queue ==> x in q0
  {
    DistinctIff(q0);
    assert multiset(Slots(ts) + queue) == multiset(q0);
    DistinctIff(Slots(ts) + queue);
    DistinctParts(Slots(ts), queue);
    forall x | x in Slots(ts) || x in queue
      ensures x in q0
    {
      assert x in multiset(Slots(ts)) + multiset(queue);
    }
  }

  ghost function SlotBag(ts: seq<Tree>): multiset<int> { multiset(Slots(ts)) }

  lemma SlotsParts(ts: seq<Tree>)
    requires ts != []
    ensures SlotBag(ts) == multiset{ts[0].slot} + SlotBag(ts[0].kids) + SlotBag(ts[1..])
  {
  }

  lemma ReplaceParts(ts: seq<Tree>, k: nat, t: Tree)
    requires k < |ts|
    ensures ts[k := t][0] == if k == 0 then t else ts[0]
    ensures ts[k := t][1..] == if k == 0 then ts[1..] else ts[1..][k - 1 := t]
  {
  }

  lemma {:induction false} BagReplace(ts: seq<Tree>, k: nat, t: Tree)
    requires k < |ts| && ts[k].kids == [] && t.slot == ts[k].slot
    ensures SlotBag(ts[k := t]) == SlotBag(ts) + SlotBag(t.kids)
    decreases k
  {
    hide SlotBag, Slots;
    var us, rest := ts[k := t], ts[1..];
    SlotsParts(ts);
    SlotsParts(us);
    ReplaceParts(ts, k, t);
    NoBag();
    if k == 0 {
      Glue(true, multiset{ts[0].slot}, SlotBag(ts[0].kids), SlotBag(rest), SlotBag(t.kids), SlotBag(us), SlotBag(ts));
    } else {
      BagReplace(rest, k - 1, t);
      Glue(false, multiset{ts[0].slot}, SlotBag(ts[0].kids), SlotBag(rest), SlotBag(t.kids), SlotBag(us), SlotBag(ts));
    }
  }

  lemma Glue(first: bool, a: multiset<int>, b: multiset<int>, c: multiset<int>, m: multiset<int>, u: multiset<int>, t: multiset<int>)
    requires t == a + b + c && u == (if first then a + m + c else a + b + (c + m)) && (first ==> b == multiset{})
    ensures u == t + m
  {
  }

  lemma NoBag()
    ensures SlotBag([]) == multiset{}
  {
  }

  lemma SlotsReplace(ts: seq<Tree>, k: nat, ks: seq<Tree>)
    requires k < |ts| && ts[k].kids == []
    ensures multiset(Slots(ts[k := ts[k].(kids := ks)])) == multiset(Slots(ts)) + multiset(Slots(ks))
  {
    BagReplace(ts, k, ts[k].(kids := ks));
    hide Slots;
  }

  // A node in the list gets embedded nodes.
  lemma {:induction false} LinkedReplace(a: seq<Node>, b: seq<Node>, p: int, ts: seq<Tree>, k: nat, ks: seq<Tree>)
    requires Linked(a, p, ts) && |a| == |b| && k < |ts| && ts[k].kids == [] && ks != [] && Distinct(Slots(ts))
    requires 0 <= ts[k].slot < |b| && b[ts[k].slot] == a[ts[k].slot].(embedded := b[ts[k].slot].embedded)
    requires Linked(b, b[ts[k].slot].embedded, ks)
    requires forall x :: x in Slots(ts) && x != ts[k].slot && 0 <= x < |a| ==> b[x] == a[x]
    ensures Linked(b, p, ts[k := ts[k].(kids := ks)])
    decreases k
  {
    hide Distinct;
    var us := ts[k := ts[k].(kids := ks)];
    SlotsApart(ts);
    assert ts[0].slot in Slots(ts) && forall x :: x in Slots(ts[0].kids) || x in Slots(ts[1..]) ==> x in Slots(ts);
    TopIn(ts[1..]);
    if k > 0 {
      assert us[1..] == ts[1..][k - 1 := ts[1..][k - 1].(kids := ks)] && us[0] == ts[0] && ts[k] == ts[1..][k - 1];
      LinkedFrame(a, b, a[p].embedded, ts[0].kids);
      LinkedReplace(a, b, a[p].next, ts[1..], k - 1, ks);
    } else {
      assert us[1..] == ts[1..];
      LinkedFrame(a, b, a[p].next, ts[1..]);
    }
  }

  // ---------- One element ----------

  // How parsing ends.  The source aborts where a message has more copies of a field than fit, and
  // where the node pool is exhausted.
  datatype Verdict = Ok | Error | Abort

  // Of free nodes at the start, asked are needed.
  ghost predicate Judged(v: Verdict, spec: Parsed, msg: Msg, queue: seq<int>, free: nat, asked: nat) {
    match v
    case Ok => spec == Done(msg) && |queue| + asked == free
    case Error => spec == Failed(msg) && asked <= free
    case Abort => spec.Aborted? || (queue == [] && free < asked)
  }

  // The element at place j has not been looked at.
  ghost predicate Unread(nodes: seq<Node>, ts: seq<Tree>, es: seq<Elem>, mode: Mode, j: nat)
    requires j < |ts| == |es|
  {
    && ts[j].kids == [] && 0 <= ts[j].slot < |nodes|
    && nodes[ts[j].slot] == LinkNode(es[j], mode, if j + 1 < |ts| then ts[j + 1].slot else NONE)
  }

  // The forest of a block of which the elements from k on have not been looked at; its nodes and
  // the free ones make up q0.
  ghost predicate Reading(nodes: seq<Node>, root: int, ts: seq<Tree>, es: seq<Elem>, mode: Mode, k: nat,
                          queue: seq<int>, q0: seq<int>)
  {
    && Linked(nodes, root, ts) && Kept(ts, queue, q0) && Distinct(q0) && |ts| == |es| >= k
    && forall j :: k <= j < |es| ==> Unread(nodes, ts, es, mode, j)
  }

  ghost predicate Within(a: seq<Node>, b: seq<Node>, q0: seq<int>) {
    |a| == |b| && forall x :: 0 <= x < |a| && x !in q0 ==> b[x] == a[x]
  }

  // The element a node was filled from.
  function ElemOf(n: Node): Elem {
    Elem(n.type_, n.length, n.instance, if n.value.Part? then n.value.at else 0)
  }

  // tlv_parse_embedded_block
  method ParseEmbedded(store: Store, tlv: int, mem: seq<Byte>, mode: Mode, ghost e: Elem, ghost queue: seq<int>)
    returns (root: int, aborted: bool, ghost taken: seq<int>)
    requires store.Valid() && queue == store.pool.queue && tlv !in queue && 0 <= tlv < |store.nodes|
    requires store.nodes[tlv].embedded == NONE && store.nodes[tlv].value.Part? && e == ElemOf(store.nodes[tlv])
    modifies store`nodes, store.pool, store.pool.free, store.pool.index
    ensures store.Valid() && (aborted ==> store.pool.queue == [])
    ensures aborted <==> |queue| < |Scan(mem, e.value, e.End(), mode)|
    ensures |taken| <= |queue| && taken == queue[..|taken|]
    ensures !aborted ==>
      && store.nodes[tlv] == old(store.nodes)[tlv].(embedded := root) && |old(store.nodes)| == |store.nodes|
      && (forall x :: 0 <= x < |store.nodes| && x != tlv && x !in queue ==> store.nodes[x] == old(store.nodes)[x])
      && Outcome(queue, taken, root, store.nodes, store.pool.queue, mode, TlvSpec.ParseBlock(mem, e.value, e.length, mode))
  {
    ghost var n0 := store.nodes;
    root, aborted, taken := store.ParseBlock(store.nodes[tlv].length, mem, store.nodes[tlv].value.at, mode);
    assert forall x :: x in taken ==> x in queue;
    if !aborted {
      ghost var n1 := store.nodes;
      store.nodes := store.nodes[tlv := store.nodes[tlv].(embedded := root)];
      match TlvSpec.ParseBlock(mem, e.value, e.length, mode) {
        case None =>
        case Some(es) => ChainFrame(n1, store.nodes, taken, es, mode);
      }
    }
  }

  lemma ChainFrame(a: seq<Node>, b: seq<Node>, slots: seq<int>, es: seq<Elem>, mode: Mode)
    requires Chain(a, slots, es, mode) && |a| == |b| && forall x :: x in slots && 0 <= x < |a| ==> b[x] == a[x]
    ensures Chain(b, slots, es, mode)
  {
    forall i | 0 <= i < |es|
      ensures ChainAt(b, slots, es, mode, i)
    {
      assert ChainAt(a, slots, es, mode, i) && slots[i] in slots;
    }
  }

  // A block that was just read, before any of its elements has been looked at.
  lemma FreshBlock(nodes: seq<Node>, taken: seq<int>, es: seq<Elem>, mode: Mode, queue: seq<int>, q0: seq<int>)
    requires Chain(nodes, taken, es, mode) && Plain(es, mode) && es != [] && Distinct(q0) && q0 == taken + queue
    ensures Reading(nodes, taken[0], TreesOf(taken, es, mode), es, mode, 0, queue, q0)
  {
    var ts := TreesOf(taken, es, mode);
    ChainLinked(nodes, taken, es, mode, 0);
    assert ts[0..] == ts && taken[0..] == taken;
    forall j | 0 <= j < |es|
      ensures Unread(nodes, ts, es, mode, j)
    {
      assert ChainAt(nodes, taken, es, mode, j);
    }
  }

  // The element at place k has been looked at, and the nodes embedded in its node are ks.
  lemma ReadOne(a: seq<Node>, b: seq<Node>, root: int, ts: seq<Tree>, es: seq<Elem>, mode: Mode, k: nat, r: int,
                ks: seq<Tree>, queue: seq<int>, queue2: seq<int>, q0: seq<int>)
    requires Reading(a, root, ts, es, mode, k, queue, q0) && k < |es| && |a| == |b| && ks != []
    requires Linked(b, r, ks) && Kept(ks, queue2, queue)
    requires Unread(a, ts, es, mode, k) && b[ts[k].slot] == a[ts[k].slot].(embedded := r)
    requires forall x :: 0 <= x < |a| && x != ts[k].slot && x !in queue ==> b[x] == a[x]
    ensures Reading(b, root, ts[k := ts[k].(kids := ks)], es, mode, k + 1, queue2, q0)
  {
    hide Distinct, Slots, Linked;
    var us := ts[k := ts[k].(kids := ks)];
    assert Unread(a, ts, es, mode, k);
    KeptApart(ts, queue, q0);
    LinkedReplace(a, b, root, ts, k, ks);
    SlotsReplace(ts, k, ks);
    TopIn(ts);
    forall j | k + 1 <= j < |es|
      ensures Unread(b, us, es, mode, j)
    {
      assert Unread(a, ts, es, mode, j) && us[j] == ts[j] && ts[j].slot in Slots(ts);
      TopApart(ts, k, j);
    }
  }

  lemma {:induction false} TopApart(ts: seq<Tree>, i: nat, j: nat)
    requires i < j < |ts| && Distinct(Slots(ts))
    ensures ts[i].slot != ts[j].slot
    decreases i
  {
    SlotsApart(ts);
    TopIn(ts[1..]);
    assert ts[j] == ts[1..][j - 1];
    if i == 0 {
    } else {
      TopApart(ts[1..], i - 1, j - 1);
    }
  }

  // tlv_parse_leaf or the embedded block of one element, and the presence word.
  method ParseField(store: Store, s: Struct, d: Desc, tlv: int, at: int, depth: nat, mode: Mode, mem: seq<Byte>,
                    ghost root: int, ghost ts: seq<Tree>, ghost es: seq<Elem>, ghost k: nat, ghost q0: seq<int>)
    returns (v: Verdict, ghost us: seq<Tree>)
    requires store.Valid() && Reading(store.nodes, root, ts, es, mode, k, store.pool.queue, q0) && k < |es|
    requires tlv == ts[k].slot && Plain(es, mode) && (d.Compound? ==> Shallow(d.kids, depth + 1))
    modifies store`nodes, store.pool, store.pool.free, store.pool.index, s
    ensures store.Valid()
    ensures Judged(v, ParseOne(mode, mem, d, es[k], old(s.m), at), s.m, store.pool.queue, |old(store.pool.queue)|,
                   AskedOne(mode, mem, d, es[k], old(s.m), at))
    ensures v != Abort ==>
      && Reading(store.nodes, root, us, es, mode, k + 1, store.pool.queue, q0) && Within(old(store.nodes), store.nodes, q0)
      && |us| == |ts| && (forall j :: 0 <= j < |us| ==> us[j].slot == ts[j].slot)
    decreases d, 1
  {
    v, us := Abort, ts;
    assert Unread(store.nodes, ts, es, mode, k);
    if d.Leaf? {
      var m := ParseLeaf(mem, d, ElemOf(store.nodes[tlv]), s.m, at);
      v := Error;
      if m.Some? {
        s.m := m.value.Mark(at);
        v := Ok;
      }
    } else if d.Compound? {
      v, us := ParseMember(store, s, d, tlv, at, depth, mode, mem, root, ts, es, k, q0);
    }
  }

  // The part for a compound.
  method ParseMember(store: Store, s: Struct, d: Desc, tlv: int, at: int, depth: nat, mode: Mode, mem: seq<Byte>,
                     ghost root: int, ghost ts: seq<Tree>, ghost es: seq<Elem>, ghost k: nat, ghost q0: seq<int>)
    returns (v: Verdict, ghost us: seq<Tree>)
    requires store.Valid() && Reading(store.nodes, root, ts, es, mode, k, store.pool.queue, q0) && k < |es|
    requires tlv == ts[k].slot && Plain(es, mode) && d.Compound? && Shallow(d.kids, depth + 1)
    modifies store`nodes, store.pool, store.pool.free, store.pool.index, s
    ensures store.Valid()
    ensures Judged(v, ParseOne(mode, mem, d, es[k], old(s.m), at), s.m, store.pool.queue, |old(store.pool.queue)|,
                   AskedOne(mode, mem, d, es[k], old(s.m), at))
    ensures v != Abort ==>
      && Reading(store.nodes, root, us, es, mode, k + 1, store.pool.queue, q0) && Within(old(store.nodes), store.nodes, q0)
      && |us| == |ts| && (forall j :: 0 <= j < |us| ==> us[j].slot == ts[j].slot)
    decreases d, 0
  {
    hide Slots, Slice, Msg.Store, Scan, Length, Linked;
    us := ts;
    ghost var n0, queue, e := store.nodes, store.pool.queue, es[k];
    SlotFree(n0, root, ts, es, mode, k, queue, q0);
    var r, aborted;
    ghost var taken;
    r, aborted, taken := ParseEmbedded(store, tlv, mem, mode, e, queue);
    if aborted {
      return Abort, us;
    }
    if r == NONE {
      ReadNothing(n0, store.nodes, root, ts, es, mode, k, queue, store.pool.queue, q0);
      return Error, us;
    }
    ghost var inner := Scan(mem, e.value, e.value + e.length, mode);
    ScanPlain(mem, e.value, e.value + e.length, mode);
    KeptApart(ts, queue, q0);
    ghost var ks;
    v, ks := ParseCompound(store, s, d.kids, r, at + PRESENCE, depth + 1, mode, mem, taken, inner);
    if v == Ok {
      s.m := s.m.Mark(at);
    }
    if v != Abort {
      ReadOne(n0, store.nodes, root, ts, es, mode, k, r, ks, queue, store.pool.queue, q0);
      us := ts[k := ts[k].(kids := ks)];
    }
  }

  lemma SlotFree(nodes: seq<Node>, root: int, ts: seq<Tree>, es: seq<Elem>, mode: Mode, k: nat, queue: seq<int>, q0: seq<int>)
    requires Reading(nodes, root, ts, es, mode, k, queue, q0) && k < |es| && Plain(es, mode)
    ensures Unread(nodes, ts, es, mode, k) && ts[k].slot !in queue && ElemOf(nodes[ts[k].slot]) == es[k]
    ensures ts[k].slot in q0
  {
    assert Unread(nodes, ts, es, mode, k);
    KeptApart(ts, queue, q0);
    TopIn(ts);
  }

  // The embedded block did not parse: its nodes are free again.
  lemma ReadNothing(a: seq<Node>, b: seq<Node>, root: int, ts: seq<Tree>, es: seq<Elem>, mode: Mode, k: nat,
                    queue: seq<int>, queue2: seq<int>, q0: seq<int>)
    requires Reading(a, root, ts, es, mode, k, queue, q0) && k < |es| && |a| == |b| && multiset(queue2) == multiset(queue)
    requires Unread(a, ts, es, mode, k) && b[ts[k].slot] == a[ts[k].slot].(embedded := NONE)
    requires forall x :: 0 <= x < |a| && x != ts[k].slot && x !in queue ==> b[x] == a[x]
    ensures Reading(b, root, ts, es, mode, k + 1, queue2, q0) && Within(a, b, q0)
  {
    KeptApart(ts, queue, q0);
    TopIn(ts);
    assert forall x :: x in Slots(ts) ==> x in q0;
    assert b[ts[k].slot] == a[ts[k].slot];
    LinkedFrame(a, b, root, ts);
    forall j | k + 1 <= j < |es|
      ensures Unread(b, ts, es, mode, j)
    {
      assert Unread(a, ts, es, mode, j) && ts[j].slot in Slots(ts);
    }
  }

  // tlv_count_node_find: the count of a type and instance, entered as 0 when it is new.
  method CountOf(counts: map<nat, nat>, type_: nat, instance: nat) returns (r: Option<map<nat, nat>>)
    ensures r == if Key(type_, instance) in counts then Some(counts)
                 else if |counts| == MAX_CHILDREN then None
                 else Some(counts[Key(type_, instance) := 0])
  {
    var key := Key(type_, instance);
    if key in counts {
      return Some(counts);
    }
    if |counts| == MAX_CHILDREN {
      return None;
    }
    return Some(counts[key := 0]);
  }

  method LocateField(ds: seq<Desc>, e: Elem, msg: Msg, p: int, counts: map<nat, nat>) returns (r: Place)
    ensures r == Locate(ds, e, msg, p, counts)
  {
    hide Find, FirstFree, Key;
    var key := Key(e.type_, e.instance);
    var entered := CountOf(counts, e.type_, e.instance);
    if entered.None? {
      return Full;
    }
    var c := entered.value;
    assert c == counts[key := c[key]];
    var found := FindDesc(ds, e.type_, e.instance, c[key]);
    if found.None? {
      return Unknown(c);
    }
    var (i, offset) := found.value;
    if i + 1 < |ds| && ds[i + 1].More? {
      var at := FreeCopy(msg, p + offset, ds[i].Vsize(), ds[i + 1].length);
      return if at.None? then NoRoom else There(i, at.value, c);
    } else {
      assert counts[key := c[key] + 1] == c[key := c[key] + 1];
      return There(i, p + offset, c[key := c[key] + 1]);
    }
  }

  // tlv_parse_compound on the block whose nodes are taken.
  method ParseCompound(store: Store, s: Struct, ds: seq<Desc>, first: int, p: int, depth: nat, mode: Mode, mem: seq<Byte>,
                       ghost taken: seq<int>, ghost es: seq<Elem>)
    returns (v: Verdict, ghost ts: seq<Tree>)
    requires store.Valid() && Chain(store.nodes, taken, es, mode) && Plain(es, mode) && es != [] && first == taken[0]
    requires Distinct(taken + store.pool.queue) && Shallow(ds, depth)
    modifies store`nodes, store.pool, store.pool.free, store.pool.index, s
    ensures store.Valid()
    ensures Judged(v, ParseAll(mode, mem, ds, es, old(s.m), p, map[]), s.m, store.pool.queue, |old(store.pool.queue)|,
                   Asked(mode, mem, ds, es, old(s.m), p, map[]))
    ensures v != Abort ==> Settled(old(store.nodes), store.nodes, first, ts, store.pool.queue, taken + old(store.pool.queue))
    decreases ds, 2
  {
    ghost var q0 := taken + store.pool.queue;
    ts := TreesOf(taken, es, mode);
    FreshBlock(store.nodes, taken, es, mode, store.pool.queue, q0);
    assert es[0..] == es;
    v, ts := ParseList(ParseAll(mode, mem, ds, es, s.m, p, map[]), Asked(mode, mem, ds, es, s.m, p, map[]), store, s, ds, first, p, depth, mode, mem, ts, es, q0);
  }

  // Its loop.
  method ParseList(ghost goal: Parsed, ghost asked: nat, store: Store, s: Struct, ds: seq<Desc>, first: int, p: int, depth: nat, mode: Mode, mem: seq<Byte>,
                   ghost trees: seq<Tree>, ghost es: seq<Elem>, ghost q0: seq<int>)
    returns (v: Verdict, ghost ts: seq<Tree>)
    requires store.Valid() && Reading(store.nodes, first, trees, es, mode, 0, store.pool.queue, q0)
    requires es != [] && Plain(es, mode) && Shallow(ds, depth) && goal == ParseAll(mode, mem, ds, es[0..], s.m, p, map[])
    requires asked == Asked(mode, mem, ds, es[0..], s.m, p, map[])
    modifies store`nodes, store.pool, store.pool.free, store.pool.index, s
    ensures store.Valid() && Judged(v, goal, s.m, store.pool.queue, |old(store.pool.queue)|, asked)
    ensures v != Abort ==> Settled(old(store.nodes), store.nodes, first, ts, store.pool.queue, q0)
    decreases ds, 1
  {
    hide Msg.Store, ParseOne, Slots, LinkNode, Plain, Kept, Locate;
    ghost var n0, k, free := store.nodes, 0, |store.pool.queue|;
    var tlv, counts: map<nat, nat> := first, map[];
    v, ts := Ok, trees;
    FirstAt(n0, ts, es, mode);
    while tlv != NONE
      invariant 0 <= k <= |es| && v == Ok
      invariant store.Valid() && Reading(store.nodes, first, ts, es, mode, k, store.pool.queue, q0)
      invariant tlv == At(ts, k) && Within(n0, store.nodes, q0) && (tlv == NONE ==> k == |es|)
      invariant ParseAll(mode, mem, ds, es[k..], s.m, p, counts) == goal
      invariant free + Asked(mode, mem, ds, es[k..], s.m, p, counts) == asked + |store.pool.queue|
      decreases |es| - k
    {
      var next;
      v, next, counts, ts := ParseTurn(goal, Asked(mode, mem, ds, es[k..], s.m, p, counts), store, s, ds, tlv, p, depth, mode, mem, counts, first, ts, es, k, q0);
      if v != Ok {
        return;
      }
      tlv, k := next, k + 1;
    }
    assert es[k..] == [];
  }

  lemma FirstAt(nodes: seq<Node>, ts: seq<Tree>, es: seq<Elem>, mode: Mode)
    requires |ts| == |es| && es != [] && forall j :: 0 <= j < |es| ==> Unread(nodes, ts, es, mode, j)
    ensures At(ts, 0) != NONE
  {
    assert Unread(nodes, ts, es, mode, 0);
  }

  ghost function At(ts: seq<Tree>, k: nat): int { if k < |ts| then ts[k].slot else NONE }

  lemma NextAt(nodes: seq<Node>, ts: seq<Tree>, es: seq<Elem>, mode: Mode, k: nat)
    requires |ts| == |es| && k < |es| && forall j :: k <= j < |es| ==> Unread(nodes, ts, es, mode, j)
    ensures 0 <= ts[k].slot < |nodes| && nodes[ts[k].slot].next == At(ts, k + 1)
    ensures At(ts, k + 1) == NONE <==> k + 1 == |es|
  {
    assert Unread(nodes, ts, es, mode, k);
    assert k + 1 < |es| ==> Unread(nodes, ts, es, mode, k + 1);
  }

  // The nodes a parsed block leaves behind, whether or not its fields were all right.
  ghost predicate Settled(a: seq<Node>, b: seq<Node>, root: int, ts: seq<Tree>, queue: seq<int>, q0: seq<int>) {
    Linked(b, root, ts) && Kept(ts, queue, q0) && ts != [] && Within(a, b, q0)
  }

  // One turn of its loop; goal is what the whole block comes to.
  method ParseTurn(ghost goal: Parsed, ghost asked: nat, store: Store, s: Struct, ds: seq<Desc>, tlv: int, p: int, depth: nat, mode: Mode, mem: seq<Byte>,
                   counts: map<nat, nat>, ghost root: int, ghost ts: seq<Tree>, ghost es: seq<Elem>, ghost k: nat, ghost q0: seq<int>)
    returns (v: Verdict, next: int, counts2: map<nat, nat>, ghost us: seq<Tree>)
    requires store.Valid() && Reading(store.nodes, root, ts, es, mode, k, store.pool.queue, q0) && k < |es|
    requires tlv == ts[k].slot && Plain(es, mode) && Shallow(ds, depth)
    requires goal == ParseAll(mode, mem, ds, es[k..], s.m, p, counts) && asked == Asked(mode, mem, ds, es[k..], s.m, p, counts)
    modifies store`nodes, store.pool, store.pool.free, store.pool.index, s
    ensures store.Valid() && (v == Ok ==> ParseAll(mode, mem, ds, es[k + 1..], s.m, p, counts2) == goal)
    ensures v == Ok ==>
      |old(store.pool.queue)| + Asked(mode, mem, ds, es[k + 1..], s.m, p, counts2) == asked + |store.pool.queue|
    ensures v != Ok ==> Judged(v, goal, s.m, store.pool.queue, |old(store.pool.queue)|, asked)
    ensures v == Ok ==> Reading(store.nodes, root, us, es, mode, k + 1, store.pool.queue, q0)
    ensures v == Ok ==> next == At(us, k + 1) && (next == NONE ==> k + 1 == |es|)
    ensures v != Abort ==> Settled(old(store.nodes), store.nodes, root, us, store.pool.queue, q0)
    decreases ds, 0
  {
    us := ts;
    SlotFree(store.nodes, root, ts, es, mode, k, store.pool.queue, q0);
    NextAt(store.nodes, ts, es, mode, k);
    var e := ElemOf(store.nodes[tlv]);
    next := store.nodes[tlv].next;
    assert es[k..][0] == e && es[k..][1..] == es[k + 1..];
    var place := LocateField(ds, e, s.m, p, counts);
    match place {
      case Full => v, counts2 := Error, counts;
      case Unknown(c) => v, counts2 := Ok, c;
      case NoRoom => v, counts2 := Abort, counts;
      case There(i, at, c) =>
        counts2 := c;
        v, us := ParseField(store, s, ds[i], tlv, at, depth, mode, mem, root, ts, es, k, q0);
    }
  }

  // ogs_tlv_parse_msg on a packet of the given length at the start of mem
  method ParsePacket(store: Store, s: Struct, ds: seq<Desc>, mem: seq<Byte>, length: nat, mode: Mode) returns (v: Verdict)
    requires store.Valid() && Shallow(ds, 0)
    modifies store`nodes, store.pool, store.pool.free, store.pool.index, s
    ensures store.Valid() && (v == Abort ==> ParseMsg(mode, mem, length, ds, old(s.m)).Aborted? || store.pool.queue == [])
    ensures v == Abort <==> ParseMsg(mode, mem, length, ds, old(s.m)).Aborted?
                            || |old(store.pool.queue)| < AskedMsg(mode, mem, length, ds, old(s.m))
    ensures v != Abort ==> ParseMsg(mode, mem, length, ds, old(s.m)) == if v == Ok then Done(s.m) else Failed(s.m)
    ensures v != Abort ==> multiset(store.pool.queue) == multiset(old(store.pool.queue))
  {
    hide Scan, Asked, ParseAll;
    ghost var q := store.pool.queue;
    var root, aborted;
    ghost var taken;
    root, aborted, taken := store.ParseBlock(length, mem, 0, mode);
    if aborted {
      return Abort;
    }
    if root == NONE {
      RootNone(q, taken, root, store.nodes, store.pool.queue, mode, TlvSpec.ParseBlock(mem, 0, length, mode));
      return Error;
    }
    ghost var es := Scan(mem, 0, length, mode);
    ScanPlain(mem, 0, length, mode);
    RootSome(q, taken, root, store.nodes, store.pool.queue, mode, TlvSpec.ParseBlock(mem, 0, length, mode));
    ghost var q0, ts := taken + store.pool.queue, [];
    v, ts := ParseCompound(store, s, ds, root, 0, 0, mode, mem, taken, es);
    if v != Abort {
      GiveBack(store, root, ts, q0);
    }
  }

  lemma RootNone(q: seq<int>, taken: seq<int>, root: int, nodes: seq<Node>, queue: seq<int>, mode: Mode, r: Option<seq<Elem>>)
    requires Outcome(q, taken, root, nodes, queue, mode, r) && root == NONE
    ensures r == None && multiset(queue) == multiset(q)
  {
  }

  lemma RootSome(q: seq<int>, taken: seq<int>, root: int, nodes: seq<Node>, queue: seq<int>, mode: Mode, r: Option<seq<Elem>>)
    requires Outcome(q, taken, root, nodes, queue, mode, r) && root != NONE
    ensures r.Some? && taken != [] && root == taken[0] && Chain(nodes, taken, r.value, mode) && q == taken + queue
  {
  }

  // ogs_tlv_free_all: every node taken for the packet is free again.
  method GiveBack(store: Store, root: int, ghost ts: seq<Tree>, ghost q0: seq<int>)
    requires store.Valid() && Linked(store.nodes, root, ts) && Kept(ts, store.pool.queue, q0) && Distinct(q0)
    modifies store.pool, store.pool.free, store.pool.index
    ensures store.Valid() && multiset(store.pool.queue) == multiset(q0)
  {
    KeptApart(ts, store.pool.queue, q0);
    LinkedSlots(store.nodes, root, ts);
    FreesAll(ts);
    store.FreeAll(root, ts);
  }
}
