// lib/core/ogs-tlv-msg.c: building the forest of a message struct, and a packet from it.
module TlvBuild {
  import opened Prelude
  import opened TlvSpec
  import opened TlvMsgSpec
  import opened TlvHeap
  import opened TlvList
  import Proof = TlvMsgProof

  // A message struct, whose numbers are swapped to network order where they stand.
  class Struct {
    var m: Msg

    constructor (m: Msg)
      ensures this.m == m
    {
      this.m := m;
    }
  }

  // ---------- Host order ----------

  // How a little-endian host keeps the low k bytes of n.
  function LittleEndian(n: nat, k: nat): (bs: seq<Byte>)
    ensures |bs| == k
  {
    if k == 0 then [] else [n % 256] + LittleEndian(n / 256, k - 1)
  }

  function FromLittle(bs: seq<Byte>): nat {
    if bs == [] then 0 else bs[0] + 256 * FromLittle(bs[1..])
  }

  // htobe16 and htobe32 there: the number whose bytes in memory are those of n, reversed.
  function Swap(n: nat, k: nat): nat { FromLittle(BigEndian(n, k)) }

  // What a number field holds once its leaf has been added; 24 bits are first moved up.
  function Stored(k: nat, n: nat): nat {
    if k == 2 then Swap(n, 2) else if k == 3 then Swap(n * 256, 4) else if k == 4 then Swap(n, 4) else n
  }

  lemma {:induction false} LittleBack(bs: seq<Byte>)
    ensures LittleEndian(FromLittle(bs), |bs|) == bs
    decreases bs
  {
    if bs == [] {
    } else {
      LittleBack(bs[1..]);
      assert FromLittle(bs) % 256 == bs[0] && FromLittle(bs) / 256 == FromLittle(bs[1..]);
    }
  }

  lemma {:induction false} LittlePrefix(n: nat, w: nat, k: nat)
    requires k <= w
    ensures LittleEndian(n, w)[..k] == LittleEndian(n, k)
    decreases k
  {
    if k == 0 {
    } else {
      LittlePrefix(n / 256, w - 1, k - 1);
    }
  }

  lemma OneByte(n: nat)
    ensures LittleEndian(n, 1) == BigEndian(n, 1)
  {
    assert LittleEndian(n, 1) == [n % 256] + LittleEndian(n / 256, 0) && BigEndian(n, 1) == BigEndian(n / 256, 0) + [n % 256];
  }

  lemma ThreeBytes(n: nat)
    ensures LittleEndian(Stored(3, n), 3) == BigEndian(n, 3)
  {
    Shifted(n);
    hide LittleEndian, BigEndian, FromLittle;
    LittleBack(BigEndian(n * 256, 4));
    LittlePrefix(Stored(3, n), 4, 3);
    assert (BigEndian(n, 3) + [0])[..3] == BigEndian(n, 3);
  }

  lemma Shifted(n: nat)
    ensures BigEndian(n * 256, 4) == BigEndian(n, 3) + [0]
  {
    var m := n * 256;
    assert m / 256 == n && m % 256 == 0;
    assert BigEndian(m, 4) == BigEndian(m / 256, 3) + [m % 256];
  }

  // The bytes a value pointer shows are the number in network order.
  lemma StoredShows(k: nat, n: nat)
    requires 1 <= k <= 4
    ensures LittleEndian(Stored(k, n), k) == BigEndian(n, k)
  {
    hide LittleEndian, BigEndian, FromLittle;
    match k
    case 1 => OneByte(n);
    case 2 => LittleBack(BigEndian(n, 2));
    case 3 => ThreeBytes(n);
    case 4 => LittleBack(BigEndian(n, 4));
  }

  // ---------- What building does to the struct ----------

  // into, once the field of m at a has been built.
  ghost function ClobberOne(d: Desc, m: Msg, a: int, into: Msg): Msg
    decreases d, 0
  {
    match d
    case Leaf(Num(k), _, _, _, _) => if k == 1 then into else into.Store(a, Int(Stored(k, m.Int(a))))
    case Compound(_, _, _, kids) => Clobber(kids, m, Members(d, m, a), into)
    case _ => into
  }

  ghost function Clobber(ds: seq<Desc>, m: Msg, fs: seq<Field>, into: Msg): Msg
    requires InTable(ds, fs)
    decreases ds, 1, fs
  {
    if fs == [] then into else Clobber(ds, m, fs[1..], ClobberOne(ds[fs[0].i], m, fs[0].a, into))
  }

  // s still holds at a and behind it what m does.
  ghost predicate Untouched(s: Msg, m: Msg, a: int) {
    && s.presence == m.presence
    && forall x :: x >= a ==> (x in s.values <==> x in m.values) && (x in m.values ==> s.values[x] == m.values[x])
  }

  lemma {:induction false} ClobberRoom(ds: seq<Desc>, m: Msg, fs: seq<Field>, into: Msg, lo: int, hi: int)
    requires forall i :: 0 <= i < |ds| ==> Proof.WellFormedOne(ds[i])
    requires InTable(ds, fs) && Proof.Between(ds, fs, lo, hi)
    requires into.presence == m.presence && Untouched(into, m, hi)
    ensures Untouched(Clobber(ds, m, fs, into), m, hi)
    decreases ds, 1, fs
  {
    if fs == [] {
    } else {
      ClobberOneAbove(ds[fs[0].i], m, fs[0].a, into, hi);
      ClobberRoom(ds, m, fs[1..], ClobberOne(ds[fs[0].i], m, fs[0].a, into), lo, hi);
    }
  }

  lemma {:induction false} ClobberOneAbove(d: Desc, m: Msg, a: int, into: Msg, hi: int)
    requires Proof.WellFormedOne(d) && !d.More? && a + d.Vsize() <= hi && Untouched(into, m, hi)
    ensures Untouched(ClobberOne(d, m, a, into), m, hi)
    decreases d, 0
  {
    if d.Compound? {
      Proof.FieldsRoom(d.kids, 0, Copies(d.kids, 0), m, a + PRESENCE);
      ClobberRoom(d.kids, m, Members(d, m, a), into, a, hi);
    }
  }

  // ---------- Building ----------

  // What the builder reads is there: a fixed string has as many bytes as its descriptor says.
  ghost predicate ReadableOne(d: Desc, m: Msg, a: int)
    decreases d, 0
  {
    match d
    case Leaf(Num(k), _, _, _, _) => 1 <= k <= 4
    case Leaf(FixedStr, _, length, _, _) => |m.Data(a)| >= length
    case Compound(_, _, _, kids) => Readable(kids, m, Members(d, m, a))
    case _ => true
  }

  ghost predicate Readable(ds: seq<Desc>, m: Msg, fs: seq<Field>)
    requires InTable(ds, fs)
    decreases ds, 1
  {
    forall q :: 0 <= q < |fs| ==> ReadableOne(ds[fs[q].i], m, fs[q].a)
  }

  // The depth assertion of the source holds for the whole table.
  ghost predicate Shallow(ds: seq<Desc>, depth: nat) {
    depth <= 8 && forall i :: 0 <= i < |ds| && ds[i].Compound? ==> Shallow(ds[i].kids, depth + 1)
  }

  // The nodes, the free slots and the forest while one list is being built.
  ghost predicate Building(store: Store, n0: seq<Node>, parent: int, root: int, ts: seq<Tree>, q: seq<int>)
    reads store, store.pool, store.pool.free, store.pool.index
  {
    store.Valid() && Level(n0, store.nodes, parent, root, ts, q, store.pool.queue)
  }

  // ogs_tlv_embed below a parent, ogs_tlv_add at the top, where tlv is any node of the list.
  method Attach(store: Store, parent: int, tlv: int, mode: Mode, type_: nat, instance: nat, value: Value,
                ghost n0: seq<Node>, ghost root: int, ghost ts: seq<Tree>, ghost q: seq<int>) returns (s: int)
    requires Building(store, n0, parent, root, ts, q) && tlv == Last(ts)
    modifies store`nodes, store.pool, store.pool.free, store.pool.index
    ensures store.Valid() && (s == NONE ==> store.pool.queue == [] && |q| == |Slots(ts)|)
    ensures s != NONE ==> Building(store, n0, parent, if root == NONE then s else root,
                                   ts + [Tree(s, mode, type_, instance, value, [])], q)
  {
    ghost var n, queue := store.nodes, store.pool.queue;
    s := store.Get();
    if s != NONE {
      var node := CLEARED.(mode := mode, type_ := type_, length := Length(value), instance := instance, value := value);
      LevelJoined(n0, n, parent, root, ts, q, queue, s, node, Tree(s, mode, type_, instance, value, []));
      Fill(store, parent, tlv, s, node, n, root, ts);
    }
  }

  // The assignments of ogs_tlv_embed and ogs_tlv_add.
  method Fill(store: Store, parent: int, tlv: int, s: int, node: Node, ghost n: seq<Node>, ghost root: int, ghost ts: seq<Tree>)
    requires 0 <= s < |n| && store.nodes == n[s := CLEARED] && ListAt(n, root, ts) && tlv == Last(ts) && s !in Slots(ts)
    requires parent != NONE ==> 0 <= parent < |n| && n[parent].embedded == root && parent != s
    modifies store`nodes
    ensures 0 <= s < |n| && (root == NONE ==> parent == NONE || 0 <= parent < |n|)
    ensures root != NONE ==> 0 <= root < |n| && 0 <= n[root].tail < |n|
    ensures store.nodes == Joined(n, parent, root, s, node)
  {
    var head := if parent != NONE then store.nodes[parent].embedded else tlv;
    RootIn(n, root, ts);
    if head == NONE {
      store.nodes := store.nodes[s := node.(head := s, tail := s, parent := parent)];
      if parent != NONE {
        store.nodes := store.nodes[parent := store.nodes[parent].(embedded := s)];
      }
    } else {
      assert tlv in Slots(ts) && n[tlv].head == root by { assert ts[|ts| - 1].slot == tlv; }
      if parent == NONE {
        head := store.nodes[head].head;
      }
      var last := store.nodes[head].tail;
      store.nodes := store.nodes[s := node.(head := head)];
      store.nodes := store.nodes[last := store.nodes[last].(next := s)];
      store.nodes := store.nodes[head := store.nodes[head].(tail := s)];
    }
  }

  // The value tlv_add_leaf points a leaf to; a number is swapped in place first.
  method LeafValue(d: Desc, s: Struct, a: int, ghost m: Msg) returns (value: Option<seq<Byte>>)
    requires d.Leaf? && ReadableOne(d, m, a) && Untouched(s.m, m, a)
    modifies s
    ensures value == LeafBytes(d, m, a) && s.m == ClobberOne(d, m, a, old(s.m))
  {
    match d.kind
    case Num(k) =>
      if k != 1 {
        s.m := s.m.Store(a, Int(Stored(k, s.m.Int(a))));
      }
      StoredShows(k, m.Int(a));
      return Some(LittleEndian(s.m.Int(a), k));
    case FixedStr => return Some(s.m.Data(a)[..d.length]);
    case VarStr => return if s.m.Data(a) == [] then None else Some(s.m.Data(a));
    case Null => return Some([]);
  }

  // tlv_add_leaf.  The source aborts where this one sets aborted.
  method AddLeaf(store: Store, parent: int, tlv: int, d: Desc, s: Struct, a: int, mode: Mode, ghost m: Msg,
                 ghost n0: seq<Node>, ghost root: int, ghost ts: seq<Tree>, ghost q: seq<int>)
    returns (r: int, aborted: bool, ghost t: Tree)
    requires d.Leaf? && ReadableOne(d, m, a) && Untouched(s.m, m, a)
    requires Building(store, n0, parent, root, ts, q) && tlv == Last(ts)
    modifies store`nodes, store.pool, store.pool.free, store.pool.index, s
    ensures store.Valid() && (aborted ==> store.pool.queue == [] && |q| < |Slots(ts)| + SpentOne(mode, d, m, a))
    ensures !aborted ==> Added(store, mode, d, m, a, s, old(s.m), r, t, n0, parent, root, ts, q)
  {
    var value := LeafValue(d, s, a, m);
    r, aborted, t := NONE, false, Tree(NONE, mode, 0, 0, Bytes([]), []);
    if value.Some? {
      r := Attach(store, parent, tlv, mode, d.type_, d.instance, Bytes(value.value), n0, root, ts, q);
      aborted, t := r == NONE, Tree(r, mode, d.type_, d.instance, Bytes(value.value), []);
    }
  }

  // After a field: no node if it cannot be built, otherwise the list with its tree.
  ghost predicate Added(store: Store, mode: Mode, d: Desc, m: Msg, a: int, s: Struct, was: Msg, r: int, t: Tree,
                        n0: seq<Node>, parent: int, root: int, ts: seq<Tree>, q: seq<int>)
    reads store, store.pool, store.pool.free, store.pool.index, s
  {
    && (r == NONE <==> BuildOne(mode, d, m, a).None?)
    && (r == NONE ==> |store.pool.queue| + |Slots(ts)| + SpentOne(mode, d, m, a) == |q|)
    && (r != NONE ==> 1 + |Slots(t.kids)| == SpentOne(mode, d, m, a))
    && (r != NONE ==>
          && BuildOne(mode, d, m, a) == Some(EraseOne(t)) && t.slot == r && s.m == ClobberOne(d, m, a, was)
          && Building(store, n0, parent, if root == NONE then r else root, ts + [t], q))
  }

  // Either branch of the loop body of tlv_add_compound, for a field that is present.
  method AddOne(store: Store, parent: int, tlv: int, d: Desc, s: Struct, a: int, depth: nat, mode: Mode, ghost m: Msg,
                ghost n0: seq<Node>, ghost root: int, ghost ts: seq<Tree>, ghost q: seq<int>)
    returns (r: int, count: nat, aborted: bool, ghost t: Tree)
    requires Proof.WellFormedOne(d) && !d.More? && ReadableOne(d, m, a) && Untouched(s.m, m, a)
    requires d.Compound? ==> Shallow(d.kids, depth + 1)
    requires Building(store, n0, parent, root, ts, q) && tlv == Last(ts)
    modifies store`nodes, store.pool, store.pool.free, store.pool.index, s
    ensures store.Valid() && (aborted ==> store.pool.queue == [] && |q| < |Slots(ts)| + SpentOne(mode, d, m, a))
    ensures !aborted ==> Added(store, mode, d, m, a, s, old(s.m), r, t, n0, parent, root, ts, q)
    ensures !aborted && r != NONE ==> count == 1 + |Slots(t.kids)|
    decreases d, 1
  {
    if d.Leaf? {
      r, aborted, t := AddLeaf(store, parent, tlv, d, s, a, mode, m, n0, root, ts, q);
      count := 1;
    } else {
      r, count, aborted, t := AddNested(store, parent, tlv, d, s, a, depth, mode, m, n0, root, ts, q);
    }
  }

  // Its branch for a compound: a node, and the fields below it.
  method AddNested(store: Store, parent: int, tlv: int, d: Desc, s: Struct, a: int, depth: nat, mode: Mode, ghost m: Msg,
                   ghost n0: seq<Node>, ghost root: int, ghost ts: seq<Tree>, ghost q: seq<int>)
    returns (r: int, count: nat, aborted: bool, ghost t: Tree)
    requires Proof.WellFormedOne(d) && d.Compound? && ReadableOne(d, m, a) && Untouched(s.m, m, a) && Shallow(d.kids, depth + 1)
    requires Building(store, n0, parent, root, ts, q) && tlv == Last(ts)
    modifies store`nodes, store.pool, store.pool.free, store.pool.index, s
    ensures store.Valid() && (aborted ==> store.pool.queue == [] && |q| < |Slots(ts)| + SpentOne(mode, d, m, a))
    ensures !aborted ==> Added(store, mode, d, m, a, s, old(s.m), r, t, n0, parent, root, ts, q)
    ensures !aborted && r != NONE ==> count == 1 + |Slots(t.kids)|
    decreases d, 0
  {
    ghost var t0 := Tree(NONE, mode, d.type_, d.instance, Bytes([]), []);
    r := Attach(store, parent, tlv, mode, d.type_, d.instance, Bytes([]), n0, root, ts, q);
    count, aborted, t := 0, r == NONE, t0;
    if !aborted {
      t0 := t0.(slot := r);
      ghost var n1, queue1, first := store.nodes, store.pool.queue, if root == NONE then r else root;
      LastLive(n0, n1, parent, first, ts, t0, q, queue1);
      hide Level, Linked, LinkedOne, Added;
      var emb;
      ghost var ks, was := [], s.m;
      emb, count, aborted, ks := AddCompound(store, r, d.kids, s, a + PRESENCE, depth + 1, mode, m);
      if !aborted {
        if count == 0 {
          RefusedNested(store, mode, d, m, a, s, was, t0, n0, n1, parent, root, ts, q, queue1);
          r := NONE;
        } else {
          t, count := t0.(kids := ks), 1 + count;
          AddedNested(store, mode, d, m, a, s, was, t0, n0, n1, parent, root, ts, q, queue1, emb, ks);
        }
      }
    }
  }

  lemma RefusedNested(store: Store, mode: Mode, d: Desc, m: Msg, a: int, s: Struct, was: Msg, t: Tree, n0: seq<Node>, n1: seq<Node>,
                      parent: int, root: int, ts: seq<Tree>, q: seq<int>, queue1: seq<int>)
    requires d.Compound? && t.kids == [] && Level(n0, n1, parent, if root == NONE then t.slot else root, ts + [t], q, queue1)
    requires Build(mode, d.kids, m, Members(d, m, a)) in {None, Some([])}
    requires |store.pool.queue| + Spent(mode, d.kids, m, Members(d, m, a)) == |queue1|
    ensures Added(store, mode, d, m, a, s, was, NONE, t, n0, parent, root, ts, q)
  {
    SlotsSnoc(ts, t);
  }

  lemma AddedNested(store: Store, mode: Mode, d: Desc, m: Msg, a: int, s: Struct, was: Msg, t: Tree, n0: seq<Node>, n1: seq<Node>,
                    parent: int, root: int, ts: seq<Tree>, q: seq<int>, queue1: seq<int>, emb: int, ks: seq<Tree>)
    requires d.Compound? && store.Valid() && t == Tree(t.slot, mode, d.type_, d.instance, Bytes([]), []) && t.slot != NONE
    requires Level(n0, n1, parent, if root == NONE then t.slot else root, ts + [t], q, queue1)
    requires Level(n1, store.nodes, t.slot, emb, ks, queue1, store.pool.queue) && ks != []
    requires Build(mode, d.kids, m, Members(d, m, a)) == Some(Erase(ks)) && s.m == Clobber(d.kids, m, Members(d, m, a), was)
    requires |store.pool.queue| + Spent(mode, d.kids, m, Members(d, m, a)) == |queue1|
    ensures Added(store, mode, d, m, a, s, was, t.slot, t.(kids := ks), n0, parent, root, ts, q)
  {
    LevelKids(n0, n1, store.nodes, parent, if root == NONE then t.slot else root, ts, t, emb, ks, q, queue1, store.pool.queue);
  }

  // The node just attached is no free slot and embeds nothing.
  lemma LastLive(n0: seq<Node>, n1: seq<Node>, parent: int, root: int, ts: seq<Tree>, t: Tree, q: seq<int>, queue: seq<int>)
    requires Level(n0, n1, parent, root, ts + [t], q, queue) && t.kids == []
    ensures 0 <= t.slot < |n1| && n1[t.slot].embedded == NONE && t.slot !in queue
    ensures |q| == |Slots(ts)| + 1 + |queue|
  {
    SlotsSnoc(ts, t);
    assert (ts + [t])[|ts|] == t;
    TopIn(ts + [t]);
    DistinctParts(Slots(ts + [t]), queue);
    LinkedLast(n1, root, ts, t);
  }

  lemma {:induction false} LinkedLast(nodes: seq<Node>, p: int, ts: seq<Tree>, t: Tree)
    requires Linked(nodes, p, ts + [t])
    ensures LinkedOne(nodes, t.slot, t)
    decreases ts
  {
    if ts == [] {
      assert ([] + [t])[0] == t;
    } else {
      assert (ts + [t])[1..] == ts[1..] + [t];
      LinkedLast(nodes, nodes[p].next, ts[1..], t);
    }
  }

  // Its local variables root, tlv and count, and the forest they stand for.
  datatype List = List(root: int, tlv: int, count: nat, ghost ts: seq<Tree>) {
    ghost predicate Ends() {
      tlv == Last(ts) && root == (if ts == [] then NONE else ts[0].slot)
    }
  }

  // What a call of tlv_add_compound is to come to: the forest, if any, the struct, and the
  // number of nodes taken.
  datatype Goal = Goal(whole: Option<seq<Tree>>, end: Msg, spent: nat)

  ghost function Whole(mode: Mode, ds: seq<Desc>, m: Msg, p: int, was: Msg): Goal {
    Goal(Build(mode, ds, m, AllFields(ds, m, p)), Clobber(ds, m, AllFields(ds, m, p), was), Spent(mode, ds, m, AllFields(ds, m, p)))
  }

  ghost function After(ts: seq<Tree>, rest: Option<seq<Tree>>): Option<seq<Tree>> {
    if rest.None? then None else Some(Erase(ts) + rest.value)
  }

  // Where tlv_add_compound stands: up to k copies of the field at place i may still come, the
  // next one at a, and what is built so far with what is still to come makes up the goal.
  ghost predicate Progress(g: Goal, mode: Mode, ds: seq<Desc>, m: Msg, i: nat, k: nat, a: int, is_: Msg, l: List) {
    && g.whole == After(l.ts, Build(mode, ds, m, Fields(ds, i, k, m, a)))
    && g.end == Clobber(ds, m, Fields(ds, i, k, m, a), is_) && Untouched(is_, m, a)
    && Readable(ds, m, Fields(ds, i, k, m, a)) && l.count == |Slots(l.ts)| && l.Ends()
    && g.spent == |Slots(l.ts)| + Spent(mode, ds, m, Fields(ds, i, k, m, a))
  }

  ghost predicate Going(g: Goal, store: Store, mode: Mode, ds: seq<Desc>, m: Msg, i: nat, k: nat, a: int,
                        s: Struct, n0: seq<Node>, parent: int, l: List, q: seq<int>)
    reads store, store.pool, store.pool.free, store.pool.index, s
  {
    Progress(g, mode, ds, m, i, k, a, s.m, l) && Building(store, n0, parent, l.root, l.ts, q)
  }

  function Extended(l: List, r: int, c: nat, ghost t: Tree): List {
    List(if l.root == NONE then r else l.root, r, l.count + c, l.ts + [t])
  }

  lemma Ahead(ds: seq<Desc>, m: Msg, i: nat, k: nat, a: int)
    requires i < |ds| && k > 0 && m.Present(a)
    ensures var fs := Fields(ds, i, k, m, a);
      fs != [] && fs[0] == Field(i, a) && fs[1..] == Fields(ds, i, k - 1, m, a + ds[i].Vsize())
    ensures Readable(ds, m, Fields(ds, i, k, m, a)) ==> ReadableOne(ds[i], m, a) && Readable(ds, m, Fields(ds, i, k - 1, m, a + ds[i].Vsize()))
  {
    var fs, rest := Fields(ds, i, k, m, a), Fields(ds, i, k - 1, m, a + ds[i].Vsize());
    assert fs[0] == Field(i, a) && forall q :: 0 <= q < |rest| ==> rest[q] == fs[q + 1];
  }

  lemma ProgressNext(g: Goal, mode: Mode, ds: seq<Desc>, m: Msg, i: nat, k: nat, a: int, is_: Msg, l: List, t: Tree)
    requires Progress(g, mode, ds, m, i, k, a, is_, l)
    requires i < |ds| && Proof.WellFormedOne(ds[i]) && !ds[i].More? && k > 0 && m.Present(a)
    requires BuildOne(mode, ds[i], m, a) == Some(EraseOne(t)) && t.slot != NONE && (l.ts != [] ==> l.root != NONE)
    requires 1 + |Slots(t.kids)| == SpentOne(mode, ds[i], m, a)
    ensures Progress(g, mode, ds, m, i, k - 1, a + ds[i].Vsize(), ClobberOne(ds[i], m, a, is_),
                     Extended(l, t.slot, 1 + |Slots(t.kids)|, t))
  {
    Ahead(ds, m, i, k, a);
    AfterNext(l.ts, t, Build(mode, ds, m, Fields(ds, i, k - 1, m, a + ds[i].Vsize())));
    ClobberOneAbove(ds[i], m, a, is_, a + ds[i].Vsize());
    SlotsSnoc(l.ts, t);
  }

  lemma AfterNext(ts: seq<Tree>, t: Tree, rest: Option<seq<Tree>>)
    ensures After(ts + [t], rest) == After(ts, if rest.None? then None else Some([EraseOne(t)] + rest.value))
  {
    assert Erase(ts + [t]) == Erase(ts) + [EraseOne(t)];
    if rest.Some? { assert Erase(ts) + [EraseOne(t)] + rest.value == Erase(ts) + ([EraseOne(t)] + rest.value); }
  }

  // How adding a field ends; the source aborts where the pool is exhausted.
  datatype Status = Fine | Refused | Exhausted

  ghost predicate Ended(store: Store, status: Status, g: Goal, q: seq<int>)
    reads store, store.pool, store.pool.free, store.pool.index
  {
    && store.Valid() && (status.Exhausted? ==> store.pool.queue == [] && |q| < g.spent)
    && (status.Refused? ==> g.whole.None? && |store.pool.queue| + g.spent == |q|)
  }

  // tlv_add_compound: the list of the fields of ds below parent, and the number of nodes, 0 when
  // nothing was built.
  method AddCompound(store: Store, parent: int, ds: seq<Desc>, s: Struct, p: int, depth: nat, mode: Mode, ghost m: Msg)
    returns (root: int, count: nat, aborted: bool, ghost ts: seq<Tree>)
    requires Proof.WellFormed(ds) && Readable(ds, m, AllFields(ds, m, p)) && Untouched(s.m, m, p) && Shallow(ds, depth)
    requires store.Valid() && parent !in store.pool.queue
    requires parent != NONE ==> 0 <= parent < |store.nodes| && store.nodes[parent].embedded == NONE
    modifies store`nodes, store.pool, store.pool.free, store.pool.index, s
    ensures store.Valid() && (aborted ==> store.pool.queue == [])
    ensures aborted ==> |old(store.pool.queue)| < Spent(mode, ds, m, AllFields(ds, m, p))
    ensures !aborted ==> (count == 0 <==> Build(mode, ds, m, AllFields(ds, m, p)) in {None, Some([])})
    ensures !aborted ==> |store.pool.queue| + Spent(mode, ds, m, AllFields(ds, m, p)) == |old(store.pool.queue)|
    ensures !aborted && count > 0 ==>
      && Build(mode, ds, m, AllFields(ds, m, p)) == Some(Erase(ts)) && ts != [] && count == |Slots(ts)|
      && s.m == Clobber(ds, m, AllFields(ds, m, p), old(s.m))
      && Level(old(store.nodes), store.nodes, parent, root, ts, old(store.pool.queue), store.pool.queue)
    decreases ds, 3
  {
    hide Going, Progress, Building, Build, Clobber, Fields, Spent, Whole, Room, Level, Readable;
    ghost var n0, q, g, was := store.nodes, store.pool.queue, Whole(mode, ds, m, p, s.m), s.m;
    var l := List(NONE, NONE, 0, []);
    var i, at := 0, p;
    root, count, aborted, ts := NONE, 0, false, [];
    Start(g, store, mode, ds, m, p, s, n0, parent, l);
    while i < |ds|
      invariant i <= |ds| && (i < |ds| ==> !ds[i].More?) && !aborted && count == 0
      invariant Going(g, store, mode, ds, m, i, Copies(ds, i), at, s, n0, parent, l, q)
    {
      Proof.OffsetsAgree(ds, i);
      var n := if Repeated(ds, i) then ds[i + 1].length else 1;
      RoomIs(ds[i].vsize, n);
      var next, status := i + (if Repeated(ds, i) then 2 else 1), Fine;
      var b := at + ds[i].vsize * n;
      ghost var k: nat;
      l, status, k, at := AddCopies(g, store, parent, ds, s, depth, mode, m, i, n, at, b, n0, l, q);
      if !status.Fine? {
        aborted := status.Exhausted?;
        WholeIs(mode, ds, m, p, was);
        return;
      }
      Skip(g, store, mode, ds, m, i, k, at, s, n0, parent, l, q, next, b);
      i, at := next, b;
    }
    root, count, ts := l.root, l.count, l.ts;
    Ends(g, store, mode, ds, m, p, was, i, at, s, n0, parent, l, q);
  }

  lemma WholeIs(mode: Mode, ds: seq<Desc>, m: Msg, p: int, was: Msg)
    ensures Whole(mode, ds, m, p, was).whole == Build(mode, ds, m, AllFields(ds, m, p))
    ensures Whole(mode, ds, m, p, was).spent == Spent(mode, ds, m, AllFields(ds, m, p))
  {
  }

  lemma Skip(g: Goal, store: Store, mode: Mode, ds: seq<Desc>, m: Msg, i: nat, k: nat, a: int, s: Struct,
             n0: seq<Node>, parent: int, l: List, q: seq<int>, next: nat, b: int)
    requires Going(g, store, mode, ds, m, i, k, a, s, n0, parent, l, q) && i < |ds| && (k == 0 || !m.Present(a))
    requires next == i + Width(ds, i) && b == Behind(a, ds[i].Vsize(), k)
    ensures Going(g, store, mode, ds, m, next, Copies(ds, next), b, s, n0, parent, l, q)
  {
    hide Progress, Building;
    ProgressSkip(g, mode, ds, m, i, k, a, s.m, l, next, b);
  }

  lemma Ends(g: Goal, store: Store, mode: Mode, ds: seq<Desc>, m: Msg, p: int, was: Msg, i: nat, a: int, s: Struct,
             n0: seq<Node>, parent: int, l: List, q: seq<int>)
    requires Going(g, store, mode, ds, m, i, Copies(ds, i), a, s, n0, parent, l, q) && i >= |ds|
    requires g == Whole(mode, ds, m, p, was)
    ensures var fs := AllFields(ds, m, p);
      && store.Valid() && Build(mode, ds, m, fs) == Some(Erase(l.ts)) && s.m == Clobber(ds, m, fs, was)
      && l.count == |Slots(l.ts)| && (l.count == 0 <==> l.ts == []) && (l.ts == [] <==> Erase(l.ts) == [])
      && |store.pool.queue| + Spent(mode, ds, m, fs) == |q|
      && (l.ts != [] ==> Level(n0, store.nodes, parent, l.root, l.ts, q, store.pool.queue))
  {
    Finish(g, mode, ds, m, i, a, s.m, l);
  }

  lemma Finish(g: Goal, mode: Mode, ds: seq<Desc>, m: Msg, i: nat, a: int, is_: Msg, l: List)
    requires Progress(g, mode, ds, m, i, Copies(ds, i), a, is_, l) && i >= |ds|
    ensures g == Goal(Some(Erase(l.ts)), is_, |Slots(l.ts)|) && l.count == |Slots(l.ts)| && (l.count == 0 <==> l.ts == [])
  {
    assert Erase(l.ts) + [] == Erase(l.ts);
  }

  lemma Start(g: Goal, store: Store, mode: Mode, ds: seq<Desc>, m: Msg, p: int, s: Struct, n0: seq<Node>, parent: int, l: List)
    requires store.Valid() && parent !in store.pool.queue && n0 == store.nodes && Untouched(s.m, m, p)
    requires parent != NONE ==> 0 <= parent < |n0| && n0[parent].embedded == NONE
    requires l.root == NONE && l.tlv == NONE && l.count == 0 && l.ts == []
    requires g == Whole(mode, ds, m, p, s.m) && Readable(ds, m, AllFields(ds, m, p))
    ensures Going(g, store, mode, ds, m, 0, Copies(ds, 0), p, s, n0, parent, l, store.pool.queue)
  {
    hide Build, Spent, Clobber, Fields, Readable;
    if g.whole.Some? { assert Erase([]) + g.whole.value == g.whole.value; }
    assert [] + store.pool.queue == store.pool.queue;
  }

  // After the copies of a field have been looked at, the next field is behind their room.
  lemma ProgressSkip(g: Goal, mode: Mode, ds: seq<Desc>, m: Msg, i: nat, k: nat, a: int, is_: Msg, l: List, next: nat, b: int)
    requires Progress(g, mode, ds, m, i, k, a, is_, l) && i < |ds| && (k == 0 || !m.Present(a))
    requires next == i + Width(ds, i) && b == Behind(a, ds[i].Vsize(), k)
    ensures Progress(g, mode, ds, m, next, Copies(ds, next), b, is_, l)
  {
  }

  // The address behind k copies.
  ghost function Behind(a: int, vsize: nat, k: nat): int { a + Room(vsize, k) }

  lemma BehindNext(a: int, vsize: nat, k: nat)
    requires k > 0
    ensures Behind(a, vsize, k) == Behind(a + vsize, vsize, k - 1)
  {
  }

  // The loop of tlv_add_compound over the copies of a repeated field, or its only field.
  method AddCopies(ghost g: Goal, store: Store, parent: int, ds: seq<Desc>, s: Struct, depth: nat, mode: Mode, ghost m: Msg,
                   i: nat, n: nat, a: int, ghost b: int, ghost n0: seq<Node>, l: List, ghost q: seq<int>)
    returns (next: List, status: Status, ghost k: nat, at: int)
    requires Proof.WellFormed(ds) && i < |ds| && !ds[i].More? && n == Copies(ds, i) && Shallow(ds, depth)
    requires Going(g, store, mode, ds, m, i, n, a, s, n0, parent, l, q) && b == Behind(a, ds[i].Vsize(), n)
    modifies store`nodes, store.pool, store.pool.free, store.pool.index, s
    ensures Ended(store, status, g, q)
    ensures status.Fine? ==> (k == 0 || !m.Present(at)) && b == Behind(at, ds[i].Vsize(), k)
    ensures status.Fine? ==> Going(g, store, mode, ds, m, i, k, at, s, n0, parent, next, q)
    decreases ds, 2
  {
    hide Going, Progress, Building, Proof.WellFormed, Shallow, Room;
    var j := 0;
    next, status, k, at := l, Fine, n, a;
    StillThere(g, store, mode, ds, m, i, n, a, s, n0, parent, l, q);
    while j < n && s.m.Present(at)
      invariant store.Valid() && j + k == n && status.Fine? && b == Behind(at, ds[i].Vsize(), k)
      invariant Going(g, store, mode, ds, m, i, k, at, s, n0, parent, next, q) && (s.m.Present(at) <==> m.Present(at))
    {
      BehindNext(at, ds[i].Vsize(), k);
      next, status := AddNext(g, store, parent, ds, s, depth, mode, m, i, k, at, n0, next, q);
      if !status.Fine? {
        return;
      }
      j, at, k := j + 1, at + ds[i].Vsize(), k - 1;
      StillThere(g, store, mode, ds, m, i, k, at, s, n0, parent, next, q);
    }
  }

  // The presence words still to be looked at are those of the message.
  lemma StillThere(g: Goal, store: Store, mode: Mode, ds: seq<Desc>, m: Msg, i: nat, k: nat, a: int,
                   s: Struct, n0: seq<Node>, parent: int, l: List, q: seq<int>)
    requires Going(g, store, mode, ds, m, i, k, a, s, n0, parent, l, q)
    ensures store.Valid() && (s.m.Present(a) <==> m.Present(a))
  {
  }

  // The part of the loop body for one field that is present.
  method AddNext(ghost g: Goal, store: Store, parent: int, ds: seq<Desc>, s: Struct, depth: nat, mode: Mode, ghost m: Msg,
                 i: nat, ghost k: nat, a: int, ghost n0: seq<Node>, l: List, ghost q: seq<int>)
    returns (next: List, status: Status)
    requires Proof.WellFormed(ds) && i < |ds| && !ds[i].More? && k > 0 && m.Present(a) && Shallow(ds, depth)
    requires Going(g, store, mode, ds, m, i, k, a, s, n0, parent, l, q)
    modifies store`nodes, store.pool, store.pool.free, store.pool.index, s
    ensures Ended(store, status, g, q)
    ensures status.Fine? ==> Going(g, store, mode, ds, m, i, k - 1, a + ds[i].Vsize(), s, n0, parent, next, q)
    decreases ds, 1
  {
    ghost var is_ := s.m;
    Ahead(ds, m, i, k, a);
    RootIn(store.nodes, l.root, l.ts);
    var r, c, aborted;
    ghost var t;
    r, c, aborted, t := AddOne(store, parent, l.tlv, ds[i], s, a, depth, mode, m, n0, l.root, l.ts, q);
    next, status := l, Refused;
    if aborted {
      status := Exhausted;
    } else if r != NONE {
      ProgressNext(g, mode, ds, m, i, k, a, is_, l, t);
      next, status := Extended(l, r, c, t), Fine;
    }
  }

  // A finished forest: its nodes were taken from the front of the free slots q.
  ghost predicate Forest(store: Store, root: int, ts: seq<Tree>, q: seq<int>)
    reads store, store.pool, store.pool.free, store.pool.index
  {
    && store.Valid() && Linked(store.nodes, root, ts)
    && q == Slots(ts) + store.pool.queue && Distinct(q) && forall x :: x in q ==> 0 <= x < |store.nodes|
  }

  // ogs_tlv_build_msg on a struct that holds the message m, without the packet's headroom.
  method BuildPacket(store: Store, ds: seq<Desc>, s: Struct, mode: Mode) returns (data: array?<Byte>, aborted: bool)
    requires Proof.WellFormed(ds) && Readable(ds, s.m, AllFields(ds, s.m, 0)) && Shallow(ds, 0)
    requires store.Valid()
    modifies store`nodes, store.pool, store.pool.free, store.pool.index, s
    ensures store.Valid() && (aborted ==> store.pool.queue == [])
    ensures aborted <==> |old(store.pool.queue)| < Spent(mode, ds, old(s.m), AllFields(ds, old(s.m), 0))
    ensures !aborted ==> (data == null <==> BuildMsg(mode, ds, old(s.m)).None?)
    ensures !aborted && data == null ==>
      |store.pool.queue| + Spent(mode, ds, old(s.m), AllFields(ds, old(s.m), 0)) == |old(store.pool.queue)|
    ensures !aborted && data != null ==>
      && data[..] == BuildMsg(mode, ds, old(s.m)).value && s.m == Clobber(ds, old(s.m), AllFields(ds, old(s.m), 0), old(s.m))
      && multiset(store.pool.queue) == multiset(old(store.pool.queue))
  {
    if ds == [] {
      return new Byte[0], false;
    }
    data := null;
    var root, count;
    ghost var m, q, ts := s.m, store.pool.queue, [];
    root, count, aborted, ts := BuildForest(store, ds, s, mode, m);
    if !aborted && count > 0 {
      data := Pack(store, root, ts, q);
    }
  }

  method BuildForest(store: Store, ds: seq<Desc>, s: Struct, mode: Mode, ghost m: Msg)
    returns (root: int, count: nat, aborted: bool, ghost ts: seq<Tree>)
    requires Proof.WellFormed(ds) && Readable(ds, m, AllFields(ds, m, 0)) && Shallow(ds, 0) && ds != []
    requires store.Valid() && m == s.m
    modifies store`nodes, store.pool, store.pool.free, store.pool.index, s
    ensures store.Valid() && (aborted ==> store.pool.queue == [])
    ensures aborted <==> |old(store.pool.queue)| < Spent(mode, ds, m, AllFields(ds, m, 0))
    ensures !aborted ==> (count == 0 <==> BuildMsg(mode, ds, m).None?)
    ensures !aborted ==> |store.pool.queue| + Spent(mode, ds, m, AllFields(ds, m, 0)) == |old(store.pool.queue)|
    ensures !aborted && count > 0 ==>
      && BuildMsg(mode, ds, m) == Some(Encode(ts)) && s.m == Clobber(ds, m, AllFields(ds, m, 0), m)
      && Forest(store, root, ts, old(store.pool.queue)) && Given(ts)
  {
    root, count, aborted, ts := AddCompound(store, NONE, ds, s, 0, 0, mode, m);
    if !aborted && count > 0 {
      BuiltGiven(mode, ds, m, AllFields(ds, m, 0), ts);
      EraseEncode(ts);
    }
  }

  // Measuring, rendering and giving the nodes back.
  method Pack(store: Store, root: int, ghost ts: seq<Tree>, ghost q: seq<int>) returns (data: array<Byte>)
    requires Forest(store, root, ts, q) && Given(ts)
    modifies store`nodes, store.pool, store.pool.free, store.pool.index
    ensures store.Valid() && data[..] == Encode(ts) && multiset(store.pool.queue) == multiset(q)
  {
    ghost var n := store.nodes;
    var length := store.CalcLength(root, ts);
    MeasureSteady(n, root, ts);
    SteadyLinked(n, store.nodes, root, ts);
    data := RenderAll(store, root, ts, length);
    Release(store, root, ts, q);
  }

  method RenderAll(store: Store, root: int, ghost ts: seq<Tree>, length: nat) returns (data: array<Byte>)
    requires store.Valid() && Linked(store.nodes, root, ts) && Given(ts) && length == Size(ts)
    modifies store`nodes
    ensures store.Valid() && Linked(store.nodes, root, ts) && fresh(data) && data[..] == Encode(ts)
  {
    ghost var n := store.nodes;
    data := new Byte[length];
    EncodeSize(ts);
    var rendered := store.Render(root, ts, data, 0, length);
    SteadyLinked(n, store.nodes, root, ts);
    assert data[..] == Encode(ts);
  }

  method Release(store: Store, root: int, ghost ts: seq<Tree>, ghost q: seq<int>)
    requires Forest(store, root, ts, q)
    modifies store.pool, store.pool.free, store.pool.index
    ensures store.Valid() && multiset(store.pool.queue) == multiset(q)
  {
    FreesAll(ts);
    DistinctParts(Slots(ts), store.pool.queue);
    assert forall x :: x in Slots(ts) ==> x in q;
    store.FreeAll(root, ts);
  }

  // What was built is bytes throughout.
  lemma {:induction false} BuiltGiven(mode: Mode, ds: seq<Desc>, m: Msg, fs: seq<Field>, ts: seq<Tree>)
    requires InTable(ds, fs) && Build(mode, ds, m, fs) == Some(Erase(ts))
    ensures Given(ts)
    decreases ds, 1, fs
  {
    if fs == [] {
    } else {
      assert Erase(ts)[0] == EraseOne(ts[0]) && Erase(ts)[1..] == Erase(ts[1..]);
      BuiltGivenOne(mode, ds[fs[0].i], m, fs[0].a, ts[0]);
      BuiltGiven(mode, ds, m, fs[1..], ts[1..]);
      assert forall i :: 0 < i < |ts| ==> ts[i] == ts[1..][i - 1];
    }
  }

  lemma {:induction false} BuiltGivenOne(mode: Mode, d: Desc, m: Msg, a: int, t: Tree)
    requires BuildOne(mode, d, m, a) == Some(EraseOne(t))
    ensures GivenOne(t)
    decreases d, 0
  {
    if d.Compound? { BuiltGiven(mode, d.kids, m, Members(d, m, a), t.kids); }
  }

  // Slots do not show in the bytes.
  lemma {:induction false} EraseEncode(ts: seq<Tree>)
    ensures Encode(Erase(ts)) == Encode(ts)
    decreases ts
  {
    if ts == [] {
    } else {
      assert Erase(ts)[0] == EraseOne(ts[0]) && Erase(ts)[1..] == Erase(ts[1..]);
      EraseEncodeOne(ts[0]);
      EraseEncode(ts[1..]);
    }
  }

  lemma {:induction false} EraseEncodeOne(t: Tree)
    ensures EncodeOne(EraseOne(t)) == EncodeOne(t)
    decreases t
  {
    if t.kids != [] { EraseEncode(t.kids); }
    assert Body(EraseOne(t)) == Body(t);
  }
}
