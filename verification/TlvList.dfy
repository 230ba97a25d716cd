// lib/core/ogs-tlv.c: ogs_tlv_add and ogs_tlv_embed, which append a node to a list or to the
// embedded nodes of a parent.
module TlvList {
  import opened Prelude
  import opened TlvSpec
  import opened TlvHeap

  // A forest without its slots.
  ghost function Erase(ts: seq<Tree>): (r: seq<Tree>)
    ensures |r| == |ts|
    decreases ts
  {
    seq(|ts|, i requires 0 <= i < |ts| => EraseOne(ts[i]))
  }

  ghost function EraseOne(t: Tree): Tree
    decreases t
  {
    t.(slot := NONE, kids := Erase(t.kids))
  }

  // The list that starts at root: each node knows its head, the head knows the last node.
  ghost predicate ListAt(nodes: seq<Node>, root: int, ts: seq<Tree>) {
    && Linked(nodes, root, ts)
    && (ts != [] ==> 0 <= root < |nodes| && nodes[root].tail == Last(ts))
    && (forall i :: 0 <= i < |ts| ==> 0 <= ts[i].slot < |nodes| && nodes[ts[i].slot].head == root)
  }

  ghost function Last(ts: seq<Tree>): int { if ts == [] then NONE else ts[|ts| - 1].slot }

  // The nodes while a list is built below parent, or at the top when there is no parent.  n0 and
  // q are the nodes and the free slots before it was begun.
  ghost predicate Level(n0: seq<Node>, nodes: seq<Node>, parent: int, root: int, ts: seq<Tree>, q: seq<int>, queue: seq<int>) {
    && ListAt(nodes, root, ts) && q == Slots(ts) + queue && Distinct(q) && |nodes| == |n0| && parent !in q
    && (forall x :: x in q ==> 0 <= x < |nodes|)
    && (parent != NONE ==> 0 <= parent < |n0| && n0[parent].embedded == NONE) && Outside(n0, nodes, parent, root, Slots(ts))
  }

  // Outside the list only the parent changed, which points to the list.
  ghost predicate Outside(n0: seq<Node>, nodes: seq<Node>, parent: int, root: int, slots: seq<int>) {
    && |nodes| == |n0|
    && forall x :: 0 <= x < |nodes| && x !in slots ==> OutsideAt(n0, nodes, parent, root, x)
  }

  ghost predicate OutsideAt(n0: seq<Node>, nodes: seq<Node>, parent: int, root: int, x: nat)
    requires x < |n0| == |nodes|
  {
    nodes[x] == if x == parent then n0[x].(embedded := root) else n0[x]
  }

  lemma {:induction false} SlotsSnoc(ts: seq<Tree>, t: Tree)
    ensures Slots(ts + [t]) == Slots(ts) + [t.slot] + Slots(t.kids)
    decreases ts
  {
    if ts == [] {
      assert [] + [t] == [t] && [t][1..] == [];
      assert [t.slot] + Slots(t.kids) + [] == [] + [t.slot] + Slots(t.kids);
    } else {
      SlotsSnoc(ts[1..], t);
      assert (ts + [t])[1..] == ts[1..] + [t];
      Assoc([ts[0].slot] + Slots(ts[0].kids), Slots(ts[1..]), [t.slot], Slots(t.kids));
    }
  }

  lemma Assoc(a: seq<int>, b: seq<int>, c: seq<int>, d: seq<int>)
    ensures a + (b + c + d) == a + b + c + d
  {
  }

  // A node appended behind the last one.
  lemma {:induction false} LinkedGrow(a: seq<Node>, b: seq<Node>, p: int, ts: seq<Tree>, t: Tree)
    requires Linked(a, p, ts) && |a| == |b| && LinkedOne(b, t.slot, t) && b[t.slot].next == NONE && Distinct(Slots(ts))
    requires forall x :: x in Slots(ts) && 0 <= x < |a| ==>
      Core(b[x]) == if x == Last(ts) then Core(a[x].(next := t.slot)) else Core(a[x])
    ensures Linked(b, if ts == [] then t.slot else p, ts + [t])
    decreases ts
  {
    if ts == [] {
      assert [] + [t] == [t] && [t][1..] == [];
    } else {
      var rest := ts[1..];
      SlotsApart(ts);
      assert (ts + [t])[0] == ts[0] && (ts + [t])[1..] == rest + [t];
      assert ts[0].slot in Slots(ts) && forall x :: x in Slots(ts[0].kids) || x in Slots(rest) ==> x in Slots(ts);
      LastIn(ts);
      assert Core(b[p]) == if rest == [] then Core(a[p].(next := t.slot)) else Core(a[p]);
      LinkedFrame(a, b, a[p].embedded, ts[0].kids);
      LinkedGrow(a, b, a[p].next, rest, t);
    }
  }

  // The last slot of a list is that of its last tree, and not inside an earlier one.
  lemma LastIn(ts: seq<Tree>)
    requires ts != [] && Distinct(Slots(ts))
    ensures Last(ts) in Slots(ts) && Last(ts) !in Slots(ts[0].kids)
    ensures if ts[1..] == [] then Last(ts) == ts[0].slot else Last(ts) == Last(ts[1..]) && Last(ts) in Slots(ts[1..]) && Last(ts) != ts[0].slot
    decreases ts
  {
    SlotsApart(ts);
    if ts[1..] == [] {
    } else {
      LastIn(ts[1..]);
    }
  }

  // The last node gets embedded nodes.
  lemma {:induction false} LinkedKids(a: seq<Node>, b: seq<Node>, p: int, ts: seq<Tree>, t: Tree, ks: seq<Tree>)
    requires Linked(a, p, ts + [t]) && |a| == |b| && Distinct(Slots(ts + [t])) && t.kids == [] && ks != []
    requires 0 <= t.slot < |b| && b[t.slot] == a[t.slot].(embedded := b[t.slot].embedded) && Linked(b, b[t.slot].embedded, ks)
    requires forall x :: x in Slots(ts) && 0 <= x < |a| ==> Core(b[x]) == Core(a[x])
    ensures Linked(b, p, ts + [t.(kids := ks)])
    decreases ts
  {
    var u := t.(kids := ks);
    if ts == [] {
      assert [] + [t] == [t] && [] + [u] == [u] && [t][1..] == [] && [u][1..] == [];
      assert Linked(a, a[p].next, []);
    } else {
      SlotsApart(ts + [t]);
      assert (ts + [t])[1..] == ts[1..] + [t] && (ts + [u])[1..] == ts[1..] + [u] && (ts + [u])[0] == ts[0] == (ts + [t])[0];
      assert ts[0].slot in Slots(ts) && forall x :: x in Slots(ts[0].kids) || x in Slots(ts[1..]) ==> x in Slots(ts);
      assert Core(b[p]) == Core(a[p]);
      LinkedFrame(a, b, a[p].embedded, ts[0].kids);
      LinkedKids(a, b, a[p].next, ts[1..], t, ks);
    }
  }

  // The nodes after n has been appended at slot s to the list that starts at root.
  function Joined(nodes: seq<Node>, parent: int, root: int, s: int, n: Node): (r: seq<Node>)
    requires 0 <= s < |nodes| && (root == NONE ==> parent == NONE || 0 <= parent < |nodes|)
    requires root != NONE ==> 0 <= root < |nodes| && 0 <= nodes[root].tail < |nodes|
    ensures |r| == |nodes|
  {
    if root == NONE then
      var a := if parent == NONE then nodes else nodes[parent := nodes[parent].(embedded := s)];
      a[s := n.(head := s, tail := s, parent := parent)]
    else
      var a, last := nodes[s := n.(head := root)], nodes[root].tail;
      var b := a[last := a[last].(next := s)];
      b[root := b[root].(tail := s)]
  }

  // Appending a node without embedded nodes keeps the list in order.
  lemma LevelJoined(n0: seq<Node>, nodes: seq<Node>, parent: int, root: int, ts: seq<Tree>, q: seq<int>, queue: seq<int>,
                    s: int, n: Node, t: Tree)
    requires Level(n0, nodes, parent, root, ts, q, queue) && queue != [] && s == queue[0]
    requires n.next == NONE && n.embedded == NONE && Bears(n, t) && t.slot == s && t.kids == []
    ensures root != NONE ==> 0 <= root < |nodes| && 0 <= nodes[root].tail < |nodes|
    ensures 0 <= s < |nodes| && s !in Slots(ts) && (root == NONE ==> parent == NONE || 0 <= parent < |nodes|)
    ensures Level(n0, Joined(nodes, parent, root, s, n), parent, if root == NONE then s else root, ts + [t], q, queue[1..])
  {
    assert s in q by { assert q[|Slots(ts)|] == s; }
    DistinctParts(Slots(ts), queue);
    assert s in queue && s !in Slots(ts);
    RootIn(nodes, root, ts);
    var b, r, us := Joined(nodes, parent, root, s, n), if root == NONE then s else root, ts + [t];
    JoinedLinked(nodes, parent, root, ts, s, n, t);
    JoinedHeads(nodes, parent, root, ts, s, n, t);
    JoinedSlots(ts, t, queue, q);
    JoinedOutside(n0, nodes, parent, root, ts, s, n, Slots(us));
  }

  lemma JoinedSlots(ts: seq<Tree>, t: Tree, queue: seq<int>, q: seq<int>)
    requires t.kids == [] && queue != [] && t.slot == queue[0] && q == Slots(ts) + queue
    ensures Slots(ts + [t]) == Slots(ts) + [t.slot] && q == Slots(ts + [t]) + queue[1..]
  {
    SlotsSnoc(ts, t);
    assert queue == [t.slot] + queue[1..];
    Assoc([], Slots(ts), [t.slot], queue[1..]);
  }

  lemma JoinedOutside(n0: seq<Node>, nodes: seq<Node>, parent: int, root: int, ts: seq<Tree>, s: int, n: Node, slots: seq<int>)
    requires slots == Slots(ts) + [s] && ListAt(nodes, root, ts) && Outside(n0, nodes, parent, root, Slots(ts)) && 0 <= s < |nodes|
    requires (root == NONE ==> parent == NONE || 0 <= parent < |nodes|) && (root != NONE ==> 0 <= nodes[root].tail < |nodes|)
    ensures Outside(n0, Joined(nodes, parent, root, s, n), parent, if root == NONE then s else root, slots)
  {
    RootIn(nodes, root, ts);
    var b, r := Joined(nodes, parent, root, s, n), if root == NONE then s else root;
    forall x | 0 <= x < |b| && x !in slots
      ensures OutsideAt(n0, b, parent, r, x)
    {
      assert OutsideAt(n0, nodes, parent, root, x);
    }
  }

  lemma {:induction false} RootIn(nodes: seq<Node>, root: int, ts: seq<Tree>)
    requires ListAt(nodes, root, ts)
    ensures root == NONE <==> ts == []
    ensures ts != [] ==> root in Slots(ts) && nodes[root].tail == Last(ts) && 0 <= Last(ts) < |nodes|
    ensures forall i :: 0 <= i < |ts| ==> ts[i].slot in Slots(ts)
  {
    TopIn(ts);
  }

  lemma {:induction false} TopIn(ts: seq<Tree>)
    ensures forall i :: 0 <= i < |ts| ==> ts[i].slot in Slots(ts)
    decreases ts
  {
    if ts == [] {
    } else {
      TopIn(ts[1..]);
      assert forall i :: 0 < i < |ts| ==> ts[i] == ts[1..][i - 1];
    }
  }

  lemma JoinedLinked(nodes: seq<Node>, parent: int, root: int, ts: seq<Tree>, s: int, n: Node, t: Tree)
    requires ListAt(nodes, root, ts) && Distinct(Slots(ts)) && 0 <= s < |nodes| && s !in Slots(ts)
    requires (root == NONE ==> parent == NONE || 0 <= parent < |nodes|) && parent != s && (root != NONE ==> 0 <= nodes[root].tail < |nodes|)
    requires n.next == NONE && n.embedded == NONE && Bears(n, t) && t.slot == s && t.kids == []
    ensures Linked(Joined(nodes, parent, root, s, n), if root == NONE then s else root, ts + [t])
  {
    var b := Joined(nodes, parent, root, s, n);
    RootIn(nodes, root, ts);
    assert LinkedOne(b, s, t);
    LinkedGrow(nodes, b, root, ts, t);
  }

  lemma JoinedHeads(nodes: seq<Node>, parent: int, root: int, ts: seq<Tree>, s: int, n: Node, t: Tree)
    requires ListAt(nodes, root, ts) && 0 <= s < |nodes| && s !in Slots(ts)
    requires (root == NONE ==> parent == NONE || 0 <= parent < |nodes|) && parent != s && (root != NONE ==> 0 <= nodes[root].tail < |nodes|)
    requires t.slot == s
    ensures var b, r, us := Joined(nodes, parent, root, s, n), if root == NONE then s else root, ts + [t];
      b[r].tail == s && forall i :: 0 <= i < |us| ==> 0 <= us[i].slot < |b| && b[us[i].slot].head == r
  {
    RootIn(nodes, root, ts);
    var b, r, us := Joined(nodes, parent, root, s, n), if root == NONE then s else root, ts + [t];
    forall i | 0 <= i < |us|
      ensures 0 <= us[i].slot < |b| && b[us[i].slot].head == r
    {
      assert i < |ts| ==> us[i] == ts[i] && ts[i].slot in Slots(ts);
    }
  }

  // When the list below the last node is done, so is that node.
  lemma LevelKids(n0: seq<Node>, n1: seq<Node>, n2: seq<Node>, parent: int, root: int, ts: seq<Tree>, t: Tree,
                  r: int, ks: seq<Tree>, q: seq<int>, queue1: seq<int>, queue2: seq<int>)
    requires Level(n0, n1, parent, root, ts + [t], q, queue1) && t.kids == []
    requires Level(n1, n2, t.slot, r, ks, queue1, queue2) && ks != []
    ensures Level(n0, n2, parent, root, ts + [t.(kids := ks)], q, queue2)
  {
    var u := t.(kids := ks);
    SlotsSnoc(ts, t);
    SlotsSnoc(ts, u);
    assert q == Slots(ts + [u]) + queue2 by {
      assert q == Slots(ts) + [t.slot] + [] + (Slots(ks) + queue2);
    }
    DistinctParts(Slots(ts + [t]), queue1);
    assert (ts + [t])[|ts|] == t;
    KidsApart(n1, n2, ts, t, r, ks, queue1, queue2);
    LinkedKids(n1, n2, root, ts, t, ks);
    KidsHeads(n1, n2, root, ts, t, ks);
    forall x | 0 <= x < |n2| && x !in Slots(ts + [u])
      ensures OutsideAt(n0, n2, parent, root, x)
    {
      assert OutsideAt(n0, n1, parent, root, x) && OutsideAt(n1, n2, t.slot, r, x);
    }
  }

  lemma KidsApart(n1: seq<Node>, n2: seq<Node>, ts: seq<Tree>, t: Tree, r: int, ks: seq<Tree>, queue1: seq<int>, queue2: seq<int>)
    requires Level(n1, n2, t.slot, r, ks, queue1, queue2)
    requires Distinct(Slots(ts + [t])) && (forall x :: x in Slots(ts + [t]) ==> x !in queue1) && 0 <= t.slot < |n1|
    ensures |n1| == |n2| && n2[t.slot] == n1[t.slot].(embedded := r)
    ensures forall x :: x in Slots(ts) && 0 <= x < |n1| ==> n2[x] == n1[x]
  {
    SlotsSnoc(ts, t);
    DistinctParts(Slots(ts), [t.slot] + Slots(t.kids));
    assert Slots(ts + [t]) == Slots(ts) + ([t.slot] + Slots(t.kids));
    assert t.slot in [t.slot] + Slots(t.kids);
    assert t.slot in Slots(ts + [t]) && t.slot !in Slots(ks);
    assert OutsideAt(n1, n2, t.slot, r, t.slot);
    forall x | x in Slots(ts) && 0 <= x < |n1|
      ensures n2[x] == n1[x]
    {
      assert x in Slots(ts + [t]) && x !in queue1;
      assert x != t.slot && OutsideAt(n1, n2, t.slot, r, x);
    }
  }

  lemma KidsHeads(n1: seq<Node>, n2: seq<Node>, root: int, ts: seq<Tree>, t: Tree, ks: seq<Tree>)
    requires ListAt(n1, root, ts + [t]) && Linked(n2, root, ts + [t.(kids := ks)]) && |n1| == |n2|
    requires 0 <= t.slot < |n2| && n2[t.slot] == n1[t.slot].(embedded := n2[t.slot].embedded)
    requires forall x :: x in Slots(ts) && 0 <= x < |n1| ==> n2[x] == n1[x]
    ensures ListAt(n2, root, ts + [t.(kids := ks)])
  {
    var us, vs := ts + [t], ts + [t.(kids := ks)];
    TopIn(ts);
    forall i | 0 <= i < |vs|
      ensures 0 <= vs[i].slot < |n2| && n2[vs[i].slot].head == root
    {
      assert us[i].slot == vs[i].slot && (i < |ts| ==> us[i] == ts[i]);
    }
    assert us[0].slot == root;
    assert root == t.slot || root in Slots(ts) by { assert us[0] == if ts == [] then t else ts[0]; }
  }
}
