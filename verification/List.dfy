// The part of lib/core/ogs-list.h that timer expiry uses: an intrusive list that grows at its
// end and is walked from its front.
module List {
  class LNode {
    const entry: nat  // the record that embeds the node
    var prev: LNode?
    var next: LNode?

    constructor (entry: nat)
      ensures this.entry == entry
    {
      this.entry := entry;
      prev, next := null, null;
    }
  }

  // nodes[k..] can still be walked to its end.
  ghost predicate Chained(nodes: seq<LNode>, k: nat)
    reads nodes
  {
    forall i :: k <= i < |nodes| ==> nodes[i].next == if i + 1 < |nodes| then nodes[i + 1] else null
  }

  lemma Follow(nodes: seq<LNode>, i: nat)
    requires Chained(nodes, 0) && i < |nodes|
    ensures nodes[i].next == if i + 1 < |nodes| then nodes[i + 1] else null
  {
  }

  class List {
    var prev: LNode?
    var next: LNode?
    ghost var nodes: seq<LNode>

    ghost predicate Valid()
      reads this, nodes
    {
      && Chained(nodes, 0) && (forall i, j :: 0 <= i < j < |nodes| ==> nodes[i] != nodes[j])
      && next == (if nodes == [] then null else nodes[0])
      && prev == (if nodes == [] then null else nodes[|nodes| - 1])
    }

    constructor ()
      ensures Valid() && nodes == []
    {
      prev, next, nodes := null, null, [];
    }

    // ogs_list_add
    method Add(node: LNode)
      requires Valid() && node !in nodes
      modifies this, node, nodes
      ensures Valid() && nodes == old(nodes) + [node]
    {
      node.prev := prev;
      node.next := null;
      if prev != null {
        prev.next := node;
      } else {
        next := node;
      }
      prev := node;
      nodes := nodes + [node];
    }
  }
}
