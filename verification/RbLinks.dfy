// What single pointer updates do to the tree the links represent.  Each lemma takes the links
// before, names the links after, and says which tree they spell out.
module RbLinks {
  import opened RbShape

  // The links hold the tree Fill(c, t), seen from the place where c and t meet.
  ghost predicate Cut(m: Links, root: Node?, c: Ctx, t: Shape) {
    && t.Holds(m, c.Parent(null)) && c.Holds(m, t.Root(), root, null)
    && c.Distinct() && t.Distinct() && c.Nodes() !! t.Nodes()
  }

  // The links spell out exactly the tree s.
  ghost predicate Spells(m: Links, root: Node?, s: Shape) {
    s.Holds(m, null) && s.Root() == root && s.Distinct()
  }

  lemma CutFill(m: Links, root: Node?, c: Ctx, t: Shape)
    ensures Spells(m, root, Fill(c, t)) <==> Cut(m, root, c, t)
  {
    FillHolds(m, c, t, null);
    FillDistinct(c, t);
    if c.Holds(m, t.Root(), root, null) { HoldsRoot(m, c, t, root, null); }
  }

  lemma {:induction false} Frame(m: Links, d: Links, t: Shape, p: Node?)
    requires t.Holds(m, p) && d.Keys !! t.Nodes()
    ensures t.Holds(m + d, p)
    decreases t
  {
    if t.Leaf? {
    } else {
      Frame(m, d, t.left, t.node);
      Frame(m, d, t.right, t.node);
    }
  }

  lemma {:induction false} CtxFrame(m: Links, d: Links, c: Ctx, hole: Node?, root: Node?, p: Node?)
    requires c.Holds(m, hole, root, p) && d.Keys !! c.Nodes()
    ensures c.Holds(m + d, hole, root, p)
    decreases c
  {
    if c.Top? {
    } else {
      Frame(m, d, c.Side(), c.node);
      CtxFrame(m, d, c.up, c.node, root, p);
    }
  }

  // The root of a subtree gets a new parent.
  ghost function NewParent(m: Links, n: Node?, q: Node?): Links
    requires n != null ==> n in m
  {
    if n == null then map[] else map[n := m[n].(parent := q)]
  }

  lemma Rehang(m: Links, t: Shape, p: Node?, q: Node?)
    requires t.Holds(m, p) && t.Distinct()
    ensures t.Holds(m + NewParent(m, t.Root(), q), q)
  {
    if t.Branch? {
      var d := NewParent(m, t.node, q);
      Frame(m, d, t.left, t.node);
      Frame(m, d, t.right, t.node);
    }
  }

  // The link that leads into the hole is redirected.
  ghost function NewChild(m: Links, c: Ctx, child: Node?): Links
    requires !c.Top? ==> c.node in m
  {
    if c.Top? then map[]
    else map[c.node := if c.InLeft? then m[c.node].(left := child) else m[c.node].(right := child)]
  }

  // The link into the hole of c holds `child`, and the other link of that parent does not.
  ghost predicate LeadsTo(m: Links, c: Ctx, child: Node?) {
    !c.Top? ==> c.node in m && (c.InLeft? <==> m[c.node].left == child)
  }

  ghost function NewRoot(root: Node?, c: Ctx, child: Node?): Node? {
    if c.Top? then child else root
  }

  lemma Relink(m: Links, root: Node?, c: Ctx, old_: Node?, new_: Node?, p: Node?)
    requires c.Holds(m, old_, root, p) && c.Distinct()
    ensures c.Holds(m + NewChild(m, c, new_), new_, NewRoot(root, c, new_), p)
  {
    if !c.Top? {
      var d := NewChild(m, c, new_);
      Frame(m, d, c.Side(), c.node);
      CtxFrame(m, d, c.up, c.node, root, p);
    }
  }

  // The fields seen from a cut: the subtree's root, its parent, and the parent's other child.
  lemma Look(m: Links, root: Node?, c: Ctx, t: Shape)
    requires Spells(m, root, Fill(c, t)) && t.Branch?
    ensures t.node in m && m[t.node] == Cell(c.Parent(null), t.left.Root(), t.right.Root(), t.color)
    ensures !c.Top? ==>
              && c.node in m && c.node != t.node && c.Side().Root() != t.node && c.Side().Root() != c.node
              && m[c.node] == (if c.InLeft? then Cell(c.up.Parent(null), t.node, c.right.Root(), c.color)
                               else Cell(c.up.Parent(null), c.left.Root(), t.node, c.color))
              && (c.Side().Branch? ==> c.Side().node in m && m[c.Side().node].color == c.Side().color)
  {
    CutFill(m, root, c, t);
  }

  // The same for the two children of the subtree's root.
  lemma LookBelow(m: Links, root: Node?, c: Ctx, t: Shape)
    requires Spells(m, root, Fill(c, t)) && t.Branch?
    ensures t.node in m && m[t.node].left == t.left.Root() && m[t.node].right == t.right.Root()
    ensures t.left.Branch? ==> t.left.node in m && m[t.left.node].color == t.left.color
    ensures t.right.Branch? ==> t.right.node in m && m[t.right.node].color == t.right.color
  {
    CutFill(m, root, c, t);
    assert t.left.Holds(m, t.node) && t.right.Holds(m, t.node);
  }

  lemma LookRoot(m: Links, root: Node?, c: Ctx, t: Shape)
    requires Spells(m, root, Fill(c, t))
    ensures t.Branch? ==> t.node in m && m[t.node].color == t.color
  {
    CutFill(m, root, c, t);
  }

  // Which child of its parent the hole is.
  lemma LookParent(m: Links, root: Node?, c: Ctx, t: Shape)
    requires Spells(m, root, Fill(c, t)) && !c.Top?
    requires t.Leaf? ==> c.Side().Branch?
    ensures c.node in m && (c.InLeft? <==> m[c.node].left == t.Root())
  {
    CutFill(m, root, c, t);
  }

  lemma Recolor(m: Links, root: Node?, c: Ctx, t: Shape, k: Color)
    requires Spells(m, root, Fill(c, t)) && t.Branch?
    ensures t.node in m
    ensures Spells(m[t.node := m[t.node].(color := k)], root, Fill(c, t.(color := k)))
  {
    CutFill(m, root, c, t);
    var d := map[t.node := m[t.node].(color := k)];
    Frame(m, d, t.left, t.node);
    Frame(m, d, t.right, t.node);
    CtxFrame(m, d, c, t.node, root, null);
    assert m[t.node := m[t.node].(color := k)] == m + d;
    CutFill(m + d, root, c, t.(color := k));
  }

  lemma {:induction false} HoldsDomain(m: Links, t: Shape, p: Node?)
    requires t.Holds(m, p)
    ensures t.Nodes() <= m.Keys
    decreases t
  {
    if t.Leaf? {
    } else {
      HoldsDomain(m, t.left, t.node);
      HoldsDomain(m, t.right, t.node);
    }
  }

  // A fresh red leaf fills an empty hole.
  lemma Link(m: Links, root: Node?, c: Ctx, x: Node)
    requires Spells(m, root, Fill(c, Leaf)) && x !in m
    ensures !c.Top? ==> c.node in m
    ensures Spells((m + NewChild(m, c, x))[x := Cell(c.Parent(null), null, null, Red)],
                   NewRoot(root, c, x), Fill(c, Branch(Leaf, x, Red, Leaf)))
  {
    CutFill(m, root, c, Leaf);
    FillNodes(c, Leaf);
    HoldsDomain(m, Fill(c, Leaf), null);
    Relink(m, root, c, null, x, null);
    var m1 := m + NewChild(m, c, x);
    var d := map[x := Cell(c.Parent(null), null, null, Red)];
    CtxFrame(m1, d, c, x, NewRoot(root, c, x), null);
    assert m1[x := d[x]] == m1 + d;
    var t := Branch(Leaf, x, Red, Leaf);
    assert t.Nodes() == {x} && t.Holds(m1 + d, c.Parent(null));
    assert Cut(m1 + d, NewRoot(root, c, x), c, t);
    CutFill(m1 + d, NewRoot(root, c, x), c, Branch(Leaf, x, Red, Leaf));
  }

  // The hole is the root exactly at the top.
  lemma RootCut(m: Links, root: Node?, c: Ctx, t: Shape)
    requires Spells(m, root, Fill(c, t))
    ensures root == t.Root() <==> c.Top?
  {
    CutFill(m, root, c, t);
    HoldsRoot(m, c, t, root, null);
  }

  lemma RootSeen(m: Links, root: Node?, c: Ctx, t: Shape)
    requires Spells(m, root, Fill(c, t)) && t.Branch?
    ensures root != null && Fill(c, t).Branch? && Fill(c, t).node == root
  {
    CutFill(m, root, c, t);
    HoldsRoot(m, c, t, root, null);
  }

  // Colour flip: parent and uncle black, grandparent red.
  ghost function Flipped(c: Ctx, t: Shape): Shape
    requires t.Branch? && !c.Top? && c.Side().Branch?
  {
    var s := c.Side().(color := Black);
    if c.InLeft? then Branch(t.(color := Black), c.node, Red, s)
    else Branch(s, c.node, Red, t.(color := Black))
  }

  // ---------- Rotations ----------

  ghost function LeftRotated(t: Shape): Shape
    requires t.Branch? && t.right.Branch?
  {
    Branch(Branch(t.left, t.node, t.color, t.right.left), t.right.node, t.right.color, t.right.right)
  }

  ghost function RightRotated(t: Shape): Shape
    requires t.Branch? && t.left.Branch?
  {
    Branch(t.left.left, t.left.node, t.left.color, Branch(t.left.right, t.node, t.color, t.right))
  }

  // Three subtrees that hang below x or y, and the context around both.
  ghost predicate Parts(m: Links, root: Node?, c: Ctx, hole: Node, x: Node, y: Node,
                        a: Shape, b: Shape, d: Shape, pa: Node, pb: Node, pd: Node) {
    && a.Holds(m, pa) && b.Holds(m, pb) && d.Holds(m, pd) && c.Holds(m, hole, root, null)
    && a.Distinct() && b.Distinct() && d.Distinct() && c.Distinct()
    && x in m && y in m && x != y
    && LeadsTo(m, c, hole)
    && {x, y} !! c.Nodes() !! a.Nodes() !! b.Nodes() !! d.Nodes()
  }

  // What both rotations do to everything but x and y.
  lemma MoveParts(m: Links, root: Node?, c: Ctx, x: Node, y: Node,
                  a: Shape, b: Shape, d: Shape, pa: Node, pd: Node, cx: Cell, cy: Cell)
    requires Parts(m, root, c, x, x, y, a, b, d, pa, y, pd)
    ensures b.Branch? ==> b.node in m
    ensures !c.Top? ==> c.node in m
    ensures var m2 := m + NewParent(m, b.Root(), x) + NewChild(m, c, y) + map[x := cx, y := cy];
      Parts(m2, NewRoot(root, c, y), c, y, x, y, a, b, d, pa, x, pd)
  {
    hide NewRoot;
    var d1 := NewParent(m, b.Root(), x);
    var m1 := m + d1;
    assert d1.Keys <= b.Nodes();
    Rehang(m, b, y, x);
    Frame(m, d1, a, pa);
    Frame(m, d1, d, pd);
    CtxFrame(m, d1, c, x, root, null);
    var d2 := NewChild(m, c, y);
    assert d2 == NewChild(m1, c, y) && d2.Keys <= c.Nodes();
    Relink(m1, root, c, x, y, null);
    Frame(m1, d2, a, pa);
    Frame(m1, d2, b, x);
    Frame(m1, d2, d, pd);
    var d3 := map[x := cx, y := cy];
    Frame(m1 + d2, d3, a, pa);
    Frame(m1 + d2, d3, b, x);
    Frame(m1 + d2, d3, d, pd);
    CtxFrame(m1 + d2, d3, c, y, NewRoot(root, c, y), null);
  }

  // One-step facts that make the pointers of a left rotation at x safe to follow.
  ghost predicate CanRotateLeft(m: Links, c: Ctx, x: Node) {
    && x in m && m[x].right != null && m[x].right in m && m[x].right != x && (!c.Top? ==> c.node in m)
    && (var y := m[x].right; var b := m[y].left;
        && (b != null ==> b in m && b != x && b != y)
        && LeadsTo(m, c, x) && m[x].parent == c.Parent(null)
        && (!c.Top? ==> c.node !in {x, y, b}))
  }

  ghost predicate CanRotateRight(m: Links, c: Ctx, x: Node) {
    && x in m && m[x].left != null && m[x].left in m && m[x].left != x
    && (var y := m[x].left; var b := m[y].right;
        && (b != null ==> b in m && b != x && b != y)
        && LeadsTo(m, c, x) && m[x].parent == c.Parent(null)
        && (!c.Top? ==> c.node !in {x, y, b}))
  }

  ghost function LeftRotatedLinks(m: Links, c: Ctx, x: Node): Links
    requires CanRotateLeft(m, c, x)
  {
    var y := m[x].right;
    var b := m[y].left;
    var m1 := if b == null then m else m[b := m[b].(parent := x)];
    var m2 := if c.Top? then m1
              else m1[c.node := if c.InLeft? then m[c.node].(left := y) else m[c.node].(right := y)];
    m2[x := m[x].(parent := y, right := b)][y := m[y].(parent := c.Parent(null), left := x)]
  }

  ghost function RightRotatedLinks(m: Links, c: Ctx, x: Node): Links
    requires CanRotateRight(m, c, x)
  {
    var y := m[x].left;
    var b := m[y].right;
    var m1 := if b == null then m else m[b := m[b].(parent := x)];
    var m2 := if c.Top? then m1
              else m1[c.node := if c.InLeft? then m[c.node].(left := y) else m[c.node].(right := y)];
    m2[x := m[x].(parent := y, left := b)][y := m[y].(parent := c.Parent(null), right := x)]
  }

  lemma MergedLeft(m: Links, c: Ctx, x: Node)
    requires CanRotateLeft(m, c, x)
    ensures var y := m[x].right; var b := m[y].left;
      LeftRotatedLinks(m, c, x)
      == m + NewParent(m, b, x) + NewChild(m, c, y)
         + map[x := m[x].(parent := y, right := b), y := m[y].(parent := c.Parent(null), left := x)]
  {}

  lemma MergedRight(m: Links, c: Ctx, x: Node)
    requires CanRotateRight(m, c, x)
    ensures var y := m[x].left; var b := m[y].right;
      RightRotatedLinks(m, c, x)
      == m + NewParent(m, b, x) + NewChild(m, c, y)
         + map[x := m[x].(parent := y, left := b), y := m[y].(parent := c.Parent(null), right := x)]
  {}

  lemma CutRotateLeft(m: Links, root: Node?, c: Ctx, t: Shape)
    requires Cut(m, root, c, t) && t.Branch? && t.right.Branch?
    ensures CanRotateLeft(m, c, t.node) && m[t.node].right == t.right.node
    ensures Cut(LeftRotatedLinks(m, c, t.node), NewRoot(root, c, t.right.node), c, LeftRotated(t))
  {
    var x, y, a, b, d := t.node, t.right.node, t.left, t.right.left, t.right.right;
    var s := t.right;
    assert s.Holds(m, x) && s.Distinct() && s.Nodes() == b.Nodes() + {y} + d.Nodes();
    assert Parts(m, root, c, x, x, y, a, b, d, x, y, y);
    var cx, cy := m[x].(parent := y, right := b.Root()), m[y].(parent := c.Parent(null), left := x);
    MoveParts(m, root, c, x, y, a, b, d, x, y, cx, cy);
    MergedLeft(m, c, x);
  }

  lemma RotateLeft(m: Links, root: Node?, c: Ctx, t: Shape)
    requires Spells(m, root, Fill(c, t)) && t.Branch? && t.right.Branch?
    ensures CanRotateLeft(m, c, t.node) && m[t.node].right == t.right.node
    ensures Spells(LeftRotatedLinks(m, c, t.node), NewRoot(root, c, t.right.node), Fill(c, LeftRotated(t)))
  {
    CutFill(m, root, c, t);
    CutRotateLeft(m, root, c, t);
    CutFill(LeftRotatedLinks(m, c, t.node), NewRoot(root, c, t.right.node), c, LeftRotated(t));
  }

  lemma CutRotateRight(m: Links, root: Node?, c: Ctx, t: Shape)
    requires Cut(m, root, c, t) && t.Branch? && t.left.Branch?
    ensures CanRotateRight(m, c, t.node) && m[t.node].left == t.left.node
    ensures Cut(RightRotatedLinks(m, c, t.node), NewRoot(root, c, t.left.node), c, RightRotated(t))
  {
    var x, y, a, b, d := t.node, t.left.node, t.left.left, t.left.right, t.right;
    var s := t.left;
    assert s.Holds(m, x) && s.Distinct() && s.Nodes() == a.Nodes() + {y} + b.Nodes();
    assert Parts(m, root, c, x, x, y, a, b, d, y, y, x);
    var cx, cy := m[x].(parent := y, left := b.Root()), m[y].(parent := c.Parent(null), right := x);
    MoveParts(m, root, c, x, y, a, b, d, y, x, cx, cy);
    MergedRight(m, c, x);
  }

  lemma RotateRight(m: Links, root: Node?, c: Ctx, t: Shape)
    requires Spells(m, root, Fill(c, t)) && t.Branch? && t.left.Branch?
    ensures CanRotateRight(m, c, t.node) && m[t.node].left == t.left.node
    ensures Spells(RightRotatedLinks(m, c, t.node), NewRoot(root, c, t.left.node), Fill(c, RightRotated(t)))
  {
    CutFill(m, root, c, t);
    CutRotateRight(m, root, c, t);
    CutFill(RightRotatedLinks(m, c, t.node), NewRoot(root, c, t.left.node), c, RightRotated(t));
  }


  // ---------- Taking a node out ----------

  lemma {:induction false} Drop(m: Links, t: Shape, p: Node?, x: Node)
    requires t.Holds(m, p) && x !in t.Nodes()
    ensures t.Holds(m - {x}, p)
    decreases t
  {
    if t.Leaf? {
    } else {
      Drop(m, t.left, t.node, x);
      Drop(m, t.right, t.node, x);
    }
  }

  // Nothing but the links of x was forgotten.
  lemma DropSpelled(m: Links, root: Node?, s: Shape, x: Node)
    requires Spells(m, root, s) && x !in s.Nodes()
    ensures Spells(m - {x}, root, s)
  {
    Drop(m, s, null, x);
  }

  lemma CutBypass(m: Links, root: Node?, c: Ctx, hole: Node, s: Shape, p: Node?)
    requires s.Holds(m, hole) && c.Holds(m, hole, root, p)
    requires s.Distinct() && c.Distinct() && s.Nodes() !! c.Nodes()
    ensures (!c.Top? ==> c.node in m) && (s.Branch? ==> s.node in m)
    ensures var m2 := m + NewParent(m, s.Root(), c.Parent(p)) + NewChild(m, c, s.Root());
      s.Holds(m2, c.Parent(p)) && c.Holds(m2, s.Root(), NewRoot(root, c, s.Root()), p)
  {
    var d1 := NewParent(m, s.Root(), c.Parent(p));
    var m1 := m + d1;
    assert d1.Keys <= s.Nodes();
    Rehang(m, s, hole, c.Parent(p));
    CtxFrame(m, d1, c, hole, root, p);
    Relink(m1, root, c, hole, s.Root(), p);
    var d2 := NewChild(m, c, s.Root());
    assert d2 == NewChild(m1, c, s.Root()) && d2.Keys <= c.Nodes();
    Frame(m1, d2, s, c.Parent(p));
  }

  // What is below a node with at most one child.
  ghost function OnlyChild(t: Shape): Shape
    requires t.Branch? && (t.left.Leaf? || t.right.Leaf?)
  {
    if t.left.Leaf? then t.right else t.left
  }

  lemma OnlyChildNodes(t: Shape)
    requires t.Branch? && (t.left.Leaf? || t.right.Leaf?) && t.Distinct()
    ensures OnlyChild(t).Distinct() && t.node !in OnlyChild(t).Nodes()
    ensures t.Nodes() == OnlyChild(t).Nodes() + {t.node}
  {}

  // A node with at most one child gives its place to that child.
  lemma Bypass(m: Links, root: Node?, c: Ctx, t: Shape)
    requires Spells(m, root, Fill(c, t)) && t.Branch? && (t.left.Leaf? || t.right.Leaf?)
    ensures var s := OnlyChild(t);
      && (!c.Top? ==> c.node in m) && (s.Branch? ==> s.node in m)
      && Spells(m + NewParent(m, s.Root(), c.Parent(null)) + NewChild(m, c, s.Root()),
                NewRoot(root, c, s.Root()), Fill(c, s))
  {
    CutFill(m, root, c, t);
    OnlyChildNodes(t);
    var s := OnlyChild(t);
    CutBypass(m, root, c, t.node, s, null);
    CutFill(m + NewParent(m, s.Root(), c.Parent(null)) + NewChild(m, c, s.Root()),
            NewRoot(root, c, s.Root()), c, s);
  }

  // The pointers ogs_rbtree_delete follows when the node has at most one child.
  lemma BypassView(m: Links, root: Node?, c: Ctx, t: Shape)
    requires Spells(m, root, Fill(c, t)) && t.Branch? && (t.left.Leaf? || t.right.Leaf?)
    ensures t.node in m && m[t.node] == Cell(c.Parent(null), t.left.Root(), t.right.Root(), t.color)
    ensures LeadsTo(m, c, t.node)
    ensures var s := OnlyChild(t).Root(); s != null ==> s in m && s != c.Parent(null)
  {
    CutFill(m, root, c, t);
    LeadsToHole(m, root, c, t);
    assert t.left.Holds(m, t.node) && t.right.Holds(m, t.node);
    assert OnlyChild(t).Branch? ==> OnlyChild(t).node in t.Nodes();
  }

  lemma KeysAfter(m: Links, n: Node?, q: Node?, c: Ctx)
    requires (n != null ==> n in m) && (!c.Top? ==> c.node in m)
    ensures (m + NewParent(m, n, q) + NewChild(m, c, n)).Keys == m.Keys
  {}

  lemma Regroup(a: set<Node>, b: set<Node>, x: Node)
    requires x !in a && x !in b
    ensures x !in a + b && a + b + {x} == a + (b + {x})
  {}

  lemma BypassNodes(c: Ctx, t: Shape)
    requires Fill(c, t).Distinct() && t.Branch? && (t.left.Leaf? || t.right.Leaf?)
    ensures t.node !in Fill(c, OnlyChild(t)).Nodes()
    ensures Fill(c, OnlyChild(t)).Nodes() + {t.node} == Fill(c, t).Nodes()
  {
    FillDistinct(c, t);
    FillNodes(c, t);
    FillNodes(c, OnlyChild(t));
    OnlyChildNodes(t);
    assert t.node !in c.Nodes();
    Regroup(c.Nodes(), OnlyChild(t).Nodes(), t.node);
  }

  // The leftmost node of a tree, and the way down to it.
  ghost function Least(t: Shape): Shape
    requires t.Branch?
    ensures Least(t).Branch? && Least(t).left.Leaf?
  {
    if t.left.Leaf? then t else Least(t.left)
  }

  ghost function Greatest(t: Shape): Shape
    requires t.Branch?
    ensures Greatest(t).Branch? && Greatest(t).right.Leaf?
  {
    if t.right.Leaf? then t else Greatest(t.right)
  }

  lemma {:induction false} LeastFirst(t: Shape)
    requires t.Branch?
    ensures t.Inorder() != [] && t.Inorder()[0] == Least(t).node
    decreases t
  {
    if t.left.Leaf? {
    } else {
      LeastFirst(t.left);
    }
  }

  lemma {:induction false} GreatestLast(t: Shape)
    requires t.Branch?
    ensures t.Inorder() != [] && t.Inorder()[|t.Inorder()| - 1] == Greatest(t).node
    decreases t
  {
    if t.right.Leaf? {
    } else {
      GreatestLast(t.right);
    }
  }

  // The successor: the leftmost node below on the right, else the first node above on the right.
  lemma NextAt(c: Ctx, t: Shape, i: nat)
    requires Fill(c, t).Distinct() && t.Branch?
    requires i < |Fill(c, t).Inorder()| && Fill(c, t).Inorder()[i] == t.node
    ensures i + 1 < |Fill(c, t).Inorder()| <==> t.right.Branch? || c.After() != []
    ensures i + 1 < |Fill(c, t).Inorder()| ==>
              Fill(c, t).Inorder()[i + 1] == if t.right.Branch? then Least(t.right).node else c.After()[0]
  {
    FillOrder(c, t);
    Around(c.Before(), t.left.Inorder(), t.node, t.right.Inorder(), c.After());
    InorderInjective(Fill(c, t), i, |c.Before() + t.left.Inorder()|);
    if t.right.Branch? { LeastFirst(t.right); }
  }

  lemma PrevAt(c: Ctx, t: Shape, i: nat)
    requires Fill(c, t).Distinct() && t.Branch?
    requires i < |Fill(c, t).Inorder()| && Fill(c, t).Inorder()[i] == t.node
    ensures i > 0 <==> t.left.Branch? || c.Before() != []
    ensures i > 0 ==>
              Fill(c, t).Inorder()[i - 1] == if t.left.Branch? then Greatest(t.left).node
                                             else c.Before()[|c.Before()| - 1]
  {
    FillOrder(c, t);
    Around(c.Before(), t.left.Inorder(), t.node, t.right.Inorder(), c.After());
    InorderInjective(Fill(c, t), i, |c.Before() + t.left.Inorder()|);
    if t.left.Branch? { GreatestLast(t.left); }
  }

  lemma Around<T>(p: seq<T>, l: seq<T>, x: T, r: seq<T>, q: seq<T>)
    ensures var s, a, b := p + (l + [x] + r) + q, r + q, p + l;
      && |s| == |b| + 1 + |a| && s[|b|] == x
      && (a != [] ==> s[|b| + 1] == a[0]) && (b != [] ==> s[|b| - 1] == b[|b| - 1])
  {}

  ghost function Spine(t: Shape, up: Ctx): Ctx
    requires t.Branch?
  {
    if t.left.Leaf? then up else Spine(t.left, InLeft(up, t.node, t.color, t.right))
  }

  lemma {:induction false} SpineFill(t: Shape, up: Ctx)
    requires t.Branch?
    ensures Fill(Spine(t, up), Least(t)) == Fill(up, t)
    ensures up.Top? || up.InLeft? ==> Spine(t, up).Top? || Spine(t, up).InLeft?
    ensures Spine(t, up).Top? <==> up.Top? && t.left.Leaf?
    decreases t
  {
    if t.left.Leaf? {
    } else {
      SpineFill(t.left, InLeft(up, t.node, t.color, t.right));
    }
  }

  // The right subtree r of x after its leftmost node has given its place to its right child.
  ghost function Beheaded(r: Shape): Shape
    requires r.Branch?
  {
    Fill(Spine(r, Top), Least(r).right)
  }

  // What that changes in the links, while the subtree still hangs below x.
  ghost function Beheading(m: Links, x: Node, r: Shape): Links
    requires r.Branch? && (!Spine(r, Top).Top? ==> Spine(r, Top).node in m)
    requires Least(r).right.Root() != null ==> Least(r).right.Root() in m
  {
    var c, child := Spine(r, Top), Least(r).right.Root();
    NewParent(m, child, c.Parent(x)) + NewChild(m, c, child)
  }

  lemma Behead(m: Links, x: Node, r: Shape)
    requires r.Branch? && r.Holds(m, x) && r.Distinct()
    ensures !Spine(r, Top).Top? ==> Spine(r, Top).node in m
    ensures Least(r).right.Root() != null ==> Least(r).right.Root() in m
    ensures Beheaded(r).Holds(m + Beheading(m, x, r), x) && Beheaded(r).Distinct()
    ensures Beheaded(r).Nodes() + {Least(r).node} == r.Nodes() && Least(r).node !in Beheaded(r).Nodes()
    ensures Beheaded(r).Root() == NewRoot(r.node, Spine(r, Top), Least(r).right.Root())
    ensures Beheading(m, x, r).Keys <= Beheaded(r).Nodes()
  {
    var c, t := Spine(r, Top), Least(r);
    SpineFill(r, Top);
    FillHolds(m, c, t, x);
    FillDistinct(c, t);
    OnlyChildNodes(t);
    CutBypass(m, r.node, c, t.node, t.right, x);
    var m2 := m + Beheading(m, x, r);
    assert m2 == m + NewParent(m, t.right.Root(), c.Parent(x)) + NewChild(m, c, t.right.Root());
    HoldsRoot(m2, c, t.right, NewRoot(r.node, c, t.right.Root()), x);
    FillHolds(m2, c, t.right, x);
    FillDistinct(c, t.right);
    BeheadNodes(r);
    FillNodes(c, t.right);
  }

  // Node y takes the place of x between the subtrees l and r and the context c.
  ghost function Grafted(m: Links, c: Ctx, y: Node, l: Shape, r: Shape, cell: Cell): Links
    requires (!c.Top? ==> c.node in m) && (l.Branch? ==> l.node in m) && (r.Branch? ==> r.node in m)
  {
    m + NewParent(m, r.Root(), y) + NewParent(m, l.Root(), y) + NewChild(m, c, y) + map[y := cell]
  }

  lemma RehangBoth(m: Links, root: Node?, c: Ctx, x: Node, y: Node, l: Shape, r: Shape)
    requires l.Holds(m, x) && r.Holds(m, x) && c.Holds(m, x, root, null)
    requires l.Distinct() && r.Distinct()
    requires c.Nodes() !! l.Nodes() && c.Nodes() !! r.Nodes() && l.Nodes() !! r.Nodes()
    ensures (l.Branch? ==> l.node in m) && (r.Branch? ==> r.node in m)
    ensures var m2 := m + NewParent(m, r.Root(), y) + NewParent(m, l.Root(), y);
      l.Holds(m2, y) && r.Holds(m2, y) && c.Holds(m2, x, root, null)
      && (!c.Top? ==> c.node in m && m2[c.node] == m[c.node])
  {
    var d1, d2 := NewParent(m, r.Root(), y), NewParent(m, l.Root(), y);
    assert d1.Keys <= r.Nodes() && d2.Keys <= l.Nodes();
    var m1 := m + d1;
    Rehang(m, r, x, y);
    Frame(m, d1, l, x);
    CtxFrame(m, d1, c, x, root, null);
    assert d2 == NewParent(m1, l.Root(), y);
    Rehang(m1, l, x, y);
    Frame(m1, d2, r, y);
    CtxFrame(m1, d2, c, x, root, null);
  }

  lemma Plant(m: Links, root: Node?, c: Ctx, y: Node, k: Color, l: Shape, r: Shape)
    requires l.Holds(m, y) && r.Holds(m, y) && c.Holds(m, y, root, null)
    requires l.Distinct() && r.Distinct() && c.Distinct()
    requires y !in c.Nodes() && y !in l.Nodes() && y !in r.Nodes()
    requires c.Nodes() !! l.Nodes() && c.Nodes() !! r.Nodes() && l.Nodes() !! r.Nodes()
    ensures Spells(m + map[y := Cell(c.Parent(null), l.Root(), r.Root(), k)], root, Fill(c, Branch(l, y, k, r)))
  {
    var d := map[y := Cell(c.Parent(null), l.Root(), r.Root(), k)];
    Frame(m, d, l, y);
    Frame(m, d, r, y);
    CtxFrame(m, d, c, y, root, null);
    var t := Branch(l, y, k, r);
    assert t.Holds(m + d, c.Parent(null));
    BranchApart(c, l, y, k, r);
    CutFill(m + d, root, c, t);
  }

  lemma BranchApart(c: Ctx, l: Shape, y: Node, k: Color, r: Shape)
    requires l.Distinct() && r.Distinct()
    requires y !in c.Nodes() && y !in l.Nodes() && y !in r.Nodes()
    requires c.Nodes() !! l.Nodes() && c.Nodes() !! r.Nodes() && l.Nodes() !! r.Nodes()
    ensures Branch(l, y, k, r).Distinct() && c.Nodes() !! Branch(l, y, k, r).Nodes()
  {}

  lemma Graft(m: Links, root: Node?, c: Ctx, x: Node, y: Node, k: Color, l: Shape, r: Shape)
    requires l.Holds(m, x) && r.Holds(m, x) && c.Holds(m, x, root, null)
    requires l.Distinct() && r.Distinct() && c.Distinct()
    requires y !in c.Nodes() && y !in l.Nodes() && y !in r.Nodes()
    requires c.Nodes() !! l.Nodes() && c.Nodes() !! r.Nodes() && l.Nodes() !! r.Nodes()
    ensures (!c.Top? ==> c.node in m) && (l.Branch? ==> l.node in m) && (r.Branch? ==> r.node in m)
    ensures Spells(Grafted(m, c, y, l, r, Cell(c.Parent(null), l.Root(), r.Root(), k)),
                   NewRoot(root, c, y), Fill(c, Branch(l, y, k, r)))
  {
    RehangBoth(m, root, c, x, y, l, r);
    var m2 := m + NewParent(m, r.Root(), y) + NewParent(m, l.Root(), y);
    var d3, d4 := NewChild(m, c, y), map[y := Cell(c.Parent(null), l.Root(), r.Root(), k)];
    assert d3 == NewChild(m2, c, y) && d3.Keys <= c.Nodes();
    var m3 := m2 + d3;
    Relink(m2, root, c, x, y, null);
    Frame(m2, d3, l, y);
    Frame(m2, d3, r, y);
    Plant(m3, NewRoot(root, c, y), c, y, k, l, r);
  }

  // x with two children gives its place and colour to the leftmost node of its right subtree.
  ghost function Successor(t: Shape): Shape
    requires t.Branch? && t.left.Branch? && t.right.Branch?
  {
    Branch(t.left, Least(t.right).node, t.color, Beheaded(t.right))
  }

  ghost predicate Spliceable(m: Links, c: Ctx, t: Shape)
    requires t.Branch? && t.left.Branch? && t.right.Branch?
  {
    var q, child, b := Spine(t.right, Top), Least(t.right).right.Root(), Beheaded(t.right).Root();
    && (!q.Top? ==> q.node in m) && (child != null ==> child in m)
    && (!c.Top? ==> c.node in m) && t.left.node in m && (b != null ==> b in m)
  }

  ghost function Spliced(m: Links, c: Ctx, t: Shape): Links
    requires t.Branch? && t.left.Branch? && t.right.Branch? && Spliceable(m, c, t)
  {
    var s := Successor(t);
    Grafted(m + Beheading(m, t.node, t.right), c, s.node, s.left, s.right,
            Cell(c.Parent(null), s.left.Root(), s.right.Root(), s.color))
  }

  lemma Splice(m: Links, root: Node?, c: Ctx, t: Shape)
    requires Spells(m, root, Fill(c, t)) && t.Branch? && t.left.Branch? && t.right.Branch?
    ensures Spliceable(m, c, t)
    ensures Spells(Spliced(m, c, t), NewRoot(root, c, Least(t.right).node), Fill(c, Successor(t)))
  {
    CutFill(m, root, c, t);
    var x, l, r := t.node, t.left, t.right;
    Behead(m, x, r);
    var d := Beheading(m, x, r);
    Frame(m, d, l, x);
    CtxFrame(m, d, c, x, root, null);
    Graft(m + d, root, c, x, Least(r).node, t.color, l, Beheaded(r));
  }

  lemma SpliceNodes(c: Ctx, t: Shape)
    requires Fill(c, t).Distinct() && t.Branch? && t.left.Branch? && t.right.Branch?
    ensures t.node !in Fill(c, Successor(t)).Nodes()
    ensures Fill(c, Successor(t)).Nodes() + {t.node} == Fill(c, t).Nodes()
  {
    FillDistinct(c, t);
    FillNodes(c, t);
    FillNodes(c, Successor(t));
    BeheadNodes(t.right);
    var a, b := c.Nodes(), t.left.Nodes() + t.right.Nodes();
    assert Successor(t).Nodes() == b;
    assert t.Nodes() == b + {t.node};
    Regroup(a, b, t.node);
  }

  lemma BeheadNodes(r: Shape)
    requires r.Branch? && r.Distinct()
    ensures Beheaded(r).Nodes() + {Least(r).node} == r.Nodes() && Least(r).node !in Beheaded(r).Nodes()
  {
    SpineFill(r, Top);
    BypassNodes(Spine(r, Top), Least(r));
  }

  // The pointers ogs_rbtree_delete follows when the node x has two children.
  lemma SpliceView(m: Links, root: Node?, c: Ctx, t: Shape)
    requires Spells(m, root, Fill(c, t)) && t.Branch? && t.left.Branch? && t.right.Branch?
    ensures var x, l, r, q, y := t.node, t.left.node, t.right.node, Spine(t.right, Top), Least(t.right).node;
      var child := Least(t.right).right.Root();
      && x in m && l in m && r in m && y in m && (child != null ==> child in m) && (!q.Top? ==> q.node in m)
      && m[x] == Cell(c.Parent(null), l, r, t.color)
      && m[y] == Cell(q.Parent(x), null, child, Least(t.right).color)
      && (q.Top? <==> r == y) && (!q.Top? ==> m[q.node].left == y)
      && x !in {l, r, y, child, q.Parent(null)} && l !in {r, y, child, q.Parent(null)}
      && y !in {child, q.Parent(null)} && (child != null ==> child !in {r, q.Parent(null)})
      && (!c.Top? ==> c.node in m && c.node !in {x, l, r, y, child, q.Parent(null)}
                      && LeadsTo(m, c, x))
  {
    CutFill(m, root, c, t);
    var x, r, q, s := t.node, t.right, Spine(t.right, Top), Least(t.right);
    SpineFill(r, Top);
    FillHolds(m, q, s, x);
    FillDistinct(q, s);
    FillNodes(q, s);
    assert s.Nodes() == s.right.Nodes() + {s.node};
    assert s.right.Branch? ==> s.right.node in s.right.Nodes();
    assert !q.Top? ==> q.node in q.Nodes();
    if !q.Top? { HoldsRoot(m, q, s, r.node, x); }
    assert t.left.node in t.left.Nodes() && r.node in r.Nodes() && t.left.Holds(m, x);
    LeadsToHole(m, root, c, t);
  }

  // The fields of node n after the splice: x is the node that leaves, l and r its children,
  // y the leftmost node below r, child the right child of y, and q the way from r down to y.
  ghost function SplicedCell(m: Links, c: Ctx, l: Node, r: Node, q: Ctx, y: Node, child: Node?, k: Color, n: Node): Cell
    requires n in m
  {
    if n == y then Cell(c.Parent(null), l, if q.Top? then child else r, k)
    else if n == l then m[n].(parent := y)
    else if c.Parent(null) == n then
      if c.InLeft? then m[n].(left := y) else m[n].(right := y)
    else if q.Top? then m[n]
    else if n == q.node then m[n].(left := child, parent := if n == r then y else m[n].parent)
    else if n == r then m[n].(parent := y)
    else if child == n then m[n].(parent := q.node)
    else m[n]
  }

  // The same before y is hung below the parent of x and takes its colour.
  ghost function AdoptedCell(m: Links, l: Node, r: Node, q: Ctx, y: Node, child: Node?, n: Node): Cell
    requires n in m
  {
    if n == y then m[y].(left := l, right := if q.Top? then child else r)
    else if n == l then m[n].(parent := y)
    else if q.Top? then m[n]
    else if n == q.node then m[n].(left := child, parent := if n == r then y else m[n].parent)
    else if n == r then m[n].(parent := y)
    else if child == n then m[n].(parent := q.node)
    else m[n]
  }

  lemma SplicedCells(m: Links, root: Node?, c: Ctx, t: Shape)
    requires Spells(m, root, Fill(c, t)) && t.Branch? && t.left.Branch? && t.right.Branch?
    ensures Spliceable(m, c, t) && Spliced(m, c, t).Keys == m.Keys
    ensures var s := Least(t.right);
      forall n :: n in m ==>
        Spliced(m, c, t)[n] == SplicedCell(m, c, t.left.node, t.right.node, Spine(t.right, Top), s.node,
                                           s.right.Root(), t.color, n)
  {
    Splice(m, root, c, t);
    SpliceView(m, root, c, t);
    LeastParent(m, root, c, t);
    SpineFill(t.right, Top);
    assert Beheaded(t.right).Root() == NewRoot(t.right.node, Spine(t.right, Top), Least(t.right).right.Root()) by {
      CutFill(m, root, c, t);
      Behead(m, t.node, t.right);
    }
    MapSplice(m, c, t.node, t.left.node, t.right.node, Spine(t.right, Top), Least(t.right).node,
              Least(t.right).right.Root(), t.color);
  }

  lemma MapSplice(m: Links, c: Ctx, x: Node, l: Node, r: Node, q: Ctx, y: Node, child: Node?, k: Color)
    requires l in m && r in m && y in m && (q.Top? ==> r == y) && (q.Top? || (q.InLeft? && q.node in m))
    requires l !in {r, y, child, q.Parent(null)} && y !in {child, q.Parent(null)}
    requires child != null ==> child in m && child !in {r, q.Parent(null)} && m[child].parent == y
    requires !c.Top? ==> c.node in m && c.node !in {l, r, y, child, q.Parent(null)}
    ensures var m1 := m + (NewParent(m, child, q.Parent(x)) + NewChild(m, q, child));
      var b := NewRoot(r, q, child);
      var m3 := m1 + NewParent(m1, b, y) + NewParent(m1, l, y) + NewChild(m1, c, y)
                + map[y := Cell(c.Parent(null), l, b, k)];
      && m3.Keys == m.Keys
      && forall n :: n in m ==> m3[n] == SplicedCell(m, c, l, r, q, y, child, k, n)
  {
    var m1 := m + (NewParent(m, child, q.Parent(x)) + NewChild(m, q, child));
    var b := NewRoot(r, q, child);
    MapBehead(m, x, y, r, q, child);
    MapGraft(m1, c, y, l, b, Cell(c.Parent(null), l, b, k));
    var m3 := m1 + NewParent(m1, b, y) + NewParent(m1, l, y) + NewChild(m1, c, y)
              + map[y := Cell(c.Parent(null), l, b, k)];
    forall n | n in m
      ensures m3[n] == SplicedCell(m, c, l, r, q, y, child, k, n)
    {
      if n == y {
      } else if n == l {
      } else if c.Parent(null) == n {
      } else if q.Top? {
      }
    }
  }

  lemma MapBehead(m: Links, x: Node, y: Node, r: Node, q: Ctx, child: Node?)
    requires r in m && (q.Top? || (q.InLeft? && q.node in m)) && (child != null ==> child in m)
    requires child != null ==> child != r && child != q.Parent(null)
    ensures var m1 := m + (NewParent(m, child, q.Parent(x)) + NewChild(m, q, child));
      var m2 := m1 + NewParent(m1, NewRoot(r, q, child), y);
      && m1.Keys == m2.Keys == m.Keys
      && (forall n :: n in m && n !in {r, child, q.Parent(null)} ==> m1[n] == m[n])
      && forall n :: n in m ==>
           m2[n] == (if q.Top? then (if child == n then m[n].(parent := y) else m[n])
                     else if n == q.node then m[n].(left := child, parent := if n == r then y else m[n].parent)
                     else if n == r then m[n].(parent := y)
                     else if child == n then m[n].(parent := q.node)
                     else m[n])
  {}

  lemma MapGraft(m: Links, c: Ctx, y: Node, l: Node, b: Node?, cell: Cell)
    requires l in m && y in m && (b != null ==> b in m) && (!c.Top? ==> c.node in m)
    requires l !in {b, y, c.Parent(null)} && y != c.Parent(null) && (!c.Top? ==> c.node != b)
    ensures var m2 := m + NewParent(m, b, y);
      var m3 := m2 + NewParent(m, l, y) + NewChild(m, c, y) + map[y := cell];
      && m3.Keys == m.Keys
      && forall n :: n in m ==>
           m3[n] == (if n == y then cell
                     else if n == l then m[n].(parent := y)
                     else if c.Parent(null) == n then
                       if c.InLeft? then m[n].(left := y) else m[n].(right := y)
                     else m2[n])
  {}

  // m2 is m after y has taken the colour and the parent of x.
  ghost predicate Placed(m: Links, m2: Links, c: Ctx, x: Node, y: Node)
    requires x in m
  {
    m2.Keys == m.Keys
    && forall n :: n in m ==>
         m2[n] == (if n == y then m[n].(parent := c.Parent(null), color := m[x].color)
                   else if c.Parent(null) == n then
                     if c.InLeft? then m[n].(left := y) else m[n].(right := y)
                   else m[n])
  }

  // Both steps together are the splice.
  lemma AdoptedThenPlaced(m: Links, m1: Links, root: Node?, c: Ctx, t: Shape)
    requires Spells(m, root, Fill(c, t)) && t.Branch? && t.left.Branch? && t.right.Branch?
    requires var s := Least(t.right);
      && m1.Keys == m.Keys
      && forall n :: n in m ==>
           m1[n] == AdoptedCell(m, t.left.node, t.right.node, Spine(t.right, Top), s.node, s.right.Root(), n)
    ensures t.node in m && Spliceable(m, c, t)
    ensures Placed(m1, Spliced(m, c, t), c, t.node, Least(t.right).node)
    ensures m1[t.node] == m[t.node] && (!c.Top? ==> c.node in m && m1[c.node] == m[c.node])
  {
    SpliceView(m, root, c, t);
    SplicedCells(m, root, c, t);
    var s := Least(t.right);
    MapPlaced(m, m1, Spliced(m, c, t), c, t.node, t.left.node, t.right.node, Spine(t.right, Top), s.node,
              s.right.Root(), t.color);
  }

  lemma MapPlaced(m: Links, m1: Links, m2: Links, c: Ctx, x: Node, l: Node, r: Node, q: Ctx, y: Node,
                  child: Node?, k: Color)
    requires x in m && y in m && x !in {l, r, y, child, q.Parent(null)} && m[x].color == k
    requires y !in {l, child, q.Parent(null)} && (q.Top? <==> r == y)
    requires !c.Top? ==> c.node in m && c.node !in {x, l, r, y, child, q.Parent(null)}
    requires m1.Keys == m.Keys && m2.Keys == m.Keys
    requires forall n :: n in m ==> m1[n] == AdoptedCell(m, l, r, q, y, child, n)
    requires forall n :: n in m ==> m2[n] == SplicedCell(m, c, l, r, q, y, child, k, n)
    ensures m1[x] == m[x] && (!c.Top? ==> m1[c.node] == m[c.node]) && Placed(m1, m2, c, x, y)
  {}

  lemma LeastParent(m: Links, root: Node?, c: Ctx, t: Shape)
    requires Spells(m, root, Fill(c, t)) && t.Branch? && t.left.Branch? && t.right.Branch?
    ensures var s := Least(t.right); s.right.Branch? ==> s.right.node in m && m[s.right.node].parent == s.node
  {
    CutFill(m, root, c, t);
    var q, s := Spine(t.right, Top), Least(t.right);
    SpineFill(t.right, Top);
    FillHolds(m, q, s, t.node);
  }

  lemma LeadsToHole(m: Links, root: Node?, c: Ctx, t: Shape)
    requires Cut(m, root, c, t) && t.Branch?
    ensures LeadsTo(m, c, t.node)
  {}
}
