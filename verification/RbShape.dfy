// The values behind the intrusive red-black tree of lib/core/ogs-rbtree.c: the tree a set of
// linked nodes represents, the context that is left when a subtree is cut out, and the
// red-black laws on both.  The pointer code is in RbTree.dfy.
module RbShape {
  import opened Prelude

  datatype Color = Black | Red

  // ogs_rbnode_t.  `entry` stands for ogs_rb_entry: it names the record that embeds the node.
  class Node {
    const entry: nat
    var parent: Node?
    var left: Node?
    var right: Node?
    var color: Color

    constructor (entry: nat)
      ensures this.entry == entry
    {
      this.entry := entry;
      parent, left, right, color := null, null, null, Black;
    }
  }

  // What the four fields of a node hold.
  datatype Cell = Cell(parent: Node?, left: Node?, right: Node?, color: Color)
  type Links = map<Node, Cell>

  function Bit(c: Color): nat { if c == Black then 1 else 0 }

  datatype Shape = Leaf | Branch(left: Shape, node: Node, color: Color, right: Shape) {
    ghost function Root(): Node? {
      if Leaf? then null else node
    }

    ghost function Nodes(): set<Node> {
      if Leaf? then {} else left.Nodes() + {node} + right.Nodes()
    }

    ghost function Inorder(): seq<Node> {
      if Leaf? then [] else left.Inorder() + [node] + right.Inorder()
    }

    ghost function Height(): nat {
      if Leaf? then 0
      else 1 + if left.Height() < right.Height() then right.Height() else left.Height()
    }

    // The root colour as rb_is_black sees it: a missing node is black.
    ghost function Hue(): Color {
      if Leaf? then Black else color
    }

    // Black nodes on the leftmost path; on every path when Balanced() holds.
    ghost function Blacks(): nat {
      if Leaf? then 0 else left.Blacks() + Bit(color)
    }

    ghost predicate Balanced() {
      Branch? ==> left.Balanced() && right.Balanced() && left.Blacks() == right.Blacks()
    }

    ghost predicate NoRedRed() {
      Branch? ==>
        && (color == Red ==> left.Hue() == Black && right.Hue() == Black)
        && left.NoRedRed() && right.NoRedRed()
    }

    ghost predicate RedBlack() {
      Hue() == Black && NoRedRed() && Balanced()
    }

    ghost predicate Distinct() {
      Branch? ==>
        && node !in left.Nodes() && node !in right.Nodes() && left.Nodes() !! right.Nodes()
        && left.Distinct() && right.Distinct()
    }

    // The links m of these nodes spell out exactly this tree, hung below p.
    ghost predicate Holds(m: Links, p: Node?) {
      Branch? ==>
        && node in m && m[node] == Cell(p, left.Root(), right.Root(), color)
        && left.Holds(m, node) && right.Holds(m, node)
    }
  }

  // A tree with one subtree cut out, from the cut upwards.
  datatype Ctx =
    | Top
    | InLeft(up: Ctx, node: Node, color: Color, right: Shape)
    | InRight(up: Ctx, left: Shape, node: Node, color: Color)
  {
    ghost function Parent(p: Node?): Node? {
      if Top? then p else node
    }

    ghost function Depth(): nat {
      if Top? then 0 else 1 + up.Depth()
    }

    ghost function Side(): Shape
      requires !Top?
    {
      if InLeft? then right else left
    }

    ghost function Paint(k: Color): Ctx {
      match this
      case Top => Top
      case InLeft(u, n, _, r) => InLeft(u, n, k, r)
      case InRight(u, l, n, _) => InRight(u, l, n, k)
    }

    // The tree one level above the hole, once t fills the hole.
    ghost function Raise(t: Shape): Shape
      requires !Top?
    {
      if InLeft? then Branch(t, node, color, right) else Branch(left, node, color, t)
    }

    // The context of the hole's sibling, once t fills the hole.
    ghost function Across(t: Shape): Ctx
      requires !Top?
    {
      if InLeft? then InRight(up, t, node, color) else InLeft(up, node, color, t)
    }

    ghost function Nodes(): set<Node> {
      if Top? then {} else up.Nodes() + {node} + Side().Nodes()
    }

    ghost function Before(): seq<Node> {
      match this
      case Top => []
      case InLeft(u, _, _, _) => u.Before()
      case InRight(u, l, n, _) => u.Before() + l.Inorder() + [n]
    }

    ghost function After(): seq<Node> {
      match this
      case Top => []
      case InLeft(u, n, _, r) => [n] + r.Inorder() + u.After()
      case InRight(u, _, _, _) => u.After()
    }

    ghost predicate Distinct() {
      !Top? ==>
        && node !in Side().Nodes() && node !in up.Nodes() && Side().Nodes() !! up.Nodes()
        && Side().Distinct() && up.Distinct()
    }

    // The links m around the cut: the subtree in the hole is rooted at `hole`, the whole is
    // rooted at `root`, and root hangs below p.
    ghost predicate Holds(m: Links, hole: Node?, root: Node?, p: Node?) {
      if Top? then hole == root
      else
        && node in m
        && m[node] == (if InLeft? then Cell(up.Parent(p), hole, right.Root(), color)
                       else Cell(up.Parent(p), left.Root(), hole, color))
        && Side().Holds(m, node) && up.Holds(m, node, root, p)
    }

    // A subtree of black height h keeps every path in balance.
    ghost predicate Balanced(h: nat) {
      !Top? ==> Side().Balanced() && Side().Blacks() == h && up.Balanced(h + Bit(color))
    }

    // A subtree with root colour c breaks neither the red rule nor the black root.
    ghost predicate Accepts(c: Color) {
      if Top? then c == Black
      else
        && (color == Red ==> c == Black && Side().Hue() == Black)
        && Side().NoRedRed() && up.Accepts(color)
    }
  }

  ghost function Fill(c: Ctx, t: Shape): Shape {
    match c
    case Top => t
    case InLeft(u, n, k, r) => Fill(u, Branch(t, n, k, r))
    case InRight(u, l, n, k) => Fill(u, Branch(l, n, k, t))
  }

  // The nodes of the filled tree from left to right, as FillOrder shows.
  ghost function Order(c: Ctx, t: Shape): seq<Node> {
    c.Before() + t.Inorder() + c.After()
  }

  // The context `inner` inside the context `outer`.
  ghost function Append(inner: Ctx, outer: Ctx): Ctx {
    match inner
    case Top => outer
    case InLeft(u, n, k, r) => InLeft(Append(u, outer), n, k, r)
    case InRight(u, l, n, k) => InRight(Append(u, outer), l, n, k)
  }

  // ---------- What filling a hole does ----------

  lemma Concat4<T>(a: seq<T>, b: seq<T>, c: seq<T>, d: seq<T>, e: seq<T>)
    ensures a + (b + c + d) + e == a + b + (c + d + e) == a + b + c + d + e
  {}

  lemma {:induction false} FillOrder(c: Ctx, t: Shape)
    ensures Fill(c, t).Inorder() == Order(c, t)
    decreases c
  {
    match c
    case Top =>
    case InLeft(u, n, k, r) =>
      FillOrder(u, Branch(t, n, k, r));
      Concat4(u.Before(), t.Inorder(), [n], r.Inorder(), u.After());
    case InRight(u, l, n, k) =>
      FillOrder(u, Branch(l, n, k, t));
      Concat4(u.Before(), l.Inorder(), [n], t.Inorder(), u.After());
  }

  lemma {:induction false} FillNodes(c: Ctx, t: Shape)
    ensures Fill(c, t).Nodes() == c.Nodes() + t.Nodes()
    decreases c
  {
    match c
    case Top =>
    case InLeft(u, n, k, r) => FillNodes(u, Branch(t, n, k, r));
    case InRight(u, l, n, k) => FillNodes(u, Branch(l, n, k, t));
  }

  lemma {:induction false} FillDistinct(c: Ctx, t: Shape)
    ensures Fill(c, t).Distinct() <==> c.Distinct() && t.Distinct() && c.Nodes() !! t.Nodes()
    decreases c
  {
    match c
    case Top =>
    case InLeft(u, n, k, r) => FillDistinct(u, Branch(t, n, k, r));
    case InRight(u, l, n, k) => FillDistinct(u, Branch(l, n, k, t));
  }

  lemma {:induction false} FillHolds(m: Links, c: Ctx, t: Shape, p: Node?)
    ensures Fill(c, t).Holds(m, p) <==>
            t.Holds(m, c.Parent(p)) && c.Holds(m, t.Root(), Fill(c, t).Root(), p)
    decreases c
  {
    match c
    case Top =>
    case InLeft(u, n, k, r) => FillHolds(m, u, Branch(t, n, k, r), p);
    case InRight(u, l, n, k) => FillHolds(m, u, Branch(l, n, k, t), p);
  }

  // The root of the filled tree: the hole's own root at the top, a context node otherwise.
  lemma {:induction false} HoldsRoot(m: Links, c: Ctx, t: Shape, root: Node?, p: Node?)
    requires c.Holds(m, t.Root(), root, p)
    ensures Fill(c, t).Root() == root
    ensures !c.Top? ==> root in c.Nodes()
    decreases c
  {
    match c
    case Top =>
    case InLeft(u, n, k, r) => HoldsRoot(m, u, Branch(t, n, k, r), root, p);
    case InRight(u, l, n, k) => HoldsRoot(m, u, Branch(l, n, k, t), root, p);
  }

  // A hole of the right black height and colour is exactly what makes the whole red-black.
  lemma {:induction false} FillRedBlack(c: Ctx, t: Shape)
    ensures Fill(c, t).RedBlack() <==>
            t.NoRedRed() && t.Balanced() && c.Accepts(t.Hue()) && c.Balanced(t.Blacks())
    decreases c
  {
    match c
    case Top =>
    case InLeft(u, n, k, r) => FillRedBlack(u, Branch(t, n, k, r));
    case InRight(u, l, n, k) => FillRedBlack(u, Branch(l, n, k, t));
  }

  lemma AcceptsBlack(c: Ctx, k: Color)
    requires c.Accepts(k)
    ensures c.Accepts(Black)
  {}

  lemma {:induction false} FillAppend(a: Ctx, b: Ctx, t: Shape)
    ensures Fill(Append(a, b), t) == Fill(b, Fill(a, t))
    ensures forall p :: Append(a, b).Parent(p) == a.Parent(b.Parent(p))
    decreases a
  {
    match a
    case Top =>
    case InLeft(u, n, k, r) => FillAppend(u, b, Branch(t, n, k, r));
    case InRight(u, l, n, k) => FillAppend(u, b, Branch(l, n, k, t));
  }

  // ---------- Finding nodes ----------

  // The context that cuts t out around node x.
  lemma {:induction false} Locate(t: Shape, x: Node) returns (c: Ctx, s: Shape)
    requires x in t.Nodes()
    ensures s.Branch? && s.node == x && Fill(c, s) == t
    decreases t
  {
    if x == t.node {
      return Top, t;
    } else if x in t.left.Nodes() {
      c, s := Locate(t.left, x);
      FillAppend(c, InLeft(Top, t.node, t.color, t.right), s);
      c := Append(c, InLeft(Top, t.node, t.color, t.right));
    } else {
      c, s := Locate(t.right, x);
      FillAppend(c, InRight(Top, t.left, t.node, t.color), s);
      c := Append(c, InRight(Top, t.left, t.node, t.color));
    }
  }

  lemma {:induction false} InorderNodes(t: Shape)
    ensures t.Nodes() == set x | x in t.Inorder()
    decreases t
  {
    if t.Leaf? {
    } else {
      InorderNodes(t.left);
      InorderNodes(t.right);
    }
  }

  lemma SameNodes(s: Shape, t: Shape)
    requires s.Inorder() == t.Inorder()
    ensures s.Nodes() == t.Nodes()
  {
    InorderNodes(s);
    InorderNodes(t);
  }

  lemma {:induction false} InorderInjective(t: Shape, i: nat, j: nat)
    requires t.Distinct() && i < |t.Inorder()| && j < |t.Inorder()|
    ensures t.Inorder()[i] == t.Inorder()[j] ==> i == j
    decreases t
  {
    if t.Branch? {
      InorderNodes(t.left);
      InorderNodes(t.right);
      var l, r := t.left.Inorder(), t.right.Inorder();
      var k := |l|;
      forall m | 0 <= m < |t.Inorder()| && m != k
        ensures if m < k then t.Inorder()[m] in t.left.Nodes() else t.Inorder()[m] in t.right.Nodes()
      {
        if m < k { assert t.Inorder()[m] == l[m] && l[m] in l; }
        else { assert t.Inorder()[m] == r[m - k - 1] && r[m - k - 1] in r; }
      }
      if i < k && j < k {
        InorderInjective(t.left, i, j);
      } else if i > k && j > k {
        InorderInjective(t.right, i - k - 1, j - k - 1);
      }
    }
  }

  // ---------- Height ----------

  lemma {:induction false} PowerSum(a: nat, b: nat)
    ensures Pow2(a + b) == Pow2(a) * Pow2(b)
    decreases a
  {
    if a == 0 {
    } else {
      PowerSum(a - 1, b);
    }
  }

  lemma {:induction false} PowerMonotone(a: nat, b: nat)
    requires a <= b
    ensures Pow2(a) <= Pow2(b)
    decreases b
  {
    if a == b {
    } else {
      PowerMonotone(a, b - 1);
    }
  }

  lemma SquareMonotone(a: nat, b: nat)
    requires a <= b
    ensures a * a <= b * b
  {
    assert a * a <= a * b;
    assert a * b <= b * b;
  }

  // At most every second node of a path is red, and black nodes multiply.
  lemma {:induction false} BlacksBound(t: Shape)
    requires t.NoRedRed() && t.Balanced()
    ensures t.Height() <= 2 * t.Blacks() + (if t.Hue() == Red then 1 else 0)
    ensures Pow2(t.Blacks()) <= |t.Inorder()| + 1
    decreases t
  {
    if t.Leaf? {
    } else {
      BlacksBound(t.left);
      BlacksBound(t.right);
    }
  }

  // height <= 2 * log2(n + 1), with both sides put under 2^x.
  lemma {:induction false} HeightBound(t: Shape)
    requires t.RedBlack()
    ensures Pow2(t.Height()) <= (|t.Inorder()| + 1) * (|t.Inorder()| + 1)
  {
    BlacksBound(t);
    PowerMonotone(t.Height(), t.Blacks() + t.Blacks());
    PowerSum(t.Blacks(), t.Blacks());
    SquareMonotone(Pow2(t.Blacks()), |t.Inorder()| + 1);
  }
}
