// The red-black argument itself: what each branch of the two fix-up loops does to the colours,
// the black heights and the order of the nodes.
module RbBalance {
  import opened RbShape
  import opened RbLinks

  // ---------- Insertion ----------

  // Everything is in order except that the red root of t may hang below a red node.
  ghost predicate RedAt(c: Ctx, t: Shape) {
    && t.Branch? && t.color == Red && t.NoRedRed() && t.Balanced()
    && c.Accepts(Black) && c.Balanced(t.Blacks())
  }

  // A red parent is never the root, and the grandparent is black.
  lemma FlipStep(c: Ctx, t: Shape)
    requires RedAt(c, t) && !c.Top? && c.color == Red
    ensures !c.up.Top? && c.up.color == Black
    ensures c.up.Side().Hue() == Red ==>
              var t2 := Flipped(c.up, c.Raise(t));
              && RedAt(c.up.up, t2) && Order(c.up.up, t2) == Order(c, t)
  {
    var u := c.up;
    assert u.Accepts(Red) && u.Balanced(t.Blacks());
    var v := u.up;
    assert v.Accepts(Black) && v.Balanced(t.Blacks() + 1);
    if u.Side().Hue() == Red {
      var t2 := Flipped(u, c.Raise(t));
      assert t2.Inorder() == u.Raise(c.Raise(t)).Inorder();
      RaiseOrder(c, t);
      RaiseOrder(u, c.Raise(t));
    }
  }

  lemma RaiseOrder(c: Ctx, t: Shape)
    requires !c.Top?
    ensures Order(c.up, c.Raise(t)) == Order(c, t)
    ensures c.up.Nodes() + c.Raise(t).Nodes() == c.Nodes() + t.Nodes()
  {
    if c.InLeft? {
      Concat4(c.up.Before(), t.Inorder(), [c.node], c.right.Inorder(), c.up.After());
    } else {
      Concat4(c.up.Before(), c.left.Inorder(), [c.node], t.Inorder(), c.up.After());
    }
  }

  // The first rotation moves an inner grandchild to the outside.
  lemma InnerStep(c: Ctx, t: Shape)
    requires RedAt(c, t) && !c.Top? && c.color == Red
    ensures c.InRight? ==>
              var c2, t2 := InLeft(c.up, t.node, Red, t.right), Branch(c.left, c.node, Red, t.left);
              && RedAt(c2, t2) && Order(c2, t2) == Order(c, t)
              && c2.Raise(t2) == LeftRotated(c.Raise(t))
    ensures c.InLeft? ==>
              var c2, t2 := InRight(c.up, t.left, t.node, Red), Branch(t.right, c.node, Red, c.right);
              && RedAt(c2, t2) && Order(c2, t2) == Order(c, t)
              && c2.Raise(t2) == RightRotated(c.Raise(t))
  {
    var u := c.up;
    assert u.Accepts(Red) && u.Balanced(t.Blacks());
    RaiseOrder(c, t);
    if c.InRight? {
      var c2, t2 := InLeft(u, t.node, Red, t.right), Branch(c.left, c.node, Red, t.left);
      RaiseOrder(c2, t2);
      LeftRotatedOrder(c.Raise(t));
    } else {
      var c2, t2 := InRight(u, t.left, t.node, Red), Branch(t.right, c.node, Red, c.right);
      RaiseOrder(c2, t2);
      RightRotatedOrder(c.Raise(t));
    }
  }

  // The second rotation ends the search: the place of the grandparent is black again.
  lemma OuterStep(c: Ctx, t: Shape)
    requires RedAt(c, t) && !c.Top? && c.color == Red && !c.up.Top? && c.up.Side().Hue() == Black
    ensures c.InLeft? && c.up.InLeft? ==>
              var g := c.up;
              var c2 := InLeft(g.up, c.node, Black, Branch(c.right, g.node, Red, g.right));
              && RedAt(c2, t) && Order(c2, t) == Order(c, t)
              && c2.Raise(t) == RightRotated(g.Paint(Red).Raise(c.Paint(Black).Raise(t)))
    ensures c.InRight? && c.up.InRight? ==>
              var g := c.up;
              var c2 := InRight(g.up, Branch(g.left, g.node, Red, c.left), c.node, Black);
              && RedAt(c2, t) && Order(c2, t) == Order(c, t)
              && c2.Raise(t) == LeftRotated(g.Paint(Red).Raise(c.Paint(Black).Raise(t)))
  {
    var g := c.up;
    var v := g.up;
    assert g.Accepts(Red) && g.Balanced(t.Blacks()) && v.Accepts(Black) && v.Balanced(t.Blacks() + 1);
    RaiseOrder(c, t);
    RaiseOrder(g, c.Raise(t));
    if c.InLeft? && g.InLeft? {
      RaiseOrder(InLeft(v, c.node, Black, Branch(c.right, g.node, Red, g.right)), t);
      RightRotatedOrder(g.Paint(Red).Raise(c.Paint(Black).Raise(t)));
    } else if c.InRight? && g.InRight? {
      RaiseOrder(InRight(v, Branch(g.left, g.node, Red, c.left), c.node, Black), t);
      LeftRotatedOrder(g.Paint(Red).Raise(c.Paint(Black).Raise(t)));
    }
  }

  lemma Concat5<T>(a: seq<T>, b: seq<T>, c: seq<T>, d: seq<T>, e: seq<T>)
    ensures a + b + (c + d + e) == (a + b + c) + d + e
  {}

  lemma LeftRotatedOrder(t: Shape)
    requires t.Branch? && t.right.Branch?
    ensures LeftRotated(t).Inorder() == t.Inorder()
  {
    Concat5(t.left.Inorder(), [t.node], t.right.left.Inorder(), [t.right.node], t.right.right.Inorder());
  }

  lemma RightRotatedOrder(t: Shape)
    requires t.Branch? && t.left.Branch?
    ensures RightRotated(t).Inorder() == t.Inorder()
  {
    Concat5(t.left.left.Inorder(), [t.left.node], t.left.right.Inorder(), [t.node], t.right.Inorder());
  }

  // The loop of ogs_rbtree_insert_color has ended: blackening the root repairs what is left.
  lemma InsertDone(c: Ctx, t: Shape)
    requires RedAt(c, t) && (c.Top? || c.color == Black)
    ensures Blackened(Fill(c, t)).RedBlack() && Blackened(Fill(c, t)).Inorder() == Order(c, t)
  {
    FillRedBlack(c, t);
    FillOrder(c, t);
  }

  // ---------- Deletion ----------

  ghost function Blackened(t: Shape): Shape {
    if t.Leaf? then Leaf else t.(color := Black)
  }

  // Paths through t are one black node short, which a red root of t can still make good.
  ghost predicate Deficit(c: Ctx, t: Shape) {
    && Blackened(t).NoRedRed() && t.Balanced()
    && c.Accepts(Black) && c.Balanced(t.Blacks() + 1)
  }

  // The shortage means that a sibling exists.
  lemma DeficitSibling(c: Ctx, t: Shape)
    requires Deficit(c, t) && !c.Top?
    ensures c.Side().Branch? && c.Side().NoRedRed() && c.Side().Balanced()
    ensures c.Side().color == Red ==>
              c.color == Black && c.Side().left.Branch? && c.Side().right.Branch?
  {}

  // Case 1: a red sibling goes above the parent, and a black nephew becomes the sibling.
  ghost function RedSibling(c: Ctx): Ctx
    requires !c.Top? && c.Side().Branch?
  {
    var s := c.Side();
    if c.InLeft? then InLeft(InLeft(c.up, s.node, Black, s.right), c.node, Red, s.left)
    else InRight(InRight(c.up, s.left, s.node, Black), s.right, c.node, Red)
  }

  lemma RedSiblingStep(c: Ctx, t: Shape)
    requires Deficit(c, t) && !c.Top? && t.Hue() == Black && c.Side().Hue() == Red
    ensures c.Side().Branch? && Deficit(RedSibling(c), t) && RedSibling(c).Side().Hue() == Black
    ensures Order(RedSibling(c), t) == Order(c, t)
  {
    DeficitSibling(c, t);
    var c2, s, u := RedSibling(c), c.Side(), c.up;
    assert u.Accepts(Black) && u.Balanced(t.Blacks() + 2);
    RedSiblingOrder(c, t);
  }

  lemma RedSiblingOrder(c: Ctx, t: Shape)
    requires !c.Top? && c.Side().Branch?
    ensures Order(RedSibling(c), t) == Order(c, t)
  {
    var c2 := RedSibling(c);
    RaiseOrder(c, t);
    RaiseOrder(c2, t);
    RaiseOrder(c2.up, c2.Raise(t));
    if c.InLeft? {
      LeftRotatedOrder(c.Raise(t));
      assert c2.up.Raise(c2.Raise(t)).Inorder() == LeftRotated(c.Raise(t)).Inorder();
    } else {
      RightRotatedOrder(c.Raise(t));
      assert c2.up.Raise(c2.Raise(t)).Inorder() == RightRotated(c.Raise(t)).Inorder();
    }
  }

  // Case 2: the sibling turns red and the shortage moves up to the parent.
  ghost function Paled(c: Ctx, t: Shape): Shape
    requires !c.Top? && c.Side().Branch?
  {
    var s := c.Side().(color := Red);
    if c.InLeft? then Branch(t, c.node, c.color, s) else Branch(s, c.node, c.color, t)
  }

  lemma PaleStep(c: Ctx, t: Shape)
    requires Deficit(c, t) && !c.Top? && t.Hue() == Black && c.Side().Hue() == Black
    requires c.Side().Branch? && c.Side().left.Hue() == Black && c.Side().right.Hue() == Black
    ensures Deficit(c.up, Paled(c, t)) && Order(c.up, Paled(c, t)) == Order(c, t)
  {
    var u := c.up;
    assert u.Accepts(c.color) && u.Balanced(t.Blacks() + 1 + Bit(c.color));
    AcceptsBlack(u, c.color);
    RaiseOrder(c, t);
    assert Paled(c, t).Inorder() == c.Raise(t).Inorder();
  }

  // Case 3: a red near nephew is rotated above the sibling.
  ghost function NearNephew(c: Ctx): Ctx
    requires !c.Top? && c.Side().Branch?
    requires if c.InLeft? then c.Side().left.Branch? else c.Side().right.Branch?
  {
    var s := c.Side();
    if c.InLeft? then
      InLeft(c.up, c.node, c.color,
             Branch(s.left.left, s.left.node, Black, Branch(s.left.right, s.node, Red, s.right)))
    else
      InRight(c.up, Branch(Branch(s.left, s.node, Red, s.right.left), s.right.node, Black, s.right.right),
              c.node, c.color)
  }

  // The child of the sibling that is farther from the hole.
  ghost function Far(c: Ctx): Shape
    requires !c.Top? && c.Side().Branch?
  {
    if c.InLeft? then c.Side().right else c.Side().left
  }

  ghost function Near(c: Ctx): Shape
    requires !c.Top? && c.Side().Branch?
  {
    if c.InLeft? then c.Side().left else c.Side().right
  }

  lemma NearNephewStep(c: Ctx, t: Shape)
    requires Deficit(c, t) && !c.Top? && t.Hue() == Black && c.Side().Branch? && c.Side().color == Black
    requires Far(c).Hue() == Black && Near(c).Hue() == Red
    ensures Near(c).Branch?
    ensures var c2 := NearNephew(c);
      && Deficit(c2, t) && Order(c2, t) == Order(c, t)
      && c2.Side().Branch? && c2.Side().color == Black && Far(c2).Hue() == Red
  {
    var s := c.Side();
    assert s.NoRedRed() && s.Balanced();
    if c.InLeft? { NephewLeft(s); } else { NephewRight(s); }
    NearNephewOrder(c, t);
  }

  // The sibling's side after the rotation is as good as before.
  lemma NephewLeft(s: Shape)
    requires s.Branch? && s.NoRedRed() && s.Balanced() && s.color == Black && s.left.Hue() == Red && s.right.Hue() == Black
    ensures s.left.Branch?
    ensures var r := Branch(s.left.left, s.left.node, Black, Branch(s.left.right, s.node, Red, s.right));
      r.NoRedRed() && r.Balanced() && r.Blacks() == s.Blacks()
  {
    var n := s.left;
    assert n.NoRedRed() && n.Balanced() && n.left.Balanced() && n.right.Balanced();
    var f := Branch(n.right, s.node, Red, s.right);
    assert f.NoRedRed() && f.Balanced() && f.Blacks() == n.left.Blacks();
  }

  lemma NephewRight(s: Shape)
    requires s.Branch? && s.NoRedRed() && s.Balanced() && s.color == Black && s.right.Hue() == Red && s.left.Hue() == Black
    ensures s.right.Branch?
    ensures var r := Branch(Branch(s.left, s.node, Red, s.right.left), s.right.node, Black, s.right.right);
      r.NoRedRed() && r.Balanced() && r.Blacks() == s.Blacks()
  {
    var n := s.right;
    assert n.NoRedRed() && n.Balanced() && n.left.Balanced() && n.right.Balanced();
    var f := Branch(s.left, s.node, Red, n.left);
    assert f.NoRedRed() && f.Balanced() && f.Blacks() == n.right.Blacks();
  }

  lemma NearNephewOrder(c: Ctx, t: Shape)
    requires !c.Top? && c.Side().Branch? && Near(c).Branch?
    ensures Order(NearNephew(c), t) == Order(c, t)
  {
    if c.InLeft? { RightRotatedOrder(c.right); } else { LeftRotatedOrder(c.left); }
    assert NearNephew(c).Side().Inorder() == c.Side().Inorder();
  }

  // Case 4: the far nephew pays for the missing black node, and the whole tree is red-black.
  ghost function Repaid(c: Ctx, t: Shape): Shape
    requires !c.Top? && c.Side().Branch? && Far(c).Branch?
  {
    var s := c.Side();
    if c.InLeft? then
      Branch(Branch(t, c.node, Black, s.left), s.node, c.color, s.right.(color := Black))
    else
      Branch(s.left.(color := Black), s.node, c.color, Branch(s.right, c.node, Black, t))
  }

  lemma RepayStep(c: Ctx, t: Shape)
    requires Deficit(c, t) && !c.Top? && t.Hue() == Black && c.Side().Branch? && c.Side().color == Black
    requires Far(c).Hue() == Red
    ensures Far(c).Branch?
    ensures Fill(c.up, Repaid(c, t)).RedBlack()
    ensures Order(c.up, Repaid(c, t)) == Order(c, t)
  {
    var u, r := c.up, Repaid(c, t);
    assert u.Accepts(c.color) && u.Balanced(t.Blacks() + 1 + Bit(c.color));
    var s, f, n := c.Side(), Far(c), Near(c);
    assert s.NoRedRed() && s.Balanced() && Blackened(t) == t;
    assert f.NoRedRed() && f.Balanced() && n.NoRedRed() && n.Balanced();
    assert Branch(t, c.node, Black, n).NoRedRed() && Branch(n, c.node, Black, t).NoRedRed();
    assert f.(color := Black).NoRedRed() && f.left.Balanced() && f.right.Balanced();
    assert f.Blacks() == n.Blacks() == t.Blacks() && f.left.Blacks() == f.right.Blacks() == t.Blacks();
    assert f.(color := Black).Balanced() && f.(color := Black).Blacks() == t.Blacks() + 1;
    assert Branch(t, c.node, Black, n).Blacks() == Branch(n, c.node, Black, t).Blacks() == t.Blacks() + 1;
    var g, b := f.(color := Black), c.color;
    if c.InLeft? {
      assert r == Branch(Branch(t, c.node, Black, n), s.node, b, g);
    } else {
      assert r == Branch(g, s.node, b, Branch(n, c.node, Black, t));
    }
    assert r.left.Blacks() == t.Blacks() + 1 && r.Blacks() == r.left.Blacks() + Bit(b);
    assert r.NoRedRed() && r.Balanced() && r.Blacks() == t.Blacks() + 1 + Bit(c.color);
    FillRedBlack(u, r);
    RaiseOrder(c, t);
    if c.InLeft? { LeftRotatedOrder(c.Raise(t)); } else { RightRotatedOrder(c.Raise(t)); }
    assert r.Inorder() == (if c.InLeft? then LeftRotated(c.Raise(t)) else RightRotated(c.Raise(t))).Inorder();
  }

  lemma DeficitDone(c: Ctx, t: Shape)
    requires Deficit(c, t) && (c.Top? || t.Hue() == Red)
    ensures Fill(c, Blackened(t)).RedBlack() && Order(c, Blackened(t)) == Order(c, t)
  {
    FillRedBlack(c, Blackened(t));
  }

  // A finished tree owes nothing.
  lemma RedBlackDone(t: Shape)
    requires t.RedBlack()
    ensures Deficit(Top, t) && Order(Top, t) == t.Inorder()
  {}

  // ---------- What taking a node out leaves to be repaired ----------

  // A sequence without the one place where x stands.
  ghost function Without<T>(s: seq<T>, x: T): seq<T> {
    if s == [] then [] else if s[0] == x then s[1..] else [s[0]] + Without(s[1..], x)
  }

  lemma {:induction false} WithoutMiddle<T>(a: seq<T>, x: T, b: seq<T>)
    requires x !in a
    ensures Without(a + [x] + b, x) == a + b
    decreases a
  {
    var s := a + [x] + b;
    if a == [] {
      assert s[1..] == b;
    } else {
      assert s[1..] == a[1..] + [x] + b;
      WithoutMiddle(a[1..], x, b);
    }
  }

  lemma {:induction false} WithoutMember<T>(s: seq<T>, x: T, y: T)
    requires forall i, j :: 0 <= i < j < |s| ==> s[i] != s[j]
    ensures y in Without(s, x) <==> y in s && y != x
    decreases s
  {
    if s == [] {
    } else {
      assert s == [s[0]] + s[1..];
      assert forall i :: 0 <= i < |s[1..]| ==> s[1..][i] != s[0];
      if s[0] != x { WithoutMember(s[1..], x, y); }
    }
  }

  // The colours of a context do not depend on which node stands where.
  lemma {:induction false} Recast(a: Ctx, c: Ctx, l: Shape, x: Node, y: Node, k: Color, h: nat, hue: Color)
    ensures Append(a, InRight(c, l, x, k)).Balanced(h) == Append(a, InRight(c, l, y, k)).Balanced(h)
    ensures Append(a, InRight(c, l, x, k)).Accepts(hue) == Append(a, InRight(c, l, y, k)).Accepts(hue)
    decreases a
  {
    if a.Top? {
    } else {
      Recast(a.up, c, l, x, y, k, h + Bit(a.color), a.color);
    }
  }

  lemma BypassBalance(c: Ctx, t: Shape)
    requires Fill(c, t).RedBlack() && t.Branch? && (t.left.Leaf? || t.right.Leaf?)
    ensures t.color == Black ==> Deficit(c, OnlyChild(t))
    ensures t.color == Red ==> c.Accepts(OnlyChild(t).Hue()) && c.Balanced(OnlyChild(t).Blacks())
                               && OnlyChild(t).NoRedRed() && OnlyChild(t).Balanced()
  {
    FillRedBlack(c, t);
    AcceptsBlack(c, t.color);
  }

  // The context of the hole that the leftmost node of the right subtree leaves behind.
  ghost function HoleBelow(c: Ctx, t: Shape): Ctx
    requires t.Branch? && t.left.Branch? && t.right.Branch?
  {
    Append(Spine(t.right, Top), InRight(c, t.left, Least(t.right).node, t.color))
  }

  lemma SpliceBalance(c: Ctx, t: Shape)
    requires Fill(c, t).RedBlack() && t.Branch? && t.left.Branch? && t.right.Branch?
    ensures var c2, s := HoleBelow(c, t), Least(t.right).right;
      && Fill(c2, s) == Fill(c, Successor(t))
      && (Least(t.right).color == Black ==> Deficit(c2, s))
      && (Least(t.right).color == Red ==> Fill(c2, s).RedBlack())
  {
    var a, s, y := Spine(t.right, Top), Least(t.right), Least(t.right).node;
    SpineFill(t.right, Top);
    var c1, c2 := InRight(c, t.left, t.node, t.color), InRight(c, t.left, y, t.color);
    FillAppend(a, c1, s);
    FillAppend(a, c2, s.right);
    BypassBalance(Append(a, c1), s);
    Recast(a, c, t.left, t.node, y, t.color, s.right.Blacks() + 1, Black);
    Recast(a, c, t.left, t.node, y, t.color, s.right.Blacks(), s.right.Hue());
    FillRedBlack(Append(a, c2), s.right);
  }

  lemma BypassOrder(c: Ctx, t: Shape)
    requires Fill(c, t).Distinct() && t.Branch? && (t.left.Leaf? || t.right.Leaf?)
    ensures Order(c, OnlyChild(t)) == Without(Fill(c, t).Inorder(), t.node)
  {
    FillOrder(c, t);
    FillDistinct(c, t);
    BeforeNodes(c);
    InorderNodes(t.left);
    WithoutAround(c.Before(), t.left.Inorder(), t.node, t.right.Inorder(), c.After());
    NoneBeside(c.Before(), t.left.Inorder(), t.right.Inorder(), c.After());
  }

  lemma WithoutAround<T>(a: seq<T>, l: seq<T>, x: T, r: seq<T>, b: seq<T>)
    requires x !in a && x !in l
    ensures Without(a + (l + [x] + r) + b, x) == a + l + (r + b)
  {
    WithoutMiddle(a + l, x, r + b);
    assert a + (l + [x] + r) + b == (a + l) + [x] + (r + b);
  }

  lemma NoneBeside<T>(a: seq<T>, l: seq<T>, r: seq<T>, b: seq<T>)
    ensures l == [] ==> a + l + (r + b) == a + r + b
    ensures r == [] ==> a + l + (r + b) == a + l + b
    ensures a + l + (r + b) == a + (l + r) + b
  {}

  lemma {:induction false} BeforeNodes(c: Ctx)
    ensures (set x | x in c.Before()) <= c.Nodes()
    decreases c
  {
    if !c.Top? {
      BeforeNodes(c.up);
      InorderNodes(c.Side());
    }
  }

  lemma {:induction false} SpineOrder(t: Shape, up: Ctx)
    requires t.Branch?
    ensures Spine(t, up).Before() == up.Before()
    decreases t
  {
    if t.left.Leaf? {
    } else {
      SpineOrder(t.left, InLeft(up, t.node, t.color, t.right));
    }
  }

  lemma SpliceOrder(c: Ctx, t: Shape)
    requires Fill(c, t).Distinct() && t.Branch? && t.left.Branch? && t.right.Branch?
    ensures Order(c, Successor(t)) == Without(Fill(c, t).Inorder(), t.node)
  {
    FillOrder(c, t);
    FillDistinct(c, t);
    BeforeNodes(c);
    InorderNodes(t.left);
    BeheadOrder(t.right);
    WithoutAround(c.Before(), t.left.Inorder(), t.node, t.right.Inorder(), c.After());
    HeadConcat(c.Before(), t.left.Inorder(), Least(t.right).node, Beheaded(t.right).Inorder(), c.After());
  }

  lemma HeadConcat<T>(a: seq<T>, l: seq<T>, y: T, h: seq<T>, b: seq<T>)
    ensures a + (l + [y] + h) + b == a + l + ([y] + h + b)
    ensures a == [] && l == [] ==> a + (l + [y] + h) + b == [y] + (a + h + b)
  {}

  lemma BeheadOrder(r: Shape)
    requires r.Branch?
    ensures r.Inorder() == [Least(r).node] + Beheaded(r).Inorder()
  {
    SpineFill(r, Top);
    SpineOrder(r, Top);
    FillOrder(Spine(r, Top), Least(r));
    FillOrder(Spine(r, Top), Least(r).right);
    var s := Least(r);
    HeadConcat(Spine(r, Top).Before(), s.left.Inorder(), s.node, s.right.Inorder(), Spine(r, Top).After());
  }

  // What the hole looks like to rb_delete_color after the splice.
  lemma HoleBelowView(c: Ctx, t: Shape)
    requires t.Branch? && t.left.Branch? && t.right.Branch?
    ensures var c2, q := HoleBelow(c, t), Spine(t.right, Top);
      !c2.Top? && c2.node == (if q.Top? then Least(t.right).node else q.node)
    ensures Fill(HoleBelow(c, t), Least(t.right).right) == Fill(c, Successor(t))
  {
    FillAppend(Spine(t.right, Top), InRight(c, t.left, Least(t.right).node, t.color), Least(t.right).right);
  }
}
