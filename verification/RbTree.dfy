// lib/core/ogs-rbtree.c and ogs-rbtree.h: rotations, recolouring after an insertion, deletion
// with its fix-up, and the walks, all on linked nodes updated in place.
module RbTree {
  import opened RbShape
  import opened RbLinks
  import opened RbBalance

  // The red leaf just linked is where the loop of ogs_rbtree_insert_color begins.
  lemma LeafAt(c: Ctx, x: Node)
    requires c.Accepts(Black) && c.Balanced(0)
    ensures RedAt(c, Branch(Leaf, x, Red, Leaf)) && Order(c, Branch(Leaf, x, Red, Leaf)) == c.Before() + [x] + c.After()
  {
    assert Branch(Leaf, x, Red, Leaf).Inorder() == [x];
  }

  // What is known of the whole tree when the loop of ogs_rbtree_insert_color ends.
  lemma InsertedWhole(m: Links, root: Node?, c: Ctx, t: Shape, c0: Ctx, x: Node)
    requires Spells(m, root, Fill(c, t)) && RedAt(c, t) && (c.Top? || c.color == Black)
    requires Order(c, t) == c0.Before() + [x] + c0.After() && m.Keys == c0.Nodes() + {x}
    ensures var whole := Fill(c, t);
      && whole.Branch? && Blackened(whole).RedBlack()
      && whole.Inorder() == c0.Before() + [x] + c0.After() && whole.Nodes() == m.Keys
  {
    InsertDone(c, t);
    FillOrder(c, t);
    RootSeen(m, root, c, t);
    var first := Branch(Leaf, x, Red, Leaf);
    assert first.Inorder() == [x];
    FillOrder(c0, first);
    FillNodes(c0, first);
    SameNodes(Fill(c, t), Fill(c0, first));
  }

  lemma DeletedWhole(c: Ctx, t: Shape, c0: Ctx, t0: Shape)
    requires Deficit(c, t) && (c.Top? || t.Hue() == Red) && Order(c, t) == Order(c0, t0)
    ensures var whole := Fill(c, Blackened(t));
      && whole.RedBlack() && whole.Inorder() == Order(c0, t0) && whole.Nodes() == Fill(c0, t0).Nodes()
  {
    DeficitDone(c, t);
    FillOrder(c, Blackened(t));
    FillOrder(c0, t0);
    SameNodes(Fill(c, Blackened(t)), Fill(c0, t0));
  }

  // Rounds rb_delete_color may still need.
  ghost function Work(c: Ctx, t: Shape): nat {
    if c.Top? || t.Hue() == Red then 0 else c.Depth()
  }

  // rb_is_black
  predicate IsBlack(r: Node?)
    reads r
  {
    r == null || r.color == Black
  }

  class Tree {
    var root: Node?
    ghost var shape: Shape
    ghost var links: Links  // what the fields of the tree's nodes hold

    ghost predicate Synced()
      reads this, links.Keys
    {
      forall n :: n in links ==> Cell(n.parent, n.left, n.right, n.color) == links[n]
    }

    // The heap holds the tree Fill(c, t), seen from the place where c and t meet.
    ghost predicate At(c: Ctx, t: Shape)
      reads this, links.Keys
    {
      Synced() && Spells(links, root, Fill(c, t))
    }

    ghost predicate Valid()
      reads this, links.Keys
    {
      At(Top, shape) && shape.RedBlack() && links.Keys == shape.Nodes()
    }

    // The nodes of the tree from the smallest to the largest.
    ghost function Contents(): seq<Node>
      reads this
    {
      shape.Inorder()
    }

    constructor ()
      ensures Valid() && Contents() == []
    {
      root := null;
      shape := Leaf;
      links := map[];
    }

    // rb_change_child
    method ChangeChild(old_: Node, new_: Node?, parent: Node?, ghost c: Ctx)
      requires parent == c.Parent(null)
      requires parent != null ==> (c.InLeft? <==> parent.left == old_)
      modifies this`root, if parent == null then {} else {parent}
      ensures root == NewRoot(old(root), c, new_)
      ensures parent != null ==>
                && parent.parent == old(parent.parent) && parent.color == old(parent.color)
                && parent.left == (if c.InLeft? then new_ else old(parent.left))
                && parent.right == (if c.InLeft? then old(parent.right) else new_)
    {
      if parent != null {
        if old_ == parent.left {
          parent.left := new_;
        } else {
          parent.right := new_;
        }
      } else {
        root := new_;
      }
    }

    // rb_replace_node
    method ReplaceNode(old_: Node, new_: Node?, parent: Node?, ghost c: Ctx)
      requires parent == c.Parent(null) && (new_ != null ==> new_ != parent)
      requires parent != null ==> (c.InLeft? <==> parent.left == old_)
      modifies this`root, if parent == null then {} else {parent}, if new_ == null then {} else {new_}
      ensures root == NewRoot(old(root), c, new_)
      ensures parent != null ==>
                && parent.parent == old(parent.parent) && parent.color == old(parent.color)
                && parent.left == (if c.InLeft? then new_ else old(parent.left))
                && parent.right == (if c.InLeft? then old(parent.right) else new_)
      ensures new_ != null ==>
                && new_.parent == parent && new_.left == old(new_.left)
                && new_.right == old(new_.right) && new_.color == old(new_.color)
    {
      ChangeChild(old_, new_, parent, c);
      if new_ != null {
        new_.parent := parent;
      }
    }

    // rb_rotate_left, field by field
    method TurnLeft(node: Node, ghost c: Ctx)
      requires Synced() && CanRotateLeft(links, c, node)
      modifies this`root, this`links, links.Keys
      ensures Synced() && links == old(LeftRotatedLinks(links, c, node))
      ensures root == NewRoot(old(root), c, old(node.right))
    {
      ghost var m, b := links, node.right.left;
      var right := node.right;
      assert node.parent == c.Parent(null) && (!c.Top? ==> (c.InLeft? <==> c.node.left == node));
      node.right := right.left;
      if right.left != null {
        right.left.parent := node;
      }
      ReplaceNode(node, right, node.parent, c);
      right.left := node;
      node.parent := right;
      links := LeftRotatedLinks(m, c, node);
      forall n | n in links
        ensures Cell(n.parent, n.left, n.right, n.color) == links[n]
      {
        if n == node {
        } else if n == right {
        } else if n == c.Parent(null) {
        } else if n == b {
        }
      }
    }

    // rb_rotate_left, as a step from one tree to another
    method RotateLeft(node: Node, ghost c: Ctx, ghost t: Shape)
      requires At(c, t) && t.Branch? && t.right.Branch? && t.node == node
      modifies this`root, this`links, links.Keys
      ensures At(c, LeftRotated(t)) && links.Keys == old(links.Keys)
    {
      RbLinks.RotateLeft(links, root, c, t);
      TurnLeft(node, c);
    }

    // rb_rotate_right, field by field
    method TurnRight(node: Node, ghost c: Ctx)
      requires Synced() && CanRotateRight(links, c, node)
      modifies this`root, this`links, links.Keys
      ensures Synced() && links == old(RightRotatedLinks(links, c, node))
      ensures root == NewRoot(old(root), c, old(node.left))
    {
      ghost var m, b := links, node.left.right;
      var left := node.left;
      assert node.parent == c.Parent(null) && (!c.Top? ==> (c.InLeft? <==> c.node.left == node));
      node.left := left.right;
      if left.right != null {
        left.right.parent := node;
      }
      ReplaceNode(node, left, node.parent, c);
      left.right := node;
      node.parent := left;
      links := RightRotatedLinks(m, c, node);
      forall n | n in links
        ensures Cell(n.parent, n.left, n.right, n.color) == links[n]
      {
        if n == node {
        } else if n == left {
        } else if n == c.Parent(null) {
        } else if n == b {
        }
      }
    }

    // rb_rotate_right, as a step from one tree to another
    method RotateRight(node: Node, ghost c: Ctx, ghost t: Shape)
      requires At(c, t) && t.Branch? && t.left.Branch? && t.node == node
      modifies this`root, this`links, links.Keys
      ensures At(c, RightRotated(t)) && links.Keys == old(links.Keys)
    {
      RbLinks.RotateRight(links, root, c, t);
      TurnRight(node, c);
    }

    // node->color = k
    method SetColor(node: Node, k: Color, ghost c: Ctx, ghost t: Shape)
      requires At(c, t) && t.Branch? && t.node == node
      modifies this`links, links.Keys
      ensures At(c, t.(color := k)) && links.Keys == old(links.Keys)
    {
      Recolor(links, root, c, t, k);
      node.color := k;
      links := links[node := links[node].(color := k)];
    }

    // The last rotation of ogs_rbtree_insert_color, with node outside on the left
    method InsertOuterLeft(node: Node, gparent: Node, ghost c: Ctx, ghost t: Shape) returns (ghost c2: Ctx)
      requires At(c, t) && RedAt(c, t) && t.node == node && c.InLeft? && c.color == Red
      requires c.up.InLeft? && c.up.node == gparent && c.up.Side().Hue() == Black
      modifies this`root, this`links, links.Keys
      ensures At(c2, t) && RedAt(c2, t) && links.Keys == old(links.Keys)
      ensures Order(c2, t) == Order(c, t) && c2.Depth() < c.Depth()
    {
      hide Order;
      ghost var g := c.up;
      OuterStep(c, t);
      Look(links, root, c, t);
      SetColor(node.parent, Black, g, c.Raise(t));
      SetColor(gparent, Red, g.up, g.Raise(c.Paint(Black).Raise(t)));
      RotateRight(gparent, g.up, g.Paint(Red).Raise(c.Paint(Black).Raise(t)));
      c2 := InLeft(g.up, c.node, Black, Branch(c.right, g.node, Red, g.right));
    }

    // The same with node outside on the right
    method InsertOuterRight(node: Node, gparent: Node, ghost c: Ctx, ghost t: Shape) returns (ghost c2: Ctx)
      requires At(c, t) && RedAt(c, t) && t.node == node && c.InRight? && c.color == Red
      requires c.up.InRight? && c.up.node == gparent && c.up.Side().Hue() == Black
      modifies this`root, this`links, links.Keys
      ensures At(c2, t) && RedAt(c2, t) && links.Keys == old(links.Keys)
      ensures Order(c2, t) == Order(c, t) && c2.Depth() < c.Depth()
    {
      hide Order;
      ghost var g := c.up;
      OuterStep(c, t);
      Look(links, root, c, t);
      SetColor(node.parent, Black, g, c.Raise(t));
      SetColor(gparent, Red, g.up, g.Raise(c.Paint(Black).Raise(t)));
      RotateLeft(gparent, g.up, g.Paint(Red).Raise(c.Paint(Black).Raise(t)));
      c2 := InRight(g.up, Branch(g.left, g.node, Red, c.left), c.node, Black);
    }

    // One round of ogs_rbtree_insert_color with the parent on the left of the grandparent.
    method InsertRoundLeft(node: Node, ghost c: Ctx, ghost t: Shape)
      returns (next: Node, ghost c2: Ctx, ghost t2: Shape)
      requires At(c, t) && RedAt(c, t) && t.node == node && !c.Top? && c.color == Red
      requires c.up.InLeft?
      modifies this`root, this`links, links.Keys
      ensures At(c2, t2) && RedAt(c2, t2) && t2.Branch? && t2.node == next && links.Keys == old(links.Keys)
      ensures Order(c2, t2) == Order(c, t) && c2.Depth() < c.Depth()
    {
      hide Order;
      ghost var g, t1 := c.up, c.Raise(t);
      FlipStep(c, t);
      Look(links, root, c, t);
      Look(links, root, g, t1);
      next := node;
      var parent := next.parent;
      var gparent := parent.parent;
      var uncle := gparent.right;
      if uncle != null && uncle.color == Red {
        SetColor(uncle, Black, g.Across(t1), g.Side());
        c2 := InLeft(g.up, gparent, g.color, g.Side().(color := Black));
        SetColor(parent, Black, c2, t1);
        SetColor(gparent, Red, g.up, c2.Raise(t1.(color := Black)));
        c2, t2 := g.up, Flipped(g, t1);
        next := gparent;
      } else {
        c2, t2 := c, t;
        if next == parent.right {
          InnerStep(c, t);
          next := next.parent;
          RotateLeft(next, g, t1);
          c2, t2 := InLeft(g, t.node, Red, t.right), Branch(c.left, c.node, Red, t.left);
        }
        c2 := InsertOuterLeft(next, gparent, c2, t2);
      }
    }

    // One round of ogs_rbtree_insert_color with the parent on the right of the grandparent.
    method InsertRoundRight(node: Node, ghost c: Ctx, ghost t: Shape)
      returns (next: Node, ghost c2: Ctx, ghost t2: Shape)
      requires At(c, t) && RedAt(c, t) && t.node == node && !c.Top? && c.color == Red
      requires c.up.InRight?
      modifies this`root, this`links, links.Keys
      ensures At(c2, t2) && RedAt(c2, t2) && t2.Branch? && t2.node == next && links.Keys == old(links.Keys)
      ensures Order(c2, t2) == Order(c, t) && c2.Depth() < c.Depth()
    {
      hide Order;
      ghost var g, t1 := c.up, c.Raise(t);
      FlipStep(c, t);
      Look(links, root, c, t);
      Look(links, root, g, t1);
      next := node;
      var parent := next.parent;
      var gparent := parent.parent;
      var uncle := gparent.left;
      if uncle != null && uncle.color == Red {
        SetColor(uncle, Black, g.Across(t1), g.Side());
        c2 := InRight(g.up, g.Side().(color := Black), gparent, g.color);
        SetColor(parent, Black, c2, t1);
        SetColor(gparent, Red, g.up, c2.Raise(t1.(color := Black)));
        c2, t2 := g.up, Flipped(g, t1);
        next := gparent;
      } else {
        c2, t2 := c, t;
        if next == parent.left {
          InnerStep(c, t);
          next := next.parent;
          RotateRight(next, g, t1);
          c2, t2 := InRight(g, t.left, t.node, Red), Branch(t.right, c.node, Red, c.right);
        }
        c2 := InsertOuterRight(next, gparent, c2, t2);
      }
    }

    // One round of ogs_rbtree_insert_color.
    method InsertRound(node: Node, ghost c: Ctx, ghost t: Shape)
      returns (next: Node, ghost c2: Ctx, ghost t2: Shape)
      requires At(c, t) && RedAt(c, t) && t.node == node && !c.Top? && c.color == Red
      modifies this`root, this`links, links.Keys
      ensures At(c2, t2) && RedAt(c2, t2) && t2.Branch? && t2.node == next && links.Keys == old(links.Keys)
      ensures Order(c2, t2) == Order(c, t) && c2.Depth() < c.Depth()
      ensures next.parent == c2.Parent(null) && (!c2.Top? ==> c2.node.color == c2.color)
    {
      FlipStep(c, t);
      Look(links, root, c, t);
      Look(links, root, c.up, c.Raise(t));
      var parent := node.parent;
      var gparent := parent.parent;
      if parent == gparent.left {
        next, c2, t2 := InsertRoundLeft(node, c, t);
      } else {
        next, c2, t2 := InsertRoundRight(node, c, t);
      }
      Look(links, root, c2, t2);
    }

    // The tree the links spell out is a red-black tree again.
    ghost method Adopt(whole: Shape)
      requires Synced() && Spells(links, root, whole) && whole.RedBlack() && links.Keys == whole.Nodes()
      modifies this`shape
      ensures Valid() && shape == whole
    {
      shape := whole;
    }

    // tree->root->color = BLACK
    method BlackenRoot(ghost whole: Shape)
      requires At(Top, whole) && whole.Branch? && Blackened(whole).RedBlack() && links.Keys == whole.Nodes()
      modifies this, links.Keys
      ensures Valid() && Contents() == whole.Inorder() && links.Keys == old(links.Keys)
    {
      SetColor(root, Black, Top, whole);
      Adopt(Blackened(whole));
    }

    // ogs_rbtree_insert_color
    method InsertColor(rbNode: Node, ghost c0: Ctx)
      requires At(c0, Branch(Leaf, rbNode, Red, Leaf)) && c0.Accepts(Black) && c0.Balanced(0)
      requires links.Keys == c0.Nodes() + {rbNode}
      modifies this, links.Keys
      ensures Valid() && links.Keys == old(links.Keys)
      ensures Contents() == c0.Before() + [rbNode] + c0.After()
    {
      hide RedAt, Order;
      var node := rbNode;
      ghost var c, t := c0, Branch(Leaf, rbNode, Red, Leaf);
      LeafAt(c0, rbNode);
      Look(links, root, c, t);
      while node.parent != null && node.parent.color == Red
        invariant At(c, t) && RedAt(c, t) && t.Branch? && t.node == node
        invariant links.Keys == old(links.Keys)
        invariant node.parent == c.Parent(null) && (!c.Top? ==> c.node.color == c.color)
        invariant Order(c, t) == c0.Before() + [rbNode] + c0.After()
        decreases c.Depth()
      {
        node, c, t := InsertRound(node, c, t);
      }
      ghost var whole := Fill(c, t);
      InsertedWhole(links, root, c, t, c0, rbNode);
      BlackenRoot(whole);
    }

    // Case 2 of rb_delete_color: the sibling turns red.
    method PaleSibling(parent: Node, sibling: Node, ghost c: Ctx, ghost t: Shape)
      requires At(c, t) && Deficit(c, t) && !c.Top? && t.Hue() == Black && c.node == parent
      requires c.Side().Root() == sibling && c.Side().color == Black
      requires c.Side().left.Hue() == Black && c.Side().right.Hue() == Black
      modifies this`links, links.Keys
      ensures At(c.up, Paled(c, t)) && Deficit(c.up, Paled(c, t)) && links.Keys == old(links.Keys)
      ensures Order(c.up, Paled(c, t)) == Order(c, t)
      ensures Paled(c, t).Root() == parent && parent.parent == c.up.Parent(null)
    {
      PaleStep(c, t);
      SetColor(sibling, Red, c.Across(t), c.Side());
      Look(links, root, c.up, Paled(c, t));
    }

    // Case 1 of rb_delete_color with the hole on the left: rotate a red sibling up.
    method RaiseSiblingLeft(parent: Node, sibling: Node, ghost c: Ctx, ghost t: Shape)
      requires At(c, t) && Deficit(c, t) && t.Hue() == Black
      requires c.InLeft? && c.node == parent && c.right.Root() == sibling && c.right.Hue() == Red
      modifies this`root, this`links, links.Keys
      ensures c.right.Branch? && At(RedSibling(c), t) && links.Keys == old(links.Keys)
    {
      DeficitSibling(c, t);
      ghost var s := c.right.(color := Black);
      SetColor(sibling, Black, c.Across(t), c.right);
      SetColor(parent, Red, c.up, Branch(t, parent, c.color, s));
      RotateLeft(parent, c.up, Branch(t, parent, Red, s));
    }

    // Case 3: rotate a red near nephew above the sibling.
    method SwingNephewLeft(parent: Node, sibling: Node, ghost c: Ctx, ghost t: Shape)
      requires At(c, t) && Deficit(c, t) && t.Hue() == Black
      requires c.InLeft? && c.node == parent && c.right.Branch? && c.right.color == Black
      requires c.right.node == sibling && Far(c).Hue() == Black && Near(c).Hue() == Red
      modifies this`root, this`links, links.Keys
      ensures Near(c).Branch? && At(NearNephew(c), t) && links.Keys == old(links.Keys)
    {
      NearNephewStep(c, t);
      ghost var s, a := c.right, c.Across(t);
      Look(links, root, a, s);
      ghost var n := s.left.(color := Black);
      SetColor(sibling.left, Black, InLeft(a, sibling, s.color, s.right), s.left);
      SetColor(sibling, Red, a, Branch(n, sibling, s.color, s.right));
      RotateRight(sibling, a, Branch(n, sibling, Red, s.right));
    }

    // Case 4: take a black node from the sibling's side.
    method RepayLeft(parent: Node, ghost c: Ctx, ghost t: Shape)
      requires At(c, t) && Deficit(c, t) && t.Hue() == Black
      requires c.InLeft? && c.node == parent && c.right.Branch? && c.right.color == Black
      requires Far(c).Hue() == Red
      modifies this`root, this`links, links.Keys
      ensures Far(c).Branch? && At(c.up, Repaid(c, t)) && links.Keys == old(links.Keys)
    {
      RepayStep(c, t);
      Look(links, root, c.Across(t), c.right);
      ghost var s := c.right.(color := c.color);
      var sibling := parent.right;
      SetColor(sibling, parent.color, c.Across(t), c.right);
      SetColor(parent, Black, c.up, Branch(t, parent, c.color, s));
      Look(links, root, InRight(c.up, t, parent, Black), s);
      assert Fill(InRight(InRight(c.up, t, parent, Black), s.left, s.node, s.color), Far(c).(color := Black))
          == Fill(c.up, Branch(t, parent, Black, Branch(s.left, s.node, s.color, s.right.(color := Black))));
      SetColor(sibling.right, Black, InRight(InRight(c.up, t, parent, Black), s.left, s.node, s.color), Far(c));
      RotateLeft(parent, c.up, Branch(t, parent, Black, Branch(s.left, s.node, s.color, s.right.(color := Black))));
    }

    // Cases 3 and 4 together.
    method BorrowLeft(parent: Node, sibling: Node, ghost c: Ctx, ghost t: Shape)
      returns (ghost whole: Shape)
      requires At(c, t) && Deficit(c, t) && t.Hue() == Black
      requires c.InLeft? && c.node == parent && c.right.Branch? && c.right.color == Black
      requires c.right.node == sibling && (Near(c).Hue() == Red || Far(c).Hue() == Red)
      modifies this`root, this`links, links.Keys
      ensures At(Top, whole) && links.Keys == old(links.Keys)
      ensures Deficit(Top, whole) && Order(Top, whole) == Order(c, t)
    {
      ghost var c2 := c;
      LookBelow(links, root, c.Across(t), c.right);
      if IsBlack(sibling.right) {
        NearNephewStep(c, t);
        SwingNephewLeft(parent, sibling, c, t);
        c2 := NearNephew(c);
      }
      RepayStep(c2, t);
      RepayLeft(parent, c2, t);
      FillOrder(c2.up, Repaid(c2, t));
      whole := Fill(c2.up, Repaid(c2, t));
      RedBlackDone(whole);
    }

    // Cases 2 to 4 of rb_delete_color with the hole on the left: the sibling is black.
    method SettleLeft(parent: Node, ghost c: Ctx, ghost t: Shape)
      returns (next: Node?, nextParent: Node?, ghost c2: Ctx, ghost t2: Shape)
      requires At(c, t) && Deficit(c, t) && t.Hue() == Black
      requires c.InLeft? && c.node == parent && c.right.Branch? && c.right.color == Black
      modifies this`root, this`links, links.Keys
      ensures At(c2, t2) && Deficit(c2, t2) && t2.Root() == next && (!c2.Top? ==> c2.node == nextParent)
      ensures links.Keys == old(links.Keys) && Order(c2, t2) == Order(c, t)
      ensures Work(c2, t2) < c.Depth() && (c.color == Red ==> Work(c2, t2) == 0)
    {
      ghost var a, s := c.Across(t), c.right;
      Look(links, root, a, s);
      LookBelow(links, root, a, s);
      var sibling := parent.right;
      if IsBlack(sibling.left) && IsBlack(sibling.right) {
        PaleSibling(parent, sibling, c, t);
        c2, t2 := c.up, Paled(c, t);
        next, nextParent := parent, parent.parent;
      } else {
        t2 := BorrowLeft(parent, sibling, c, t);
        c2 := Top;
        next, nextParent := root, parent;
      }
    }

    // One round of rb_delete_color with the hole on the left.
    method DeleteRoundLeft(node: Node?, parent: Node, ghost c: Ctx, ghost t: Shape)
      returns (next: Node?, nextParent: Node?, ghost c2: Ctx, ghost t2: Shape)
      requires At(c, t) && Deficit(c, t) && t.Hue() == Black && t.Root() == node
      requires c.InLeft? && c.node == parent
      modifies this`root, this`links, links.Keys
      ensures At(c2, t2) && Deficit(c2, t2) && t2.Root() == next && (!c2.Top? ==> c2.node == nextParent)
      ensures links.Keys == old(links.Keys) && Order(c2, t2) == Order(c, t)
      ensures Work(c2, t2) < Work(c, t)
    {
      DeficitSibling(c, t);
      Look(links, root, c.Across(t), c.right);
      var sibling := parent.right;
      if sibling.color == Red {
        RaiseSiblingLeft(parent, sibling, c, t);
        RedSiblingStep(c, t);
        DeficitSibling(RedSibling(c), t);
        next, nextParent, c2, t2 := SettleLeft(parent, RedSibling(c), t);
      } else {
        next, nextParent, c2, t2 := SettleLeft(parent, c, t);
      }
    }

    // Case 1 of rb_delete_color with the hole on the right: rotate a red sibling up.
    method RaiseSiblingRight(parent: Node, sibling: Node, ghost c: Ctx, ghost t: Shape)
      requires At(c, t) && Deficit(c, t) && t.Hue() == Black
      requires c.InRight? && c.node == parent && c.left.Root() == sibling && c.left.Hue() == Red
      modifies this`root, this`links, links.Keys
      ensures c.left.Branch? && At(RedSibling(c), t) && links.Keys == old(links.Keys)
    {
      DeficitSibling(c, t);
      ghost var s := c.left.(color := Black);
      SetColor(sibling, Black, c.Across(t), c.left);
      SetColor(parent, Red, c.up, Branch(s, parent, c.color, t));
      RotateRight(parent, c.up, Branch(s, parent, Red, t));
    }

    // Case 3: rotate a red near nephew above the sibling.
    method SwingNephewRight(parent: Node, sibling: Node, ghost c: Ctx, ghost t: Shape)
      requires At(c, t) && Deficit(c, t) && t.Hue() == Black
      requires c.InRight? && c.node == parent && c.left.Branch? && c.left.color == Black
      requires c.left.node == sibling && Far(c).Hue() == Black && Near(c).Hue() == Red
      modifies this`root, this`links, links.Keys
      ensures Near(c).Branch? && At(NearNephew(c), t) && links.Keys == old(links.Keys)
    {
      NearNephewStep(c, t);
      ghost var s, a := c.left, c.Across(t);
      Look(links, root, a, s);
      ghost var n := s.right.(color := Black);
      SetColor(sibling.right, Black, InRight(a, s.left, sibling, s.color), s.right);
      SetColor(sibling, Red, a, Branch(s.left, sibling, s.color, n));
      RotateLeft(sibling, a, Branch(s.left, sibling, Red, n));
    }

    // Case 4: take a black node from the sibling's side.
    method RepayRight(parent: Node, ghost c: Ctx, ghost t: Shape)
      requires At(c, t) && Deficit(c, t) && t.Hue() == Black
      requires c.InRight? && c.node == parent && c.left.Branch? && c.left.color == Black
      requires Far(c).Hue() == Red
      modifies this`root, this`links, links.Keys
      ensures Far(c).Branch? && At(c.up, Repaid(c, t)) && links.Keys == old(links.Keys)
    {
      RepayStep(c, t);
      Look(links, root, c.Across(t), c.left);
      ghost var s := c.left.(color := c.color);
      var sibling := parent.left;
      SetColor(sibling, parent.color, c.Across(t), c.left);
      SetColor(parent, Black, c.up, Branch(s, parent, c.color, t));
      Look(links, root, InLeft(c.up, parent, Black, t), s);
      assert Fill(InLeft(InLeft(c.up, parent, Black, t), s.node, s.color, s.right), Far(c).(color := Black))
          == Fill(c.up, Branch(Branch(s.left.(color := Black), s.node, s.color, s.right), parent, Black, t));
      SetColor(sibling.left, Black, InLeft(InLeft(c.up, parent, Black, t), s.node, s.color, s.right), Far(c));
      RotateRight(parent, c.up, Branch(Branch(s.left.(color := Black), s.node, s.color, s.right), parent, Black, t));
    }

    // Cases 3 and 4 together.
    method BorrowRight(parent: Node, sibling: Node, ghost c: Ctx, ghost t: Shape)
      returns (ghost whole: Shape)
      requires At(c, t) && Deficit(c, t) && t.Hue() == Black
      requires c.InRight? && c.node == parent && c.left.Branch? && c.left.color == Black
      requires c.left.node == sibling && (Near(c).Hue() == Red || Far(c).Hue() == Red)
      modifies this`root, this`links, links.Keys
      ensures At(Top, whole) && links.Keys == old(links.Keys)
      ensures Deficit(Top, whole) && Order(Top, whole) == Order(c, t)
    {
      ghost var c2 := c;
      LookBelow(links, root, c.Across(t), c.left);
      if IsBlack(sibling.left) {
        NearNephewStep(c, t);
        SwingNephewRight(parent, sibling, c, t);
        c2 := NearNephew(c);
      }
      RepayStep(c2, t);
      RepayRight(parent, c2, t);
      FillOrder(c2.up, Repaid(c2, t));
      whole := Fill(c2.up, Repaid(c2, t));
      RedBlackDone(whole);
    }

    // Cases 2 to 4 of rb_delete_color with the hole on the right: the sibling is black.
    method SettleRight(parent: Node, ghost c: Ctx, ghost t: Shape)
      returns (next: Node?, nextParent: Node?, ghost c2: Ctx, ghost t2: Shape)
      requires At(c, t) && Deficit(c, t) && t.Hue() == Black
      requires c.InRight? && c.node == parent && c.left.Branch? && c.left.color == Black
      modifies this`root, this`links, links.Keys
      ensures At(c2, t2) && Deficit(c2, t2) && t2.Root() == next && (!c2.Top? ==> c2.node == nextParent)
      ensures links.Keys == old(links.Keys) && Order(c2, t2) == Order(c, t)
      ensures Work(c2, t2) < c.Depth() && (c.color == Red ==> Work(c2, t2) == 0)
    {
      ghost var a, s := c.Across(t), c.left;
      Look(links, root, a, s);
      LookBelow(links, root, a, s);
      var sibling := parent.left;
      if IsBlack(sibling.left) && IsBlack(sibling.right) {
        PaleSibling(parent, sibling, c, t);
        c2, t2 := c.up, Paled(c, t);
        next, nextParent := parent, parent.parent;
      } else {
        t2 := BorrowRight(parent, sibling, c, t);
        c2 := Top;
        next, nextParent := root, parent;
      }
    }

    // One round of rb_delete_color with the hole on the right.
    method DeleteRoundRight(node: Node?, parent: Node, ghost c: Ctx, ghost t: Shape)
      returns (next: Node?, nextParent: Node?, ghost c2: Ctx, ghost t2: Shape)
      requires At(c, t) && Deficit(c, t) && t.Hue() == Black && t.Root() == node
      requires c.InRight? && c.node == parent
      modifies this`root, this`links, links.Keys
      ensures At(c2, t2) && Deficit(c2, t2) && t2.Root() == next && (!c2.Top? ==> c2.node == nextParent)
      ensures links.Keys == old(links.Keys) && Order(c2, t2) == Order(c, t)
      ensures Work(c2, t2) < Work(c, t)
    {
      DeficitSibling(c, t);
      Look(links, root, c.Across(t), c.left);
      var sibling := parent.left;
      if sibling.color == Red {
        RaiseSiblingRight(parent, sibling, c, t);
        RedSiblingStep(c, t);
        DeficitSibling(RedSibling(c), t);
        next, nextParent, c2, t2 := SettleRight(parent, RedSibling(c), t);
      } else {
        next, nextParent, c2, t2 := SettleRight(parent, c, t);
      }
    }

    // One round of rb_delete_color.
    method DeleteRound(node: Node?, parent: Node, ghost c: Ctx, ghost t: Shape)
      returns (next: Node?, nextParent: Node?, ghost c2: Ctx, ghost t2: Shape)
      requires At(c, t) && Deficit(c, t) && t.Hue() == Black && t.Root() == node
      requires !c.Top? && c.node == parent
      modifies this`root, this`links, links.Keys
      ensures At(c2, t2) && Deficit(c2, t2) && t2.Root() == next && (!c2.Top? ==> c2.node == nextParent)
      ensures links.Keys == old(links.Keys) && Order(c2, t2) == Order(c, t)
      ensures Work(c2, t2) < Work(c, t)
      ensures (next == root <==> c2.Top?) && (IsBlack(next) <==> t2.Hue() == Black)
    {
      DeficitSibling(c, t);
      LookParent(links, root, c, t);
      if node == parent.left {
        next, nextParent, c2, t2 := DeleteRoundLeft(node, parent, c, t);
      } else {
        next, nextParent, c2, t2 := DeleteRoundRight(node, parent, c, t);
      }
      RootCut(links, root, c2, t2);
      LookRoot(links, root, c2, t2);
    }

    // if (node) node->color = BLACK
    method BlackenHole(node: Node?, ghost c: Ctx, ghost t: Shape)
      requires At(c, t) && t.Root() == node
      modifies this`links, links.Keys
      ensures At(c, Blackened(t)) && links.Keys == old(links.Keys)
    {
      if node != null {
        SetColor(node, Black, c, t);
      }
    }

    // rb_delete_color
    method DeleteColor(node: Node?, parent: Node?, ghost c0: Ctx, ghost t0: Shape)
      requires At(c0, t0) && Deficit(c0, t0) && t0.Root() == node && (!c0.Top? ==> c0.node == parent)
      requires links.Keys == Fill(c0, t0).Nodes()
      modifies this, links.Keys
      ensures Valid() && Contents() == Order(c0, t0) && links.Keys == old(links.Keys)
    {
      var n, p := node, parent;
      ghost var c, t := c0, t0;
      RootCut(links, root, c, t);
      LookRoot(links, root, c, t);
      while n != root && IsBlack(n)
        invariant At(c, t) && Deficit(c, t) && t.Root() == n && (!c.Top? ==> c.node == p)
        invariant links.Keys == old(links.Keys) && Order(c, t) == Order(c0, t0)
        invariant (n == root <==> c.Top?) && (IsBlack(n) <==> t.Hue() == Black)
        decreases Work(c, t)
      {
        n, p, c, t := DeleteRound(n, p, c, t);
      }
      DeletedWhole(c, t, c0, t0);
      BlackenHole(n, c, t);
      Adopt(Fill(c, Blackened(t)));
    }

    // ogs_rbtree_min
    method Min(start: Node, ghost t: Shape, ghost p: Node?) returns (node: Node)
      requires Synced() && t.Branch? && t.node == start && t.Holds(links, p)
      ensures node == Least(t).node
    {
      node := start;
      ghost var s, q := t, p;
      while node.left != null
        invariant s.Branch? && s.node == node && s.Holds(links, q) && Least(s) == Least(t)
        decreases s
      {
        s, q := s.left, node;
        node := node.left;
      }
    }

    // ogs_rbtree_link_node, field by field
    method LinkFields(node: Node, parent: Node?, onLeft: bool, ghost c: Ctx)
      requires Synced() && node !in links && parent == c.Parent(null) && (!c.Top? ==> c.node in links && onLeft == c.InLeft?)
      modifies this`root, this`links, links.Keys, node
      ensures Synced() && root == NewRoot(old(root), c, node)
      ensures links == (old(links) + NewChild(old(links), c, node))[node := Cell(parent, null, null, Red)]
    {
      ghost var m := links;
      node.parent := parent;
      node.left := null;
      node.right := null;
      node.color := Red;
      if parent == null {
        root := node;
      } else if onLeft {
        parent.left := node;
      } else {
        parent.right := node;
      }
      links := (m + NewChild(m, c, node))[node := Cell(parent, null, null, Red)];
    }

    // ogs_rbtree_link_node: the red leaf goes where the descent stopped.
    method LinkNode(node: Node, parent: Node?, onLeft: bool, ghost c: Ctx)
      requires At(c, Leaf) && node !in links && parent == c.Parent(null)
      requires parent != null ==> onLeft == c.InLeft?
      modifies this`root, this`links, links.Keys, node
      ensures At(c, Branch(Leaf, node, Red, Leaf)) && links.Keys == old(links.Keys) + {node}
    {
      Link(links, root, c, node);
      LinkFields(node, parent, onLeft, c);
    }

    // What every insertion does with the place its descent found: link there, then recolour.
    method Insert(node: Node, parent: Node?, onLeft: bool, ghost c: Ctx)
      requires Valid() && Fill(c, Leaf) == shape && node !in links
      requires parent == c.Parent(null) && (parent != null ==> onLeft == c.InLeft?)
      modifies this, links.Keys, node
      ensures Valid() && links.Keys == old(links.Keys) + {node}
      ensures Contents() == c.Before() + [node] + c.After()
    {
      InorderNodes(shape);
      FillNodes(c, Leaf);
      FillRedBlack(c, Leaf);
      LinkNode(node, parent, onLeft, c);
      InsertColor(node, c);
    }

    // rb_replace_node on a node with at most one child, field by field.
    method BypassFields(node: Node, child: Node?, ghost c: Ctx)
      requires Synced() && node in links && node.parent == c.Parent(null) && LeadsTo(links, c, node)
      requires child != null ==> child in links && child != c.Parent(null)
      modifies this`root, this`links, links.Keys
      ensures Synced() && root == NewRoot(old(root), c, child)
      ensures !c.Top? ==> c.node in old(links)
      ensures links == old(links + NewParent(links, child, c.Parent(null)) + NewChild(links, c, child))
    {
      ghost var m := links;
      assert !c.Top? ==> (c.InLeft? <==> c.node.left == node);
      ReplaceNode(node, child, node.parent, c);
      links := m + NewParent(m, child, c.Parent(null)) + NewChild(m, c, child);
      forall n | n in links
        ensures Cell(n.parent, n.left, n.right, n.color) == links[n]
      {
        if n == c.Parent(null) {
        } else if n == child {
        }
      }
    }

    // A node the tree no longer reaches leaves the record of the links.
    ghost method Forget(node: Node, whole: Shape)
      requires Synced() && Spells(links, root, whole)
      requires node !in whole.Nodes() && links.Keys == whole.Nodes() + {node}
      modifies this`links
      ensures Synced() && Spells(links, root, whole)
      ensures links.Keys == whole.Nodes() == old(links.Keys) - {node}
    {
      DropSpelled(links, root, whole, node);
      links := links - {node};
    }

    // The first two branches of ogs_rbtree_delete: at most one child.
    method BypassNode(node: Node, child: Node?, ghost c: Ctx, ghost t: Shape)
      requires At(c, t) && t.Branch? && t.node == node && (t.left.Leaf? || t.right.Leaf?)
      requires links.Keys == Fill(c, t).Nodes() && child == OnlyChild(t).Root()
      modifies this`root, this`links, links.Keys
      ensures At(c, OnlyChild(t)) && links.Keys == Fill(c, OnlyChild(t)).Nodes() == old(links.Keys) - {node}
    {
      BypassView(links, root, c, t);
      Bypass(links, root, c, t);
      BypassNodes(c, t);
      ghost var m := links;
      BypassFields(node, child, c);
      KeysAfter(m, child, c.Parent(null), c);
      Forget(node, Fill(c, OnlyChild(t)));
    }

    // The pointer moves inside the third branch of ogs_rbtree_delete: new_ is pulled out of its
    // place and takes over the children of node.  q is the way from node->right down to new_.
    method AdoptChildren(node: Node, new_: Node, child: Node?, ghost q: Ctx) returns (parent: Node)
      requires Synced() && node in links && new_ in links && node != new_ && (q.Top? || q.InLeft?)
      requires node.left != null && node.left in links
      requires node.right != null && node.right in links && node.right != node
      requires new_.parent == q.Parent(node) && new_.right == child && (child != null ==> child in links)
      requires (q.Top? <==> node.right == new_) && (!q.Top? ==> q.node in links && q.node != node)
      requires node.left !in {node, node.right, new_, child, q.Parent(null)}
      requires new_ !in {child, q.Parent(null)}
      requires child != null ==> child !in {node, node.right, q.Parent(null)}
      modifies this`links, links.Keys
      ensures Synced() && parent == (if q.Top? then new_ else q.node)
      ensures var m := old(links); var l, r := m[node].left, m[node].right;
        && l != null && r != null && links.Keys == m.Keys
        && forall n :: n in links ==> links[n] == AdoptedCell(m, l, r, q, new_, child, n)
    {
      ghost var m := links;
      ghost var l, r := m[node].left, m[node].right;
      parent := new_.parent;
      new_.left := node.left;
      node.left.parent := new_;
      if parent == node {
        parent := new_;
      } else {
        if child != null {
          child.parent := parent;
        }
        parent.left := child;
        new_.right := node.right;
        node.right.parent := new_;
      }
      links := map n | n in m :: AdoptedCell(m, l, r, q, new_, child, n);
      forall n | n in links
        ensures Cell(n.parent, n.left, n.right, n.color) == links[n]
      {
        if n == new_ {
        } else if n == l {
        } else if q.Top? {
        } else if n == q.node {
        } else if n == r {
        } else if n == child {
        }
      }
    }

    // new_ takes over the colour and the parent of node.
    method TakePlace(node: Node, new_: Node, ghost c: Ctx, ghost m2: Links)
      requires Synced() && node in links && new_ in links && node != new_
      requires node.parent == c.Parent(null) && LeadsTo(links, c, node)
      requires !c.Top? ==> c.node in links && c.node != new_ && c.node != node
      requires Placed(links, m2, c, node, new_)
      modifies this`root, this`links, links.Keys
      ensures Synced() && links == m2 && root == NewRoot(old(root), c, new_)
    {
      new_.color := node.color;
      ReplaceNode(node, new_, node.parent, c);
      links := m2;
      forall n | n in links
        ensures Cell(n.parent, n.left, n.right, n.color) == links[n]
      {
        if n == new_ {
        } else if n == c.Parent(null) {
        }
      }
    }

    // The third branch of ogs_rbtree_delete: the leftmost node below node->right replaces node.
    method SpliceNode(node: Node, ghost c: Ctx, ghost t: Shape)
      returns (child: Node?, parent: Node, color: Color)
      requires At(c, t) && t.Branch? && t.node == node && t.left.Branch? && t.right.Branch?
      requires links.Keys == Fill(c, t).Nodes()
      modifies this`root, this`links, links.Keys
      ensures At(c, Successor(t)) && links.Keys == Fill(c, Successor(t)).Nodes() == old(links.Keys) - {node}
      ensures child == Least(t.right).right.Root() && color == Least(t.right).color
      ensures parent == (if Spine(t.right, Top).Top? then Least(t.right).node else Spine(t.right, Top).node)
    {
      ghost var m, q := links, Spine(t.right, Top);
      SpliceView(m, root, c, t);
      SpineFill(t.right, Top);
      assert t.right.Holds(m, node) by { CutFill(m, root, c, t); }
      var new_ := Min(node.right, t.right, node);
      child := new_.right;
      color := new_.color;
      parent := AdoptChildren(node, new_, child, q);
      AdoptedThenPlaced(m, links, root, c, t);
      Splice(m, root, c, t);
      TakePlace(node, new_, c, Spliced(m, c, t));
      SpliceNodes(c, t);
      Forget(node, Fill(c, Successor(t)));
    }

    // The three branches of ogs_rbtree_delete.  The hole c2 is left with the subtree s in it.
    method Unlink(node: Node, ghost c: Ctx, ghost t: Shape)
      returns (child: Node?, parent: Node?, color: Color, ghost c2: Ctx, ghost s: Shape)
      requires At(c, t) && t.Branch? && t.node == node && Fill(c, t).RedBlack()
      requires links.Keys == Fill(c, t).Nodes()
      modifies this`root, this`links, links.Keys
      ensures At(c2, s) && s.Root() == child && (!c2.Top? ==> c2.node == parent)
      ensures links.Keys == Fill(c2, s).Nodes() == old(links.Keys) - {node}
      ensures color == Black ==> Deficit(c2, s)
      ensures color == Red ==> Fill(c2, s).RedBlack()
      ensures Fill(c2, s).Inorder() == Without(Fill(c, t).Inorder(), node)
    {
      Look(links, root, c, t);
      if node.left == null || node.right == null {
        c2, s := c, OnlyChild(t);
        BypassBalance(c, t);
        BypassOrder(c, t);
        FillRedBlack(c2, s);
        FillOrder(c2, s);
        if node.left == null {
          child := node.right;
        } else {
          child := node.left;
        }
        parent := node.parent;
        color := node.color;
        BypassNode(node, child, c, t);
      } else {
        c2, s := HoleBelow(c, t), Least(t.right).right;
        SpliceBalance(c, t);
        SpliceOrder(c, t);
        HoleBelowView(c, t);
        FillOrder(c, Successor(t));
        child, parent, color := SpliceNode(node, c, t);
      }
    }

    // ogs_rbtree_delete
    method Delete(node: Node)
      requires Valid() && node in links
      modifies this, links.Keys
      ensures Valid() && Contents() == Without(old(Contents()), node)
      ensures links.Keys == old(links.Keys) - {node}
    {
      ghost var c, t := Locate(shape, node);
      ghost var c2, s;
      var child, parent, color;
      child, parent, color, c2, s := Unlink(node, c, t);
      FillOrder(c2, s);
      if color == Black {
        DeleteColor(child, parent, c2, s);
      } else {
        Adopt(Fill(c2, s));
      }
    }

    // ogs_rbtree_max
    method Max(start: Node, ghost t: Shape, ghost p: Node?) returns (node: Node)
      requires Synced() && t.Branch? && t.node == start && t.Holds(links, p)
      ensures node == Greatest(t).node
    {
      node := start;
      ghost var s, q := t, p;
      while node.right != null
        invariant s.Branch? && s.node == node && s.Holds(links, q) && Greatest(s) == Greatest(t)
        decreases s
      {
        s, q := s.right, node;
        node := node.right;
      }
    }

    // ogs_rbtree_first
    method First() returns (r: Node?)
      requires Valid()
      ensures r == (if Contents() == [] then null else Contents()[0])
    {
      if root == null {
        return null;
      }
      LeastFirst(shape);
      r := Min(root, shape, null);
    }

    // ogs_rbtree_last
    method Last() returns (r: Node?)
      requires Valid()
      ensures r == (if Contents() == [] then null else Contents()[|Contents()| - 1])
    {
      if root == null {
        return null;
      }
      GreatestLast(shape);
      r := Max(root, shape, null);
    }

    // The loop of ogs_rbtree_next that climbs while node is a right child.
    method ClimbRight(start: Node, ghost c: Ctx, ghost t: Shape) returns (parent: Node?)
      requires At(c, t) && t.Branch? && t.node == start
      ensures parent == (if c.After() == [] then null else c.After()[0])
    {
      Look(links, root, c, t);
      var node := start;
      parent := node.parent;
      ghost var c2, t2 := c, t;
      while parent != null && node == parent.right
        invariant At(c2, t2) && t2.Branch? && t2.node == node && parent == c2.Parent(null)
        invariant c2.After() == c.After()
        invariant !c2.Top? ==> (parent.right == node <==> c2.InRight?)
        decreases c2
      {
        c2, t2 := c2.up, c2.Raise(t2);
        Look(links, root, c2, t2);
        node := parent;
        parent := node.parent;
      }
    }

    // ogs_rbtree_next: the neighbour in the order.
    method Next(node: Node, ghost i: nat) returns (r: Node?)
      requires Valid() && i < |Contents()| && Contents()[i] == node
      ensures r == (if i + 1 < |Contents()| then Contents()[i + 1] else null)
    {
      InorderNodes(shape);
      ghost var c, t := Locate(shape, node);
      Look(links, root, c, t);
      NextAt(c, t, i);
      if node.parent == node {
        return null;
      }
      if node.right != null {
        assert t.right.Holds(links, node) by { CutFill(links, root, c, t); }
        r := Min(node.right, t.right, node);
      } else {
        r := ClimbRight(node, c, t);
      }
    }

    // The loop of ogs_rbtree_prev that climbs while node is a left child.
    method ClimbLeft(start: Node, ghost c: Ctx, ghost t: Shape) returns (parent: Node?)
      requires At(c, t) && t.Branch? && t.node == start
      ensures parent == (if c.Before() == [] then null else c.Before()[|c.Before()| - 1])
    {
      Look(links, root, c, t);
      var node := start;
      parent := node.parent;
      ghost var c2, t2 := c, t;
      while parent != null && node == parent.left
        invariant At(c2, t2) && t2.Branch? && t2.node == node && parent == c2.Parent(null)
        invariant c2.Before() == c.Before()
        invariant !c2.Top? ==> (parent.left == node <==> c2.InLeft?)
        decreases c2
      {
        c2, t2 := c2.up, c2.Raise(t2);
        Look(links, root, c2, t2);
        node := parent;
        parent := node.parent;
      }
    }

    // ogs_rbtree_prev: the neighbour in the order.
    method Prev(node: Node, ghost i: nat) returns (r: Node?)
      requires Valid() && i < |Contents()| && Contents()[i] == node
      ensures r == (if i > 0 then Contents()[i - 1] else null)
    {
      InorderNodes(shape);
      ghost var c, t := Locate(shape, node);
      Look(links, root, c, t);
      PrevAt(c, t, i);
      if node.parent == node {
        return null;
      }
      if node.left != null {
        assert t.left.Holds(links, node) by { CutFill(links, root, c, t); }
        r := Max(node.left, t.left, node);
      } else {
        r := ClimbLeft(node, c, t);
      }
    }

    // ogs_rbtree_for_each, gathering the nodes it visits.
    method ForEach() returns (visited: seq<Node>)
      requires Valid()
      ensures visited == Contents()
    {
      visited := [];
      var node := First();
      while node != null
        invariant |visited| <= |Contents()| && visited == Contents()[..|visited|]
        invariant node == (if |visited| < |Contents()| then Contents()[|visited|] else null)
        decreases |Contents()| - |visited|
      {
        var next := Next(node, |visited|);
        visited := visited + [node];
        node := next;
      }
    }

    // ogs_rbtree_reverse_for_each, gathering the nodes it visits.
    method ReverseForEach() returns (visited: seq<Node>)
      requires Valid()
      ensures |visited| == |Contents()|
      ensures forall k :: 0 <= k < |visited| ==> visited[k] == Contents()[|Contents()| - 1 - k]
    {
      visited := [];
      var node := Last();
      while node != null
        invariant |visited| <= |Contents()|
        invariant forall k :: 0 <= k < |visited| ==> visited[k] == Contents()[|Contents()| - 1 - k]
        invariant node == (if |visited| < |Contents()| then Contents()[|Contents()| - 1 - |visited|] else null)
        decreases |Contents()| - |visited|
      {
        var next := Prev(node, |Contents()| - 1 - |visited|);
        visited := visited + [node];
        node := next;
      }
    }

    // ogs_rbtree_empty
    method Empty() returns (b: bool)
      requires Valid()
      ensures b <==> Contents() == []
    {
      b := root == null;
    }

    // ogs_rbtree_count
    method Count() returns (n: nat)
      requires Valid()
      ensures n == |Contents()|
    {
      n := 0;
      var node := First();
      while node != null
        invariant n <= |Contents()|
        invariant node == (if n < |Contents()| then Contents()[n] else null)
        decreases |Contents()| - n
      {
        node := Next(node, n);
        n := n + 1;
      }
    }
  }
}
