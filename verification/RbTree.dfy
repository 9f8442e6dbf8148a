/** The head of a red-black tree: rotation, insertion, and the two fix-up loops. */
module RbTree {
  import opened TreeOrder
  import opened RbSpec
  import opened RbFixup
  import opened RbOrder
  import opened RbCost
  import opened Powers
  import opened Common

  /** What a rotation towards `s` makes of a tree. */
  ghost function Rotated(s: Side, t: Tree): Tree
    requires t.Fork? && t.Kid(Flip(s)).Fork?
  {
    var r := t.Kid(Flip(s));
    Make(s, r.color, Make(s, t.color, t.Kid(s), t.node, r.Kid(s)), r.node, r.Kid(Flip(s)))
  }

  ghost function Only(n: IdNode?): set<IdNode> {
    if n == null then {} else {n}
  }

  method SetKid(x: IdNode, s: Side, n: IdNode?)
    modifies x`left, x`right
    ensures x.Kid(s) == n && x.Kid(Flip(s)) == old(x.Kid(Flip(s)))
  {
    if s.Left? {
      x.left := n;
    } else {
      x.right := n;
    }
  }

  /** Points the parent link of `n`, if there is one, at `p`. */
  method Adopt(n: IdNode?, p: IdNode?, ghost was: IdNode?, ghost t: Tree)
    requires Shape(n, was, t) && Distinct(t)
    modifies Only(n)`parent
    ensures Shape(n, p, t)
  {
    if n != null {
      assert Shape(n.left, n, t.left) && Shape(n.right, n, t.right);
      n.parent := p;
      assert Shape(n.left, n, t.left) && Shape(n.right, n, t.right);
    }
  }

  /** Colours the root of a tree. */
  method Repaint(n: IdNode, k: Color, ghost p: IdNode?, ghost t: Tree)
    requires Shape(n, p, t) && Distinct(t) && t.Fork?
    modifies n`color
    ensures Shape(n, p, Paint(t, k)) && Nodes(Paint(t, k)) == Nodes(t)
  {
    assert Shape(n.left, n, t.left) && Shape(n.right, n, t.right);
    n.color := k;
    assert Shape(n.left, n, t.left) && Shape(n.right, n, t.right);
  }

  class Head {
    var root: IdNode?
    ghost var tree: Tree

    ghost predicate Valid()
      reads this, Nodes(tree)
    {
      && Shape(root, null, tree) && Distinct(tree)
      && RedBlack(tree) && Ordered(InOrder(tree))
    }

    constructor ()
      ensures Valid() && tree == Leaf
    {
      root, tree := null, Leaf;
    }

    /** Puts `n` where `elm` was: in the child link of the node above, or at the root. */
    method Relink(p: IdNode?, elm: IdNode, n: IdNode?, ghost c: Ctx)
      requires CtxShape(c, elm, root) && CtxDistinct(c) && elm !in CtxNodes(c) && p == Parent(c)
      modifies this`root, Only(Parent(c))`left, Only(Parent(c))`right
      ensures CtxShape(c, n, root)
    {
      if p != null {
        assert p == c.node && p.parent == Parent(c.up) && CtxShape(c.up, p, root);
        if p.left == elm {
          p.left := n;
        } else {
          p.right := n;
        }
        assert CtxShape(c.up, p, root);
      } else {
        root := n;
      }
    }

    /** Rotates `elm` down to side `s`, bringing its other child up. */
    method Rotate(elm: IdNode, s: Side, ghost c: Ctx, ghost t: Tree)
      requires t.Fork? && t.Kid(Flip(s)).Fork? && t.node == elm
      requires Shape(elm, Parent(c), t) && CtxShape(c, elm, root) && Apart(c, t)
      modifies this`root, Nodes(t), CtxNodes(c)
      ensures Shape(t.Kid(Flip(s)).node, Parent(c), Rotated(s, t))
      ensures CtxShape(c, t.Kid(Flip(s)).node, root)
    {
      hide Shape, CtxShape, Nodes, CtxNodes, Distinct, CtxDistinct, Apart, Make;
      var tmp := elm.Kid(Flip(s));
      ghost var r := t.Kid(Flip(s));
      ghost var a, b, d := t.Kid(s), r.Kid(s), r.Kid(Flip(s));
      RotationPieces(s, c, t);
      TreeAllocated(t);
      CtxAllocated(c);
      SetKid(elm, Flip(s), tmp.Kid(s));
      Adopt(tmp.Kid(s), elm, tmp, b);
      tmp.parent := elm.parent;
      Relink(elm.parent, elm, tmp, c);
      assert Shape(elm.Kid(s), elm, a) && Shape(elm.Kid(Flip(s)), elm, b) && Shape(tmp.Kid(Flip(s)), tmp, d);
      SetKid(tmp, s, elm);
      elm.parent := tmp;
      ShapeMake(elm, tmp, s, t.color, a, elm, b);
      ShapeMake(tmp, Parent(c), s, r.color, Make(s, t.color, a, elm, b), tmp, d);
    }

    /** The red-uncle branch of the insertion fix-up. */
    method RecolorUncle(elm: IdNode, parent: IdNode, gparent: IdNode, tmp: IdNode, ghost c: Ctx, ghost t: Tree)
      requires Shape(elm, parent, t) && CtxShape(c, elm, root) && Apart(c, t)
      requires c.In? && c.node == parent && c.up.In? && c.up.node == gparent
      requires tmp == gparent.Kid(Flip(c.up.side)) && c.up.sibling.Fork?
      modifies CtxNodes(c)`color
      ensures var g := c.up;
        && Shape(gparent, Parent(g.up),
                 Make(g.side, Red, Make(c.side, Black, t, parent, c.sibling), gparent, Paint(g.sibling, Black)))
        && CtxShape(g.up, gparent, root)
    {
      hide Shape, CtxShape, Nodes, CtxNodes, Distinct, CtxDistinct, Apart, Make;
      ghost var g := c.up;
      CtxShapeIn(c, elm, root);
      CtxShapeIn(g, parent, root);
      ApartIn(c, t);
      ApartIn(g, Make(c.side, c.color, t, parent, c.sibling));
      ShapeRoot(tmp, gparent, g.sibling);
      TreeAllocated(t);
      CtxAllocated(c);
      Repaint(tmp, Black, gparent, g.sibling);
      parent.color := Black;
      gparent.color := Red;
      ShapeMake(parent, gparent, c.side, Black, t, parent, c.sibling);
      ShapeMake(gparent, Parent(g.up), g.side, Red, Make(c.side, Black, t, parent, c.sibling), gparent,
          Paint(g.sibling, Black));
    }

    /** The black-uncle branch of the insertion fix-up, for a straight red pair. */
    method RotateGrandparent(elm: IdNode, parent: IdNode, gparent: IdNode, s: Side, ghost c: Ctx, ghost t: Tree)
      requires Shape(elm, parent, t) && CtxShape(c, elm, root) && Apart(c, t)
      requires c.In? && c.node == parent && c.side == s && c.up.In? && c.up.node == gparent && c.up.side == s
      modifies this`root, Nodes(t), CtxNodes(c)
      ensures var c' := In(s, Black, parent, Make(s, Red, c.sibling, gparent, c.up.sibling), c.up.up);
        Shape(elm, parent, t) && CtxShape(c', elm, root)
    {
      hide Shape, CtxShape, Nodes, CtxNodes, Distinct, CtxDistinct, Apart, Make;
      ghost var g := c.up;
      ghost var p' := Make(s, Black, t, parent, c.sibling);
      ghost var g' := Make(s, Red, p', gparent, g.sibling);
      ShapeRoot(elm, parent, t);
      CtxShapeIn(c, elm, root);
      CtxShapeIn(g, parent, root);
      ApartIn(c, t);
      ApartIn(g, Make(s, c.color, t, parent, c.sibling));
      ApartMake(g.up, s, Red, p', gparent, g.sibling);
      ApartMake(g.up, s, Black, t, parent, c.sibling);
      parent.color := Black;
      gparent.color := Red;
      ShapeMake(parent, gparent, s, Black, t, parent, c.sibling);
      ShapeMake(gparent, Parent(g.up), s, Red, p', gparent, g.sibling);
      ColorsMake(s, Red, p', gparent, g.sibling);
      ColorsMake(s, Black, t, parent, c.sibling);
      Rotate(gparent, Flip(s), g.up, g');
      ghost var r := Make(s, Red, c.sibling, gparent, g.sibling);
      MakeFlip(s, Red, c.sibling, gparent, g.sibling);
      MakeFlip(s, Black, t, parent, r);
      ShapeMake(parent, Parent(g.up), s, Black, t, parent, r);
      ShapeRoot(parent.Kid(s), parent, t);
      CtxShapeIn(In(s, Black, parent, r, g.up), elm, root);
    }

    /** The rotation that straightens a bent red pair: `elm` and `parent` change places. */
    method StraightenPair(elm: IdNode, parent: IdNode, s: Side, ghost c: Ctx, ghost t: Tree)
      requires Shape(elm, parent, t) && CtxShape(c, elm, root) && Apart(c, t)
      requires c.In? && c.node == parent && c.side == Flip(s)
      modifies this`root, Nodes(t), CtxNodes(c)
      ensures t.Fork?
      ensures var (c', t') := (In(s, t.color, elm, t.Kid(Flip(s)), c.up),
          Make(s, c.color, c.sibling, parent, t.Kid(s)));
        Shape(parent, elm, t') && CtxShape(c', parent, root)
    {
      hide Shape, CtxShape, Nodes, CtxNodes, Distinct, CtxDistinct, Apart, Make;
      ghost var p := Make(s, c.color, c.sibling, parent, t);
      CtxShapeIn(c, elm, root);
      ShapeRoot(elm, parent, t);
      ApartIn(c, t);
      MakeFlip(s, c.color, c.sibling, parent, t);
      ShapeMake(parent, Parent(c.up), s, c.color, c.sibling, parent, t);
      ColorsMake(s, c.color, c.sibling, parent, t);
      Rotate(parent, s, c.up, p);
      ghost var t' := Make(s, c.color, c.sibling, parent, t.Kid(s));
      ShapeMake(elm, Parent(c.up), s, t.color, t', elm, t.Kid(Flip(s)));
      ColorsMake(s, c.color, c.sibling, parent, t.Kid(s));
      ShapeRoot(elm.Kid(s), elm, t');
      CtxShapeIn(In(s, t.color, elm, t.Kid(Flip(s)), c.up), parent, root);
    }

    /** The insertion fix-up: `first` is red and may hang below a red node. Each turn but the last climbs two levels. */
    method InsertColor(first: IdNode, ghost c0: Ctx, ghost t0: Tree) returns (ghost result: Tree, ghost turns: nat)
      requires Shape(first, Parent(c0), t0) && CtxShape(c0, first, root)
      requires NoDup(Spell(c0, t0)) && RedInHole(c0, t0)
      modifies this`root, Elements(Spell(c0, t0))
      ensures Shape(root, null, result) && RedBlack(result) && InOrder(result) == Spell(c0, t0)
      ensures turns == InsertTurns(c0) && 2 * turns <= Depth(c0)
    {
      hide Shape, CtxShape, Nodes, CtxNodes, Distinct, CtxDistinct, Apart, Make, Spell, NoDup, RedInHole, InsertTurns;
      var elm := first;
      var parent := elm.parent;
      ghost var c, t := c0, t0;
      ghost var rotated := false;
      turns := 0;
      SpellApart(c, t);
      ShapeRoot(elm, Parent(c), t);
      while parent != null && parent.color.Red?
        invariant parent == Parent(c) && Shape(elm, parent, t) && CtxShape(c, elm, root)
        invariant RedInHole(c, t) && Spell(c, t) == Spell(c0, t0)
        invariant rotated ==> parent != null && parent.color.Black?
        invariant rotated ==> 2 * turns + Depth(c) <= Depth(c0) + 1 && Depth(c) >= 1
        invariant turns + (if rotated then 0 else InsertTurns(c)) == InsertTurns(c0)
        invariant !rotated ==> 2 * turns + Depth(c) <= Depth(c0)
        decreases Depth(c)
      {
        SpellApart(c, t);
        SpellNodes(c, t);
        CtxShapeIn(c, elm, root);
        RedParent(c, t);
        assert Depth(c) == Depth(c.up.up) + 2;
        InsertTurnsUp(c);
        ApartIn(c, t);
        CtxShapeIn(c.up, parent, root);
        var gparent := parent.parent;
        ShapeRoot(elm, parent, t);
        SideOf(c, elm, root);
        SideOf(c.up, parent, root);
        var s := if parent == gparent.left then Left else Right;
        var tmp := gparent.Kid(Flip(s));
        ShapeRoot(tmp, gparent, c.up.sibling);
        if tmp != null && tmp.color.Red? {
          RecolorUp(c, t);
          RecolorUncle(elm, parent, gparent, tmp, c, t);
          t := Make(s, Red, Make(c.side, Black, t, parent, c.sibling), gparent, Paint(c.up.sibling, Black));
          c := c.up.up;
          elm := gparent;
          ShapeRoot(elm, Parent(c), t);
        } else {
          if parent.Kid(Flip(s)) == elm {
            Straighten(c, t);
            StraightenPair(elm, parent, s, c, t);
            c, t := In(s, Red, elm, t.Kid(Flip(s)), c.up), Make(s, Red, c.sibling, parent, t.Kid(s));
            parent, elm := elm, parent;
            SpellApart(c, t);
            SpellNodes(c, t);
          }
          RotateAway(c, t);
          RotateGrandparent(elm, parent, gparent, s, c, t);
          c := In(s, Black, parent, Make(s, Red, c.sibling, gparent, c.up.sibling), c.up.up);
          ShapeRoot(elm, parent, t);
          CtxShapeIn(c, elm, root);
          rotated := true;
        }
        parent := elm.parent;
        turns := turns + 1;
      }
      SpellApart(c, t);
      SpellNodes(c, t);
      CtxShapeIn(c, elm, root);
      InsertTurnsUp(c);
      PlugShape(c, t, elm, root);
      RepairedRoot(c, t);
      ShapeRoot(root, null, Plug(c, t));
      Repaint(root, Black, null, Plug(c, t));
      result := Paint(Plug(c, t), Black);
    }

    /**
      The search loop: goes down from the root until it meets the key or falls off the tree.
      `next` is the last node passed that comes after the key.
     */
    method Descend(id: int)
      returns (tmp: IdNode?, parent: IdNode?, comp: int, next: IdNode?, ghost c: Ctx, ghost t: Tree)
      requires Valid()
      ensures Valid()
      ensures Plug(c, t) == tree && Around(c, id) && Shape(tmp, Parent(c), t) && CtxShape(c, tmp, root)
      ensures tmp != null ==> tmp.id == id
      ensures tmp == null ==> parent == Parent(c) && (c.In? ==> comp != 0 && (comp < 0 <==> c.side.Left?))
      ensures next == if After(c) == [] then null else After(c)[0]
      ensures Pow2(Visited(c, t)) <= (|InOrder(tree)| + 1) * (|InOrder(tree)| + 1)
      ensures c == Hole(Top, tree, id) && Visited(c, t) == Comparisons(tree, id)
    {
      hide Shape, CtxShape, Plug, Spell, Ordered, Around, InOrder, RedBlack, Distinct, Hole, Comparisons;
      tmp, parent, next, comp := root, null, null, 0;
      c, t := Top, tree;
      StartSearch(tree, root, id);
      while tmp != null
        invariant Valid()
        invariant parent == Parent(c) && Shape(tmp, parent, t) && CtxShape(c, tmp, root)
        invariant Plug(c, t) == tree && Spell(c, t) == InOrder(tree) && Around(c, id)
        invariant c.In? ==> comp != 0 && (comp < 0 <==> c.side.Left?)
        invariant next == if After(c) == [] then null else After(c)[0]
        invariant Hole(c, t, id) == Hole(Top, tree, id) && Depth(c) + Comparisons(t, id) == Comparisons(tree, id)
        decreases t
      {
        SearchStep(c, t, id);
        ShapeRoot(tmp, parent, t);
        EnterSame(c, t, Left);
        EnterSame(c, t, Right);
        EnterAround(c, t, id);
        EnterShape(c, t, tmp, root);
        comp := Compare(id, tmp.id);
        if comp < 0 {
          next, parent, tmp := tmp, tmp, tmp.left;
          c, t := Enter(c, t, Left), t.left;
        } else if comp > 0 {
          parent, tmp := tmp, tmp.right;
          c, t := Enter(c, t, Right), t.right;
        } else {
          break;
        }
      }
      ShapeRoot(tmp, Parent(c), t);
      SearchStep(c, t, id);
      DepthHeight(c, t);
      Pow2Monotone(Visited(c, t), Height(tree));
      HeightBound(tree);
    }

    /**
      Inserts `elm` unless a node with its key is present, in which case that node is
      returned and nothing changes. `steps` counts the nodes compared on the way down, `turns` the turns of the fix-up.
     */
    method Insert(elm: IdNode) returns (found: IdNode?, ghost steps: nat, ghost turns: nat)
      requires Valid()
      modifies this, Nodes(tree), elm
      ensures Valid()
      ensures found != null ==>
        found in Nodes(tree) && found.id == elm.id && tree == old(tree) && unchanged(elm)
      ensures found == null ==>
        && (forall x :: x in old(Nodes(tree)) ==> x.id != elm.id)
        && Nodes(tree) == old(Nodes(tree)) + {elm}
      ensures steps == Comparisons(old(tree), elm.id)
      ensures turns == if found == null then InsertTurns(Hole(Top, old(tree), elm.id)) else 0
      ensures Pow2(steps) <= (|old(InOrder(tree))| + 1) * (|old(InOrder(tree))| + 1) && 2 * turns <= steps
    {
      hide Shape, CtxShape, Nodes, CtxNodes, Distinct, CtxDistinct, Plug, Spell, NoDup, Ordered, Around, InOrder;
      hide RedBlack, RedInHole, Elements;
      var tmp, parent, comp, _, c, t := Descend(elm.id);
      PlugOrder(c, t);
      PlugApart(c, t);
      ShapeRoot(tmp, Parent(c), t);
      steps := Visited(c, t);
      if tmp != null {
        return tmp, steps, 0;
      }
      FitsHole(c, elm);
      SpellNodes(c, Leaf);
      ghost var e := Fork(Red, Leaf, elm, Leaf);
      SpellNodes(c, e);
      NewLeaf(c, elm);
      OrderedNoDup(Spell(c, e));
      CtxAllocated(c);
      if c.In? {
        ParentIn(c);
      }
      elm.parent := parent;
      elm.left, elm.right := null, null;
      elm.color := Red;
      Attach(parent, comp, elm, c);
      ShapeLeaf(null, elm);
      ShapeMake(elm, parent, Left, Red, Leaf, elm, Leaf);
      tree, turns := InsertColor(elm, c, e);
      InOrderNodes(tree);
      NoDupDistinct(tree);
      found := null;
    }

    /** Fills the empty child link that a search ended at. */
    method Attach(parent: IdNode?, comp: int, elm: IdNode, ghost c: Ctx)
      requires CtxShape(c, null, root) && CtxDistinct(c) && parent == Parent(c)
      requires c.In? ==> comp != 0 && (comp < 0 <==> c.side.Left?)
      modifies this`root, Only(parent)`left, Only(parent)`right
      ensures CtxShape(c, elm, root)
    {
      if parent != null {
        assert CtxShape(c.up, parent, root);
        if comp < 0 {
          parent.left := elm;
        } else {
          parent.right := elm;
        }
        assert CtxShape(c.up, parent, root);
      } else {
        root := elm;
      }
    }

    // ----- Removal -----

    /** Removal fix-up, red sibling: after it the sibling is black and `parent` is red. */
    method LowerSibling(parent: IdNode, elm: IdNode?, s: Side, ghost c: Ctx, ghost t: Tree)
      requires Shape(elm, parent, t) && CtxShape(c, elm, root) && Apart(c, t)
      requires c.In? && c.node == parent && c.side == s && c.sibling.Fork?
      modifies this`root, Nodes(t), CtxNodes(c)
      ensures var b := c.sibling;
        var c' := In(s, Red, parent, b.Kid(s), In(s, Black, b.node, b.Kid(Flip(s)), c.up));
        Shape(elm, parent, t) && CtxShape(c', elm, root)
    {
      hide Shape, CtxShape, Nodes, CtxNodes, Distinct, CtxDistinct, Make;
      ghost var b := c.sibling;
      ghost var b' := Paint(b, Black);
      ghost var n, f := b.Kid(s), b.Kid(Flip(s));
      var tmp := parent.Kid(Flip(s));
      CtxShapeIn(c, elm, root);
      ApartIn(c, t);
      ShapeRoot(tmp, parent, b);
      ShapeRoot(elm, parent, t);
      TreeAllocated(t);
      CtxAllocated(c);
      Repaint(tmp, Black, parent, b);
      parent.color := Red;
      ShapeMake(parent, Parent(c.up), s, Red, t, parent, b');
      ApartMake(c.up, s, c.color, t, parent, b);
      ApartMake(c.up, s, Red, t, parent, b');
      DistinctPaint(b, Black);
      ColorsMake(s, Red, t, parent, b');
      Rotate(parent, s, c.up, Make(s, Red, t, parent, b'));
      ghost var m := Make(s, Red, t, parent, n);
      ShapeMake(tmp, Parent(c.up), s, Black, m, tmp, f);
      ColorsMake(s, Red, t, parent, n);
      ShapeRoot(tmp.Kid(s), tmp, m);
      ShapeMake(parent, tmp, s, Red, t, parent, n);
      CtxShapeIn(In(s, Black, tmp, f, c.up), parent, root);
      ShapeRoot(parent.Kid(s), parent, t);
      CtxShapeIn(In(s, Red, parent, n, In(s, Black, tmp, f, c.up)), elm, root);
    }

    /** Removal fix-up, black sibling with black children: the sibling turns red. */
    method DarkenSiblingNode(parent: IdNode, elm: IdNode?, tmp: IdNode, ghost c: Ctx, ghost t: Tree)
      requires Shape(elm, parent, t) && CtxShape(c, elm, root) && Apart(c, t)
      requires c.In? && c.node == parent && c.sibling.Fork? && tmp == parent.Kid(Flip(c.side))
      modifies CtxNodes(c)`color
      ensures Shape(parent, Parent(c.up), Make(c.side, c.color, t, parent, Paint(c.sibling, Red)))
      ensures CtxShape(c.up, parent, root)
    {
      hide Shape, CtxShape, Nodes, CtxNodes, Distinct, CtxDistinct, Make;
      CtxShapeIn(c, elm, root);
      ApartIn(c, t);
      ShapeRoot(tmp, parent, c.sibling);
      TreeAllocated(t);
      CtxAllocated(c);
      Repaint(tmp, Red, parent, c.sibling);
      ShapeMake(parent, Parent(c.up), c.side, c.color, t, parent, Paint(c.sibling, Red));
    }

    /** Removal fix-up, only the near nephew is red: it becomes the sibling. */
    method TurnSibling(parent: IdNode, elm: IdNode?, tmp: IdNode, s: Side, ghost c: Ctx, ghost t: Tree)
      requires Shape(elm, parent, t) && CtxShape(c, elm, root) && Apart(c, t)
      requires c.In? && c.node == parent && c.side == s && tmp == parent.Kid(Flip(s))
      requires c.sibling.Fork? && c.sibling.Kid(s).Fork?
      modifies this`root, Nodes(t), CtxNodes(c)
      ensures var (b, n) := (c.sibling, c.sibling.Kid(s));
        var b' := Make(s, Black, n.Kid(s), n.node, Make(s, Red, n.Kid(Flip(s)), tmp, b.Kid(Flip(s))));
        Shape(elm, parent, t) && CtxShape(c.(sibling := b'), elm, root)
    {
      hide Shape, CtxShape, Nodes, CtxNodes, Distinct, CtxDistinct, Make;
      ghost var b := c.sibling;
      ghost var n, f := b.Kid(s), b.Kid(Flip(s));
      ghost var cs := In(Flip(s), c.color, parent, t, c.up);
      CtxShapeIn(c, elm, root);
      ApartIn(c, t);
      ShapeRoot(elm, parent, t);
      ShapeRoot(tmp, parent, b);
      MakeKids(b, s);
      ShapeMake(tmp, parent, s, b.color, n, tmp, f);
      ApartMake(cs, s, b.color, n, tmp, f);
      CtxNodesIn(cs);
      TreeAllocated(b);
      TreeAllocated(t);
      CtxAllocated(c.up);
      var near := tmp.Kid(s);
      ShapeRoot(near, tmp, n);
      if near != null {
        Repaint(near, Black, tmp, n);
      }
      tmp.color := Red;
      ghost var n' := Paint(n, Black);
      DistinctPaint(n, Black);
      MakeFlip(s, Red, n', tmp, f);
      ShapeMake(tmp, parent, s, Red, n', tmp, f);
      ApartMake(cs, s, Red, n', tmp, f);
      ColorsMake(s, Red, n', tmp, f);
      CtxShapeIn(cs, tmp, root);
      Rotate(tmp, Flip(s), cs, Make(s, Red, n', tmp, f));
      ghost var r := Make(s, Red, n.Kid(Flip(s)), tmp, f);
      MakeFlip(s, Red, n.Kid(Flip(s)), tmp, f);
      MakeFlip(s, Black, n.Kid(s), near, r);
      CtxShapeIn(cs, near, root);
      ShapeRoot(parent.Kid(s), parent, t);
      CtxShapeIn(c.(sibling := Make(s, Black, n.Kid(s), near, r)), elm, root);
    }

    /** Removal fix-up, the far nephew is red: the last rotation. */
    method LastRotation(parent: IdNode, elm: IdNode?, tmp: IdNode, s: Side, ghost c: Ctx, ghost t: Tree)
      requires Shape(elm, parent, t) && CtxShape(c, elm, root) && Apart(c, t)
      requires c.In? && c.node == parent && c.side == s && tmp == parent.Kid(Flip(s))
      requires c.sibling.Fork? && c.sibling.Kid(Flip(s)).Fork?
      modifies this`root, Nodes(t), CtxNodes(c)
      ensures var (n, f) := (c.sibling.Kid(s), c.sibling.Kid(Flip(s)));
        && Shape(tmp, Parent(c.up), Make(s, c.color, Make(s, Black, t, parent, n), tmp, Paint(f, Black)))
        && CtxShape(c.up, tmp, root)
    {
      hide Shape, CtxShape, Nodes, CtxNodes, Distinct, CtxDistinct, Make;
      ghost var b := c.sibling;
      ghost var n, f := b.Kid(s), b.Kid(Flip(s));
      CtxShapeIn(c, elm, root);
      ApartIn(c, t);
      ShapeRoot(tmp, parent, b);
      MakeKids(b, s);
      ShapeMake(tmp, parent, s, b.color, n, tmp, f);
      ApartMake(Top, s, b.color, n, tmp, f);
      TreeAllocated(b);
      TreeAllocated(t);
      CtxAllocated(c.up);
      tmp.color := parent.color;
      parent.color := Black;
      var far := tmp.Kid(Flip(s));
      ShapeRoot(far, tmp, f);
      if far != null {
        Repaint(far, Black, tmp, f);
      }
      ghost var f' := Paint(f, Black);
      ghost var b' := Make(s, c.color, n, tmp, f');
      ShapeMake(tmp, parent, s, c.color, n, tmp, f');
      ShapeMake(parent, Parent(c.up), s, Black, t, parent, b');
      ApartMake(c.up, s, c.color, t, parent, b);
      ApartMake(c.up, s, Black, t, parent, b');
      ApartMake(Top, s, c.color, n, tmp, f');
      DistinctPaint(f, Black);
      ColorsMake(s, c.color, n, tmp, f');
      ColorsMake(s, Black, t, parent, b');
      Rotate(parent, s, c.up, Make(s, Black, t, parent, b'));
    }

    /** The first step of every turn of the removal fix-up: whatever the sibling was, it is black now. */
    method BlackenSibling(parent: IdNode, elm: IdNode?, s: Side, ghost c: Ctx, ghost t: Tree)
      returns (tmp: IdNode, ghost c': Ctx)
      requires Shape(elm, parent, t) && CtxShape(c, elm, root) && Apart(c, t) && NoDup(Spell(c, t))
      requires ShortInHole(c, t) && c.In? && c.node == parent && c.side == s
      modifies this`root, CtxNodes(c), Nodes(t)
      ensures Shape(elm, parent, t) && CtxShape(c', elm, root) && Apart(c', t)
      ensures ShortInHole(c', t) && Spell(c', t) == Spell(c, t) && CtxNodes(c') + Nodes(t) == CtxNodes(c) + Nodes(t)
      ensures c'.In? && c'.node == parent && c'.side == s && tmp == parent.Kid(Flip(s))
      ensures Shape(tmp, parent, c'.sibling) && c'.sibling.Fork? && c'.sibling.color.Black?
      ensures if RootColor(c.sibling).Red? then c'.color.Red? else c' == c
    {
      hide Shape, CtxShape, Nodes, CtxNodes, Distinct, CtxDistinct, Make, Spell, NoDup, ShortInHole, Elements;
      SiblingExists(c, t);
      CtxShapeIn(c, elm, root);
      ShapeRoot(parent.Kid(Flip(s)), parent, c.sibling);
      tmp := parent.Kid(Flip(s));
      c' := c;
      if tmp.color.Red? {
        SpellNodes(c, t);
        LowerRedSibling(c, t);
        LowerSibling(parent, elm, s, c, t);
        c' := In(s, Red, parent, c.sibling.Kid(s), In(s, Black, c.sibling.node, c.sibling.Kid(Flip(s)), c.up));
        SpellApart(c', t);
        SpellNodes(c', t);
        SiblingExists(c', t);
        CtxShapeIn(c', elm, root);
        ShapeRoot(parent.Kid(Flip(s)), parent, c'.sibling);
        tmp := parent.Kid(Flip(s));
      }
    }

    /** The branch of the removal fix-up that ends it: a nephew is red. */
    method EndShortage(parent: IdNode, elm: IdNode?, tmp0: IdNode, s: Side, ghost c0: Ctx, ghost t: Tree)
      returns (ghost result: Tree)
      requires Shape(elm, parent, t) && CtxShape(c0, elm, root) && Apart(c0, t) && NoDup(Spell(c0, t))
      requires ShortInHole(c0, t) && RootColor(t).Black?
      requires c0.In? && c0.node == parent && c0.side == s && tmp0 == parent.Kid(Flip(s))
      requires c0.sibling.Fork? && c0.sibling.color.Black?
      requires RootColor(c0.sibling.left).Red? || RootColor(c0.sibling.right).Red?
      modifies this`root, CtxNodes(c0), Nodes(t)
      ensures Shape(root, null, result) && RedBlack(result) && InOrder(result) == Spell(c0, t)
    {
      hide Shape, CtxShape, Nodes, CtxNodes, Distinct, CtxDistinct, Make, Plug, Spell, NoDup, ShortInHole, Elements,
          RedBlack;
      var tmp := tmp0;
      ghost var c := c0;
      CtxShapeIn(c, elm, root);
      ShapeRoot(tmp, parent, c.sibling);
      KidColors(tmp, parent, c.sibling);
      SpellNodes(c, t);
      if tmp.Kid(Flip(s)) == null || tmp.Kid(Flip(s)).color.Black? {
        TurnSiblingColors(c, t);
        TurnSibling(parent, elm, tmp, s, c, t);
        ghost var b, n := c.sibling, c.sibling.Kid(s);
        ghost var r := Make(s, Red, n.Kid(Flip(s)), tmp, b.Kid(Flip(s)));
        c := c.(sibling := Make(s, Black, n.Kid(s), n.node, r));
        ColorsMake(s, Red, n.Kid(Flip(s)), tmp, b.Kid(Flip(s)));
        ColorsMake(s, Black, n.Kid(s), n.node, r);
        CtxShapeIn(c, elm, root);
        tmp := parent.Kid(Flip(s));
        ShapeRoot(tmp, parent, c.sibling);
        SpellApart(c, t);
        SpellNodes(c, t);
      }
      RotateShortage(c, t);
      LastRotation(parent, elm, tmp, s, c, t);
      ghost var t' := Make(s, c.color, Make(s, Black, t, parent, c.sibling.Kid(s)), tmp,
          Paint(c.sibling.Kid(Flip(s)), Black));
      PlugShape(c.up, t', tmp, root);
      PlugOrder(c.up, t');
      result := Plug(c.up, t');
    }

    /** The removal fix-up: the tree at `elm0`, below `parent0`, is one black node short. */
    method RemoveColor(parent0: IdNode?, elm0: IdNode?, ghost c0: Ctx, ghost t0: Tree)
      returns (ghost result: Tree, ghost turns: nat)
      requires Shape(elm0, Parent(c0), t0) && CtxShape(c0, elm0, root) && parent0 == Parent(c0)
      requires NoDup(Spell(c0, t0)) && ShortInHole(c0, t0)
      modifies this`root, Elements(Spell(c0, t0))
      ensures Shape(root, null, result) && RedBlack(result) && InOrder(result) == Spell(c0, t0)
      ensures turns == FixTurns(c0, RootColor(t0).Red?) && turns <= Depth(c0)
    {
      hide Shape, CtxShape, Nodes, CtxNodes, Distinct, CtxDistinct, Make, Plug, Spell, NoDup, ShortInHole, Elements;
      var elm, parent := elm0, parent0;
      ghost var c, t := c0, t0;
      ghost var repaired := false;
      turns := 0;
      SpellApart(c, t);
      SpellNodes(c, t);
      ShapeRoot(elm, parent, t);
      TopShape(c, elm, root, t);
      while (elm == null || elm.color.Black?) && elm != root
        invariant parent == Parent(c) && Shape(elm, parent, t) && CtxShape(c, elm, root)
        invariant ShortInHole(c, t) && Spell(c, t) == Spell(c0, t0)
        invariant Apart(c, t) && Elements(Spell(c0, t0)) == CtxNodes(c) + Nodes(t)
        invariant elm == root <==> c.Top?
        invariant elm == Root(t) && (elm != null ==> elm.color == t.color)
        invariant turns + FixTurns(c, RootColor(t).Red?) == FixTurns(c0, RootColor(t0).Red?)
        invariant turns + (if RootColor(t).Red? then 0 else Depth(c)) <= Depth(c0)
        decreases if RootColor(t).Red? then 0 else 1 + Depth(c)
      {
        turns := turns + 1;
        SiblingExists(c, t);
        SideOfHole(c, elm, root, t);
        CtxShapeIn(c, elm, root);
        var s := if parent.left == elm then Left else Right;
        var tmp;
        tmp, c := BlackenSibling(parent, elm, s, c, t);
        KidColors(tmp, parent, c.sibling);
        if (tmp.left == null || tmp.left.color.Black?) && (tmp.right == null || tmp.right.color.Black?) {
          DarkenSibling(c, t);
          DarkenSiblingNode(parent, elm, tmp, c, t);
          t := Make(s, c.color, t, parent, Paint(c.sibling, Red));
          c := c.up;
          elm := parent;
          ShapeRoot(elm, Parent(c), t);
          parent := elm.parent;
          SpellApart(c, t);
          SpellNodes(c, t);
          TopShape(c, elm, root, t);
        } else {
          t := EndShortage(parent, elm, tmp, s, c, t);
          c := Top;
          repaired := true;
          elm := root;
          SpellTop(t, root);
          SpellApart(c, t);
          SpellNodes(c, t);
          break;
        }
      }
      if !repaired {
        PaintShort(c, t);
      }
      ShapeRoot(elm, Parent(c), t);
      result := PaintHole(elm, c, t);
    }

    /** The last assignment of the removal fix-up: the node in the hole becomes black. */
    method PaintHole(elm: IdNode?, ghost c: Ctx, ghost t: Tree) returns (ghost result: Tree)
      requires Shape(elm, Parent(c), t) && CtxShape(c, elm, root) && Apart(c, t)
      requires t.Leaf? ==> RedBlack(Plug(c, t))
      requires t.Fork? ==> RedBlack(Plug(c, Paint(t, Black)))
      modifies Only(elm)
      ensures Shape(root, null, result) && RedBlack(result) && InOrder(result) == Spell(c, t)
    {
      hide Shape, CtxShape, Nodes, CtxNodes, Distinct, CtxDistinct, Plug, Spell, RedBlack;
      ghost var u := t;
      ShapeRoot(elm, Parent(c), t);
      if elm != null {
        TreeAllocated(t);
        CtxAllocated(c);
        Repaint(elm, Black, Parent(c), t);
        PaintSpell(c, t);
        u := Paint(t, Black);
      }
      PlugShape(c, u, elm, root);
      PlugOrder(c, u);
      result := Plug(c, u);
    }
  }

  lemma PaintSpell(c: Ctx, t: Tree)
    requires t.Fork?
    ensures Spell(c, Paint(t, Black)) == Spell(c, t)
  {
  }

  /** The pieces that a rotation moves around, and that they have no node in common. */
  lemma RotationPieces(s: Side, c: Ctx, t: Tree)
    requires t.Fork? && t.Kid(Flip(s)).Fork? && Apart(c, t) && Shape(t.node, Parent(c), t)
    ensures var r := t.Kid(Flip(s));
      var (x, y, a, b, d) := (t.node, r.node, t.Kid(s), r.Kid(s), r.Kid(Flip(s)));
      && x.Kid(Flip(s)) == y && x.parent == Parent(c) && x.color == t.color && y.color == r.color
      && Shape(x.Kid(s), x, a) && Shape(y.Kid(s), y, b) && Shape(y.Kid(Flip(s)), y, d)
      && CtxDistinct(c) && Distinct(b)
      && {x, y} <= Nodes(t) && Nodes(a) <= Nodes(t) && Nodes(b) <= Nodes(t) && Nodes(d) <= Nodes(t)
      && Only(y.Kid(s)) <= Nodes(b) && Only(Parent(c)) <= CtxNodes(c)
      && x != y && {x, y} !! CtxNodes(c) && {x, y} !! Nodes(a) && {x, y} !! Nodes(b) && {x, y} !! Nodes(d)
      && Nodes(a) !! CtxNodes(c) && Nodes(b) !! CtxNodes(c) && Nodes(d) !! CtxNodes(c)
      && Nodes(a) !! Nodes(b) && Nodes(d) !! Nodes(b)
  {
    var r := t.Kid(Flip(s));
    MakeKids(t, s);
    MakeKids(r, s);
    ShapeMake(t.node, Parent(c), s, t.color, t.Kid(s), t.node, r);
    ShapeMake(r.node, t.node, s, r.color, r.Kid(s), r.node, r.Kid(Flip(s)));
    ApartMake(c, s, t.color, t.Kid(s), t.node, r);
    ApartMake(c, s, r.color, r.Kid(s), r.node, r.Kid(Flip(s)));
    ShapeRoot(r.node.Kid(s), r.node, r.Kid(s));
  }
}
