/**
  What one turn of each fix-up loop does to the colours: the loop state is a
  context and the tree in its hole, every rule of a red-black tree holds except
  at the hole, and a turn either repairs the hole or moves it towards the root.
 */
module RbFixup {
  import opened TreeOrder
  import opened RbSpec

  ghost function Paint(t: Tree, k: Color): Tree
    requires t.Fork?
  {
    Fork(k, t.left, t.node, t.right)
  }

  lemma ColorsPaint(t: Tree, k: Color)
    requires t.Fork?
    ensures NoRedRed(t) && (k.Red? ==> RootColor(t.left).Black? && RootColor(t.right).Black?) ==> NoRedRed(Paint(t, k))
    ensures Balanced(Paint(t, k)) <==> Balanced(t)
    ensures BlackHeight(Paint(t, k)) == BlackHeight(t) - Weight(t.color) + Weight(k)
    ensures InOrder(Paint(t, k)) == InOrder(t) && forall c :: Spell(c, Paint(t, k)) == Spell(c, t)
  {
  }

  lemma DistinctPaint(t: Tree, k: Color)
    requires t.Fork?
    ensures Distinct(Paint(t, k)) == Distinct(t) && Nodes(Paint(t, k)) == Nodes(t)
  {
  }

  /** The colour rules of a tree in terms of its parts. */
  lemma ColorsMake(s: Side, k: Color, a: Tree, x: IdNode, b: Tree)
    ensures var t := Make(s, k, a, x, b);
      && t.Fork? && t.color == k && t.node == x && t.Kid(s) == a && t.Kid(Flip(s)) == b
      && (NoRedRed(t) <==> NoRedRed(a) && NoRedRed(b) && (k.Red? ==> RootColor(a).Black? && RootColor(b).Black?))
      && (Balanced(t) <==> Balanced(a) && Balanced(b) && BlackHeight(a) == BlackHeight(b))
      && (Balanced(t) ==> BlackHeight(t) == BlackHeight(a) + Weight(k))
  {
  }

  lemma OrderMake(s: Side, k: Color, a: Tree, x: IdNode, b: Tree)
    ensures InOrder(Make(s, k, a, x, b)) ==
            if s.Left? then InOrder(a) + [x] + InOrder(b) else InOrder(b) + [x] + InOrder(a)
  {
  }

  lemma Reassociate<T>(a: seq<T>, x: seq<T>, b: seq<T>, y: seq<T>, d: seq<T>)
    ensures (a + x + b) + y + d == a + x + (b + y + d)
  {
  }

  /** A rotation keeps the order. */
  lemma OrderRotated(s: Side, k: Color, a: Tree, x: IdNode, l: Color, b: Tree, y: IdNode, d: Tree, k': Color, l': Color)
    ensures InOrder(Make(s, l', Make(s, k', a, x, b), y, d)) == InOrder(Make(s, k, a, x, Make(s, l, b, y, d)))
  {
    hide InOrder, Make;
    OrderMake(s, k', a, x, b);
    OrderMake(s, l', Make(s, k', a, x, b), y, d);
    OrderMake(s, l, b, y, d);
    OrderMake(s, k, a, x, Make(s, l, b, y, d));
    Reassociate(InOrder(a), [x], InOrder(b), [y], InOrder(d));
    Reassociate(InOrder(d), [y], InOrder(b), [x], InOrder(a));
  }

  // ----- Insertion -----

  /** The tree is red-black except that the red node in the hole may hang below a red node. */
  ghost predicate RedInHole(c: Ctx, t: Tree) {
    && t.Fork? && t.color.Red?
    && NoRedRed(t) && Balanced(t)
    && CtxNoRedRed(c) && CtxBalanced(c, BlackHeight(t))
  }

  /** A red uncle: the grandparent's blackness moves down and the hole moves up two levels. */
  lemma RecolorUp(c: Ctx, t: Tree)
    requires RedInHole(c, t) && c.In? && c.color.Red? && c.up.In? && RootColor(c.up.sibling).Red?
    ensures var (g, u) := (c.up, c.up.sibling);
      var t' := Make(g.side, Red, Make(c.side, Black, t, c.node, c.sibling), g.node, Paint(u, Black));
      RedInHole(g.up, t') && Spell(g.up, t') == Spell(c, t)
  {
    hide Make, InOrder;
    var (g, u) := (c.up, c.up.sibling);
    var m := Make(c.side, Black, t, c.node, c.sibling);
    assert CtxNoRedRed(g) && CtxBalanced(g, BlackHeight(t)) && CtxBalanced(g.up, BlackHeight(t) + 1);
    ColorsPaint(u, Black);
    ColorsMake(c.side, Black, t, c.node, c.sibling);
    ColorsMake(g.side, Red, m, g.node, Paint(u, Black));
    assert RedInHole(g.up, Make(g.side, Red, m, g.node, Paint(u, Black)));
    SpellMake(g.up, g.side, Red, m, g.node, Paint(u, Black));
    var g' := In(g.side, Red, g.node, Paint(u, Black), g.up);
    assert Before(g') == Before(g) && After(g') == After(g);
    SpellMake(g', c.side, Black, t, c.node, c.sibling);
  }

  /** The red pair is bent towards the inside: a rotation below the grandparent straightens it. */
  lemma Straighten(c: Ctx, t: Tree)
    requires RedInHole(c, t) && c.In? && c.color.Red? && c.up.In? && c.side == Flip(c.up.side)
    ensures var s := c.up.side;
      var (c', t') := (In(s, Red, t.node, t.Kid(Flip(s)), c.up), Make(s, Red, c.sibling, c.node, t.Kid(s)));
      RedInHole(c', t') && Spell(c', t') == Spell(c, t)
  {
    hide Make, InOrder, Before, After;
    var s := c.up.side;
    var (n, f) := (t.Kid(s), t.Kid(Flip(s)));
    var t' := Make(s, Red, c.sibling, c.node, n);
    MakeKids(t, s);
    ColorsMake(s, Red, n, t.node, f);
    ColorsMake(s, Red, c.sibling, c.node, n);
    assert RedInHole(In(s, Red, t.node, f, c.up), t');
    SpellMake(c.up, s, Red, t', t.node, f);
    SpellMake(c.up, c.side, Red, t, c.node, c.sibling);
    ColorsMake(c.side, Red, t, c.node, c.sibling);
    MakeKids(Make(c.side, Red, t, c.node, c.sibling), s);
    OrderRotated(s, Red, c.sibling, c.node, Red, n, t.node, f, Red, Red);
  }

  /** The red pair is straight and the uncle is black: one rotation at the grandparent repairs the tree. */
  lemma RotateAway(c: Ctx, t: Tree)
    requires RedInHole(c, t) && c.In? && c.color.Red? && c.up.In? && c.side == c.up.side
    requires RootColor(c.up.sibling).Black?
    ensures var (s, g) := (c.side, c.up);
      var c' := In(s, Black, c.node, Make(s, Red, c.sibling, g.node, g.sibling), g.up);
      RedInHole(c', t) && Spell(c', t) == Spell(c, t)
  {
    hide Make, InOrder, Before, After;
    var (s, g) := (c.side, c.up);
    var r := Make(s, Red, c.sibling, g.node, g.sibling);
    assert CtxNoRedRed(g) && CtxBalanced(g, BlackHeight(t)) && CtxBalanced(g.up, BlackHeight(t) + 1);
    ColorsMake(s, Red, c.sibling, g.node, g.sibling);
    assert RedInHole(In(s, Black, c.node, r, g.up), t);
    SpellMake(g.up, s, Black, t, c.node, r);
    SpellMake(g.up, s, Black, Make(s, Red, t, c.node, c.sibling), g.node, g.sibling);
    SpellMake(g, s, Red, t, c.node, c.sibling);
    OrderRotated(s, Black, t, c.node, Red, c.sibling, g.node, g.sibling, Red, Black);
  }

  /** A red node above the hole is not the root, and what is above it is black. */
  lemma RedParent(c: Ctx, t: Tree)
    requires RedInHole(c, t) && c.In? && c.color.Red?
    ensures c.up.In? && c.up.color.Black? && t.Fork? && t.color.Red?
  {
  }

  /** Once the hole hangs below a black node or is the root, blackening the root is all that is left. */
  lemma RepairedRoot(c: Ctx, t: Tree)
    requires RedInHole(c, t) && (c.Top? || c.color.Black?)
    ensures Plug(c, t).Fork? && Distinct(Plug(c, t)) == Apart(c, t)
    ensures Nodes(Plug(c, t)) == CtxNodes(c) + Nodes(t)
    ensures RedBlack(Paint(Plug(c, t), Black)) && InOrder(Paint(Plug(c, t), Black)) == Spell(c, t)
  {
    PlugOrder(c, t);
    PlugBalanced(c, t);
    PlugNoRedRed(c, t);
    PlugApart(c, t);
    ColorsPaint(Plug(c, t), Black);
  }

  /** A new red leaf in an empty hole of a red-black tree. */
  lemma NewLeaf(c: Ctx, x: IdNode)
    requires RedBlack(Plug(c, Leaf))
    ensures RedInHole(c, Fork(Red, Leaf, x, Leaf))
    ensures Fork(Red, Leaf, x, Leaf) == Make(Left, Red, Leaf, x, Leaf)
  {
    PlugBalanced(c, Leaf);
    PlugNoRedRed(c, Leaf);
  }

  // ----- Removal -----

  /**
    The tree in the hole is one black node short. Its own root may be red with red
    children: it is about to be painted black.
   */
  ghost predicate ShortInHole(c: Ctx, t: Tree) {
    && (t.Fork? ==> NoRedRed(t.left) && NoRedRed(t.right))
    && (RootColor(t).Black? ==> NoRedRed(t))
    && Balanced(t) && CtxNoRedRed(c) && CtxBalanced(c, BlackHeight(t) + 1)
  }

  /** The sibling of a short tree exists. */
  lemma SiblingExists(c: Ctx, t: Tree)
    requires ShortInHole(c, t) && c.In?
    ensures c.sibling.Fork?
  {
  }

  /** A red sibling: rotating it up gives the short tree a black sibling and a red parent. */
  lemma LowerRedSibling(c: Ctx, t: Tree)
    requires ShortInHole(c, t) && c.In? && c.sibling.Fork? && c.sibling.color.Red?
    ensures var (s, b) := (c.side, c.sibling);
      var c' := In(s, Red, c.node, b.Kid(s), In(s, Black, b.node, b.Kid(Flip(s)), c.up));
      && c.color.Black? && ShortInHole(c', t) && Spell(c', t) == Spell(c, t) && RootColor(b.Kid(s)).Black?
  {
    hide Make, InOrder, Before, After;
    var (s, b) := (c.side, c.sibling);
    var (n, f) := (b.Kid(s), b.Kid(Flip(s)));
    var r := Make(s, Red, t, c.node, n);
    MakeKids(b, s);
    ColorsMake(s, Red, n, b.node, f);
    var g := In(s, Black, b.node, f, c.up);
    assert CtxNoRedRed(g) && CtxBalanced(g, BlackHeight(t) + 1);
    assert ShortInHole(In(s, Red, c.node, n, g), t);
    SpellMake(g, s, Red, t, c.node, n);
    SpellMake(c.up, s, Black, r, b.node, f);
    SpellMake(c.up, s, Black, t, c.node, b);
    OrderRotated(s, Black, t, c.node, Red, n, b.node, f, Red, Black);
  }

  /** A black sibling with black children: painting it red moves the shortage up one level. */
  lemma DarkenSibling(c: Ctx, t: Tree)
    requires ShortInHole(c, t) && RootColor(t).Black? && c.In? && c.sibling.Fork? && c.sibling.color.Black?
    requires RootColor(c.sibling.left).Black? && RootColor(c.sibling.right).Black?
    ensures var t' := Make(c.side, c.color, t, c.node, Paint(c.sibling, Red));
      ShortInHole(c.up, t') && Spell(c.up, t') == Spell(c, t) && RootColor(t') == c.color
  {
    var b := Paint(c.sibling, Red);
    ColorsPaint(c.sibling, Red);
    SpellMake(c.up, c.side, c.color, t, c.node, b);
  }

  /** A black sibling whose red child is the near one: a rotation inside it makes the far child red. */
  lemma TurnSiblingColors(c: Ctx, t: Tree)
    requires ShortInHole(c, t) && c.In? && c.sibling.Fork? && c.sibling.color.Black?
    requires RootColor(c.sibling.Kid(c.side)).Red? && RootColor(c.sibling.Kid(Flip(c.side))).Black?
    ensures var (s, b) := (c.side, c.sibling);
      var n := b.Kid(s);
      var b' := Make(s, Black, n.Kid(s), n.node, Make(s, Red, n.Kid(Flip(s)), b.node, b.Kid(Flip(s))));
      ShortInHole(c.(sibling := b'), t) && Spell(c.(sibling := b'), t) == Spell(c, t)
  {
    hide Make, InOrder;
    var (s, b) := (c.side, c.sibling);
    var (n, f) := (b.Kid(s), b.Kid(Flip(s)));
    var r := Make(s, Red, n.Kid(Flip(s)), b.node, f);
    MakeKids(b, s);
    MakeKids(n, s);
    ColorsMake(s, Black, n, b.node, f);
    ColorsMake(s, Red, n.Kid(s), n.node, n.Kid(Flip(s)));
    ColorsMake(s, Red, n.Kid(Flip(s)), b.node, f);
    ColorsMake(s, Black, n.Kid(s), n.node, r);
    OrderRotated(s, Black, n.Kid(s), n.node, Red, n.Kid(Flip(s)), b.node, f, Red, Black);
  }

  /** A black sibling with a red far child: one rotation at the parent ends the shortage. */
  lemma RotateShortage(c: Ctx, t: Tree)
    requires ShortInHole(c, t) && RootColor(t).Black? && c.In? && c.sibling.Fork? && c.sibling.color.Black?
    requires RootColor(c.sibling.Kid(Flip(c.side))).Red?
    ensures var (s, b) := (c.side, c.sibling);
      var t' := Make(s, c.color, Make(s, Black, t, c.node, b.Kid(s)), b.node, Paint(b.Kid(Flip(s)), Black));
      RedBlack(Plug(c.up, t')) && Spell(c.up, t') == Spell(c, t)
  {
    hide Make, InOrder, Before, After;
    var (s, b) := (c.side, c.sibling);
    var (n, f) := (b.Kid(s), b.Kid(Flip(s)));
    var m := Make(s, Black, t, c.node, n);
    var t' := Make(s, c.color, m, b.node, Paint(f, Black));
    MakeKids(b, s);
    ColorsMake(s, Black, n, b.node, f);
    ColorsPaint(f, Black);
    ColorsMake(s, Black, t, c.node, n);
    ColorsMake(s, c.color, m, b.node, Paint(f, Black));
    PlugBalanced(c.up, t');
    PlugNoRedRed(c.up, t');
    SpellMake(c.up, s, c.color, t, c.node, b);
    OrderRotated(s, c.color, t, c.node, Black, n, b.node, f, Black, c.color);
    OrderMake(s, c.color, m, b.node, f);
    OrderMake(s, c.color, m, b.node, Paint(f, Black));
  }

  /** Painting a short red tree black ends the shortage; a short tree at the root is no shortage. */
  lemma PaintShort(c: Ctx, t: Tree)
    requires ShortInHole(c, t) && (RootColor(t).Red? || c.Top?)
    ensures t.Leaf? ==> RedBlack(Plug(c, t))
    ensures t.Fork? ==> RedBlack(Plug(c, Paint(t, Black)))
  {
    if t.Fork? {
      var t' := Paint(t, Black);
      ColorsPaint(t, Black);
      PlugBalanced(c, t');
      PlugNoRedRed(c, t');
    }
  }

  /** A repaired tree, seen as the tree in the hole of the empty context. */
  lemma SpellTop(t: Tree, root: IdNode?)
    requires RedBlack(t) && Shape(root, null, t)
    ensures Plug(Top, t) == t && Spell(Top, t) == InOrder(t) && CtxShape(Top, root, root)
    ensures t.Fork? ==> Paint(t, Black) == t
  {
  }
}
