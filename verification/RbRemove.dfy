/** Removal from the linked red-black tree. */
module RbRemove {
  import opened TreeOrder
  import opened RbSpec
  import opened RbFixup
  import opened RbTree
  import opened RbOrder
  import opened RbCost
  import opened Powers
  import opened Common

  /** Taking out a node with at most one child leaves a red-black tree, or one that is short in that hole. */
  lemma DropNode(c: Ctx, s: Side, k: Color, x: IdNode, t: Tree)
    requires RedBlack(Plug(c, Make(s, k, t, x, Leaf)))
    ensures k.Black? ==> ShortInHole(c, t)
    ensures k.Red? ==> RedBlack(Plug(c, t))
  {
    PlugBalanced(c, Make(s, k, t, x, Leaf));
    PlugNoRedRed(c, Make(s, k, t, x, Leaf));
    PlugBalanced(c, t);
    PlugNoRedRed(c, t);
  }

  /** The colours of a context do not depend on which node sits where. */
  lemma {:induction false} SwapColors(i: Ctx, o: Ctx, x: IdNode, h: nat)
    requires o.In?
    ensures CtxBalanced(Append(i, o), h) <==> CtxBalanced(Append(i, o.(node := x)), h)
    ensures CtxNoRedRed(Append(i, o)) <==> CtxNoRedRed(Append(i, o.(node := x)))
    ensures Append(i, o).In? && Append(i, o.(node := x)).In? && Append(i, o).color == Append(i, o.(node := x)).color
  {
    if i.In? {
      SwapColors(i.up, o, x, h + Weight(i.color));
    }
  }

  lemma DropSuccessor(i: Ctx, o: Ctx, x: IdNode, k: Color, m: IdNode, t: Tree)
    requires o.In? && RedBlack(Plug(Append(i, o), Make(Right, k, t, m, Leaf)))
    ensures var c := Append(i, o.(node := x));
      && (k.Black? ==> ShortInHole(c, t))
      && (k.Red? ==> RedBlack(Plug(c, t)))
  {
    var c := Append(i, o.(node := x));
    DropNode(Append(i, o), Right, k, m, t);
    SwapColors(i, o, x, BlackHeight(t));
    SwapColors(i, o, x, BlackHeight(t) + 1);
    PlugBalanced(Append(i, o), t);
    PlugNoRedRed(Append(i, o), t);
    PlugBalanced(c, t);
    PlugNoRedRed(c, t);
  }

  // ----- The order after a removal -----

  lemma DropOrdered(a: seq<IdNode>, x: IdNode, b: seq<IdNode>)
    requires Ordered(a + [x] + b)
    ensures Ordered(a + b)
  {
    var (s, r) := (a + [x] + b, a + b);
    forall i, j | 0 <= i < j < |r| ensures Compare(r[i].id, r[j].id) < 0 {
      var (i', j') := (if i < |a| then i else i + 1, if j < |a| then j else j + 1);
      assert s[i'] == r[i] && s[j'] == r[j];
    }
  }

  lemma DropElements(a: seq<IdNode>, x: IdNode, b: seq<IdNode>)
    requires Ordered(a + [x] + b)
    ensures Elements(a + b) == Elements(a + [x] + b) - {x}
  {
    OrderedNoDup(a + [x] + b);
    NoDupParts(a, x, b);
    assert Elements(a + b) == Elements(a) + Elements(b);
    assert Elements(a + [x] + b) == Elements(a) + {x} + Elements(b);
  }

  lemma DropSpell(c: Ctx, s: Side, k: Color, x: IdNode, t: Tree)
    requires Ordered(Spell(c, Make(s, k, t, x, Leaf)))
    ensures Ordered(Spell(c, t))
    ensures Elements(Spell(c, t)) == Elements(Spell(c, Make(s, k, t, x, Leaf))) - {x}
  {
    hide InOrder, Make, Ordered, Elements, Before, After;
    OrderMake(s, k, t, x, Leaf);
    LeafOrder();
    var (p, q, o) := (Before(c), After(c), InOrder(t));
    if s.Left? {
      DropPieces(p, o, [x], q);
      DropOrdered(p + o, x, q);
      DropElements(p + o, x, q);
    } else {
      DropPieces(p, o, [x], q);
      DropOrdered(p, x, o + q);
      DropElements(p, x, o + q);
    }
  }

  lemma DropPieces<T>(p: seq<T>, o: seq<T>, x: seq<T>, q: seq<T>)
    ensures p + (o + x + []) + q == (p + o) + x + q
    ensures p + ([] + x + o) + q == p + x + (o + q) && p + (o + q) == p + o + q
  {
    NoEnds(o + x);
    NoEnds(x);
    Regroup(p, o, x);
    Regroup(p, x, o);
    Regroup(p + x, o, q);
    Regroup(p, o, q);
  }

  lemma {:induction false} AllLeftBefore(c: Ctx)
    requires AllLeft(c)
    ensures Before(c) == []
  {
    if c.In? {
      AllLeftBefore(c.up);
    }
  }

  /** The leftmost node `m` of the right subtree takes the place of `x`. */
  lemma SuccessorSpell(c: Ctx, k: Color, l: Tree, x: IdNode, i: Ctx, km: Color, m: IdNode, t: Tree)
    requires AllLeft(i) && Ordered(Spell(c, Fork(k, l, x, Plug(i, Fork(km, Leaf, m, t)))))
    ensures var (t0, t1) := (Fork(k, l, x, Plug(i, Fork(km, Leaf, m, t))), Fork(k, l, m, Plug(i, t)));
      Ordered(Spell(c, t1)) && Elements(Spell(c, t1)) == Elements(Spell(c, t0)) - {x}
  {
    hide InOrder, Ordered, Elements;
    AllLeftBefore(i);
    PlugOrder(i, Fork(km, Leaf, m, t));
    PlugOrder(i, t);
    OrderMake(Left, km, Leaf, m, t);
    OrderMake(Left, k, l, x, Plug(i, Fork(km, Leaf, m, t)));
    OrderMake(Left, k, l, m, Plug(i, t));
    LeafOrder();
    var (p, q, o, r) := (Before(c), After(c), InOrder(l), InOrder(Plug(i, t)));
    assert [] + ([] + [m] + InOrder(t)) + After(i) == [m] + ([] + InOrder(t) + After(i));
    SuccessorPieces(p, o, [x], [m], r, q);
    DropOrdered(p + o, x, [m] + r + q);
    DropElements(p + o, x, [m] + r + q);
  }

  lemma SuccessorPieces<T>(p: seq<T>, o: seq<T>, x: seq<T>, m: seq<T>, r: seq<T>, q: seq<T>)
    ensures p + (o + x + (m + r)) + q == (p + o) + x + (m + r + q)
    ensures p + (o + m + r) + q == (p + o) + (m + r + q)
  {
  }

  lemma LeafOrder()
    ensures InOrder(Leaf) == []
  {
  }

  // ----- The steps of a removal -----

  /** Takes out a node that has no child on the far side: its other child moves up. */
  method Unlink(h: Head, x: IdNode, child: IdNode?, ghost c: Ctx, ghost s: Side, ghost k: Color, ghost t: Tree)
    requires Shape(x, Parent(c), Make(s, k, t, x, Leaf)) && CtxShape(c, x, h.root)
    requires Apart(c, Make(s, k, t, x, Leaf)) && child == x.Kid(s)
    modifies h`root, CtxNodes(c), Nodes(t)
    ensures Shape(child, Parent(c), t) && CtxShape(c, child, h.root) && Apart(c, t)
  {
    hide Shape, CtxShape, Nodes, CtxNodes, Distinct, CtxDistinct, Make;
    ShapeMake(x, Parent(c), s, k, t, x, Leaf);
    ApartMake(c, s, k, t, x, Leaf);
    ShapeRoot(child, x, t);
    if c.In? {
      ParentIn(c);
    }
    TreeAllocated(t);
    CtxAllocated(c);
    var parent := x.parent;
    Adopt(child, parent, x, t);
    h.Relink(parent, x, child, c);
  }

  /** Puts `m` into the place of `x`: it takes over the links, the colour and the children. */
  method Substitute(h: Head, x: IdNode, m: IdNode, ghost c: Ctx, ghost k: Color, ghost l: Tree, ghost r: Tree)
    requires Shape(x, Parent(c), Fork(k, l, x, r)) && CtxShape(c, x, h.root) && Apart(c, Fork(k, l, x, r))
    requires m !in CtxNodes(c) && m !in Nodes(Fork(k, l, x, r))
    modifies h`root, CtxNodes(c), Nodes(l), Nodes(r), m
    ensures Shape(m, Parent(c), Fork(k, l, m, r)) && CtxShape(c, m, h.root)
  {
    hide Shape, CtxShape, Nodes, CtxNodes, Distinct, CtxDistinct, Make;
    ForkMake(k, l, x, r);
    ForkMake(k, l, m, r);
    ShapeMake(x, Parent(c), Left, k, l, x, r);
    ApartMake(c, Left, k, l, x, r);
    ShapeRoot(x.left, x, l);
    ShapeRoot(x.right, x, r);
    if c.In? {
      ParentIn(c);
    }
    TreeAllocated(l);
    TreeAllocated(r);
    CtxAllocated(c);
    m.left, m.right, m.parent, m.color := x.left, x.right, x.parent, x.color;
    h.Relink(x.parent, x, m, c);
    Adopt(x.left, m, x, l);
    Adopt(x.right, m, x, r);
    ShapeMake(m, Parent(c), Left, k, l, m, r);
  }

  lemma ForkMake(k: Color, l: Tree, x: IdNode, r: Tree)
    ensures Fork(k, l, x, r) == Make(Left, k, l, x, r) == Make(Right, k, r, x, l)
  {
  }

  /** The end of every removal: the fix-up runs when the node taken out was black. */
  method FixColors(h: Head, color: Color, parent: IdNode?, child: IdNode?, ghost c: Ctx, ghost t: Tree)
    returns (ghost turns: nat)
    requires Shape(child, Parent(c), t) && CtxShape(c, child, h.root) && parent == Parent(c)
    requires Ordered(Spell(c, t))
    requires color.Black? ==> ShortInHole(c, t)
    requires color.Red? ==> RedBlack(Plug(c, t))
    modifies h, Elements(Spell(c, t))
    ensures h.Valid() && Nodes(h.tree) == Elements(Spell(c, t))
    ensures turns == (if color.Black? then FixTurns(c, RootColor(t).Red?) else 0) && turns <= Depth(c)
  {
    hide Shape, CtxShape, Nodes, Distinct, Plug, Spell, NoDup, Ordered, InOrder, RedBlack, ShortInHole, Elements;
    OrderedNoDup(Spell(c, t));
    if color.Black? {
      ghost var tree;
      tree, turns := h.RemoveColor(parent, child, c, t);
      h.tree := tree;
    } else {
      turns := 0;
      PlugShape(c, t, child, h.root);
      PlugOrder(c, t);
      h.tree := Plug(c, t);
    }
    InOrderNodes(h.tree);
    NoDupDistinct(h.tree);
  }

  /** Removal of a node that lacks a child. */
  method RemoveThin(h: Head, elm: IdNode, child: IdNode?, ghost s: Side, ghost c: Ctx, ghost t: Tree)
    returns (ghost turns: nat)
    requires h.Valid() && t.Fork? && t.node == elm && Plug(c, t) == h.tree
    requires t.Kid(Flip(s)) == Leaf && child == elm.Kid(s)
    modifies h, Nodes(h.tree)
    ensures h.Valid() && Nodes(h.tree) == old(Nodes(h.tree)) - {elm}
    ensures turns == ThinTurns(c, t, s) && turns < Height(old(h.tree))
  {
    hide Shape, CtxShape, Nodes, CtxNodes, Distinct, CtxDistinct, Plug, Spell, NoDup, Ordered, InOrder, RedBlack;
    hide ShortInHole, Elements, Make;
    DepthHeight(c, t);
    ghost var k, u := t.color, t.Kid(s);
    MakeKids(t, s);
    UnplugShape(c, t, h.root);
    ShapeRoot(elm, Parent(c), t);
    PlugApart(c, t);
    PlugOrder(c, t);
    SpellNodes(c, t);
    SpellNodes(c, u);
    DropNode(c, s, k, elm, u);
    DropSpell(c, s, k, elm, u);
    var parent := elm.parent;
    var color := elm.color;
    Unlink(h, elm, child, c, s, k, u);
    turns := FixColors(h, color, parent, child, c, u);
  }

  /** The loop that walks to the leftmost node of the right subtree. */
  method Successor(elm: IdNode, ghost t: Tree, ghost p: IdNode?)
    returns (m: IdNode, ghost i: Ctx, ghost u: Tree, ghost walk: nat)
    requires Shape(elm, p, t) && t.Fork? && t.right.Fork?
    ensures t.right == Plug(i, u) && AllLeft(i) && u.Fork? && u.node == m && u.left == Leaf
    ensures walk == Depth(i) == Edge(Left, t.right)
  {
    hide Shape, Plug;
    ShapeRoot(elm, p, t);
    ShapeRoot(elm.right, elm, t.right);
    m := elm.right;
    i, u, walk := Top, t.right, 0;
    ghost var q := elm;
    AppendPlug(Top, Top, u);
    PlugTop(u);
    var left := m.left;
    while left != null
      invariant Shape(m, q, u) && u.Fork? && t.right == Plug(i, u) && AllLeft(i) && left == m.left
      invariant walk == Depth(i) && walk + Edge(Left, u) == Edge(Left, t.right)
      decreases u
    {
      ShapeRoot(m, q, u);
      ShapeRoot(left, m, u.left);
      EnterSame(i, u, Left);
      i, u, q := Enter(i, u, Left), u.left, m;
      m := left;
      walk := walk + 1;
      left := m.left;
    }
    ShapeRoot(m, q, u);
    ShapeRoot(left, m, u.left);
  }

  lemma PlugTop(t: Tree)
    ensures Plug(Top, t) == t
  {
  }

  /** Where `m` and its right child are, seen from the removed node and seen from `m`. */
  lemma SuccessorFocus(c: Ctx, k: Color, l: Tree, x: IdNode, i: Ctx, u: Tree)
    ensures Plug(Append(i, In(Right, k, x, l, c)), u) == Plug(c, Fork(k, l, x, Plug(i, u)))
    ensures Parent(Append(i, In(Right, k, x, l, c))) == if i.Top? then x else i.node
  {
    AppendPlug(i, In(Right, k, x, l, c), u);
  }

  /** Removal of a node with two children: its successor is taken out and put in its place. */
  method RemoveFull(h: Head, elm: IdNode, ghost c: Ctx, ghost t: Tree) returns (ghost walk: nat, ghost turns: nat)
    requires h.Valid() && t.Fork? && t.node == elm && Plug(c, t) == h.tree && t.left.Fork? && t.right.Fork?
    modifies h, Nodes(h.tree)
    ensures h.Valid() && Nodes(h.tree) == old(Nodes(h.tree)) - {elm}
    ensures walk == RemovalWalk(t) && walk < Height(old(h.tree))
    ensures turns == RemovalTurns(c, t) && turns < Height(old(h.tree))
  {
    hide Shape, CtxShape, Nodes, CtxNodes, Distinct, CtxDistinct, Plug, Spell, NoDup, Ordered, InOrder, RedBlack;
    hide ShortInHole, Elements, Make, AllLeft, Append;
    ghost var k, l := t.color, t.left;
    UnplugShape(c, t, h.root);
    TreeAllocated(h.tree);
    var m, i, u, n := Successor(elm, t, Parent(c));
    walk := n;
    ghost var km, v := u.color, u.right;
    ghost var c1 := Append(i, In(Right, k, elm, l, c));
    ghost var c2 := Append(i, In(Right, k, m, l, c));
    SuccessorFocus(c, k, l, elm, i, u);
    SuccessorFocus(c, k, l, elm, i, v);
    SuccessorFocus(c, k, l, m, i, v);
    DepthHeight(c1, u);
    AppendDepth(i, In(Right, k, elm, l, c));
    AppendDepth(i, In(Right, k, m, l, c));
    UnplugShape(c1, u, h.root);
    ShapeRoot(m, Parent(c1), u);
    ForkMake(km, Leaf, m, v);
    PlugApart(c1, u);
    PlugOrder(c, t);
    InOrderNodes(h.tree);
    ApartMake(c1, Right, km, v, m, Leaf);
    DropSuccessor(i, In(Right, k, elm, l, c), m, km, m, v);
    SuccessorSpell(c, k, l, elm, i, km, m, v);
    if i.In? {
      PlugApart(c, t);
      ForkMake(k, l, elm, t.right);
      ApartMake(c, Left, k, l, elm, t.right);
      PlugApart(i, u);
      ParentIn(i);
    }

    var child := m.right;
    var parent := m.parent;
    var color := m.color;
    Unlink(h, m, child, c1, Right, km, v);
    if m.parent == elm {
      parent := m;
    }
    ghost var r := Plug(i, v);
    PlugShape(c1, v, child, h.root);
    PlugApart(c1, v);
    UnplugShape(c, Fork(k, l, elm, r), h.root);
    PlugApart(c, Fork(k, l, elm, r));
    ForkMake(k, l, elm, r);
    ApartMake(c, Left, k, l, elm, r);
    Substitute(h, elm, m, c, k, l, r);
    PlugShape(c, Fork(k, l, m, r), m, h.root);
    UnplugShape(c2, v, h.root);
    PlugOrder(c2, v);
    PlugOrder(c, Fork(k, l, m, r));
    turns := FixColors(h, color, parent, child, c2, v);
    LeftInside(i, In(Right, k, elm, l, c), u);
    FixTurnsNode(i, Right, k, elm, m, l, c, RootColor(v).Red?);
  }

  lemma {:induction false} AppendDepth(i: Ctx, o: Ctx)
    ensures Depth(Append(i, o)) == Depth(i) + Depth(o)
    decreases i
  {
    if i.In? {
      AppendDepth(i.up, o);
    }
  }

  /**
    Removes `elm` from the tree and returns it. `walk` counts the steps to the successor, `turns` the turns of
    the fix-up.
   */
  method Remove(h: Head, elm: IdNode) returns (removed: IdNode, ghost walk: nat, ghost turns: nat)
    requires h.Valid() && elm in Nodes(h.tree)
    modifies h, Nodes(h.tree)
    ensures h.Valid() && removed == elm && Nodes(h.tree) == old(Nodes(h.tree)) - {elm}
    ensures walk == RemovalWalk(Subtree(old(h.tree), elm))
    ensures turns == RemovalTurns(PlaceFrom(Top, old(h.tree), elm), Subtree(old(h.tree), elm))
    ensures Pow2(walk) <= (|old(InOrder(h.tree))| + 1) * (|old(InOrder(h.tree))| + 1)
    ensures Pow2(turns) <= (|old(InOrder(h.tree))| + 1) * (|old(InOrder(h.tree))| + 1)
  {
    ghost var tree := h.tree;
    walk := 0;
    ghost var c, t := Locate(h.tree, elm);
    PlaceInside(c, t, elm);
    UnplugShape(c, t, h.root);
    ShapeRoot(elm, Parent(c), t);
    ShapeRoot(elm.left, elm, t.left);
    ShapeRoot(elm.right, elm, t.right);
    if elm.left == null {
      turns := RemoveThin(h, elm, elm.right, Right, c, t);
    } else if elm.right == null {
      turns := RemoveThin(h, elm, elm.left, Left, c, t);
    } else {
      walk, turns := RemoveFull(h, elm, c, t);
    }
    HeightBound(tree);
    Pow2Monotone(walk, Height(tree));
    Pow2Monotone(turns, Height(tree));
    removed := elm;
  }
}
