/** Where a key belongs in an ordered tree, and how deep a red-black tree can be. */
module RbOrder {
  import opened TreeOrder
  import opened RbSpec
  import opened Powers
  import opened Common

  // ----- Position of a key -----

  /** Everything before the hole comes before `id`, everything after it comes after. */
  ghost predicate Around(c: Ctx, id: int) {
    && (forall i :: 0 <= i < |Before(c)| ==> Compare(id, Before(c)[i].id) > 0)
    && (forall i :: 0 <= i < |After(c)| ==> Compare(id, After(c)[i].id) < 0)
  }

  /** The context of the child that a search for `id` enters. */
  ghost function Enter(c: Ctx, t: Tree, s: Side): Ctx
    requires t.Fork?
  {
    In(s, t.color, t.node, t.Kid(Flip(s)), c)
  }

  lemma EnterSame(c: Ctx, t: Tree, s: Side)
    requires t.Fork?
    ensures Plug(Enter(c, t, s), t.Kid(s)) == Plug(c, t)
    ensures Spell(Enter(c, t, s), t.Kid(s)) == Spell(c, t)
  {
    MakeKids(t, s);
    SpellMake(c, s, t.color, t.Kid(s), t.node, t.Kid(Flip(s)));
  }

  lemma EnterShape(c: Ctx, t: Tree, n: IdNode, root: IdNode?)
    requires t.Fork? && CtxShape(c, n, root) && Shape(n, Parent(c), t)
    ensures CtxShape(Enter(c, t, Left), n.left, root) && Shape(n.left, n, t.left)
    ensures CtxShape(Enter(c, t, Right), n.right, root) && Shape(n.right, n, t.right)
  {
  }

  lemma StartSearch(t: Tree, root: IdNode?, id: int)
    requires Shape(root, null, t)
    ensures Plug(Top, t) == t && Spell(Top, t) == InOrder(t) && Around(Top, id)
    ensures CtxShape(Top, root, root)
  {
    hide Shape, InOrder;
    NoEnds(InOrder(t));
  }

  /** In an ordered sequence everything before `x` precedes whatever does not precede `x`. */
  lemma OrderedAround(a: seq<IdNode>, x: IdNode, b: seq<IdNode>, id: int)
    requires Ordered(a + [x] + b)
    ensures Compare(id, x.id) < 0 ==> forall i :: 0 <= i < |b| ==> Compare(id, b[i].id) < 0
    ensures Compare(id, x.id) > 0 ==> forall i :: 0 <= i < |a| ==> Compare(id, a[i].id) > 0
    ensures Compare(id, x.id) == 0 ==>
      (forall i :: 0 <= i < |a| ==> Compare(id, a[i].id) > 0) && (forall i :: 0 <= i < |b| ==> Compare(id, b[i].id) < 0)
  {
    var s := a + [x] + b;
    assert s[|a|] == x;
    forall i | 0 <= i < |a| ensures Compare(a[i].id, x.id) < 0 {
      assert s[i] == a[i];
    }
    forall i | 0 <= i < |b| ensures Compare(x.id, b[i].id) < 0 {
      assert s[|a| + 1 + i] == b[i];
    }
  }

  /** What a node in a hole has before and after it. */
  lemma SpellNode(c: Ctx, t: Tree)
    requires t.Fork?
    ensures Spell(c, t) == (Before(c) + InOrder(t.left)) + [t.node] + (InOrder(t.right) + After(c))
    ensures Before(Enter(c, t, Left)) == Before(c)
    ensures After(Enter(c, t, Left)) == [t.node] + (InOrder(t.right) + After(c))
    ensures Before(Enter(c, t, Right)) == (Before(c) + InOrder(t.left)) + [t.node]
    ensures After(Enter(c, t, Right)) == After(c)
  {
    var (l, r) := (InOrder(t.left), InOrder(t.right));
    assert InOrder(t) == l + [t.node] + r;
    hide InOrder;
    MiddleOut(Before(c), l, [t.node], r, After(c));
    Regroup([t.node], r, After(c));
  }

  lemma MiddleOut<T>(a: seq<T>, b: seq<T>, c: seq<T>, d: seq<T>, e: seq<T>)
    ensures a + (b + c + d) + e == (a + b) + c + (d + e)
  {
  }

  lemma EnterAround(c: Ctx, t: Tree, id: int)
    requires t.Fork? && Ordered(Spell(c, t)) && Around(c, id)
    ensures Compare(id, t.node.id) < 0 ==> Around(Enter(c, t, Left), id)
    ensures Compare(id, t.node.id) > 0 ==> Around(Enter(c, t, Right), id)
  {
    hide Ordered, Spell, InOrder, Before, After, Enter;
    var (a, b) := (Before(c) + InOrder(t.left), InOrder(t.right) + After(c));
    SpellNode(c, t);
    OrderedAround(a, t.node, b, id);
    if Compare(id, t.node.id) < 0 {
      FrontAfter(t.node, b, id);
    } else if Compare(id, t.node.id) > 0 {
      BackBefore(a, t.node, id);
    }
  }

  lemma FrontAfter(x: IdNode, b: seq<IdNode>, id: int)
    requires Compare(id, x.id) < 0 && forall i :: 0 <= i < |b| ==> Compare(id, b[i].id) < 0
    ensures var s := [x] + b; forall i :: 0 <= i < |s| ==> Compare(id, s[i].id) < 0
  {
  }

  lemma BackBefore(a: seq<IdNode>, x: IdNode, id: int)
    requires Compare(id, x.id) > 0 && forall i :: 0 <= i < |a| ==> Compare(id, a[i].id) > 0
    ensures var s := a + [x]; forall i :: 0 <= i < |s| ==> Compare(id, s[i].id) > 0
  {
  }

  lemma OrderedNoDup(s: seq<IdNode>)
    requires Ordered(s)
    ensures NoDup(s)
  {
  }

  /** A key that fits into an empty hole is not in the tree, and putting it there keeps the order. */
  lemma FitsHole(c: Ctx, x: IdNode)
    requires Ordered(Spell(c, Leaf)) && Around(c, x.id)
    ensures forall y :: y in Elements(Spell(c, Leaf)) ==> y.id != x.id
    ensures Ordered(Spell(c, Fork(Red, Leaf, x, Leaf)))
    ensures Elements(Spell(c, Fork(Red, Leaf, x, Leaf))) == Elements(Spell(c, Leaf)) + {x}
  {
    hide Ordered;
    var (a, b) := (Before(c), After(c));
    assert Spell(c, Leaf) == a + b;
    assert Spell(c, Fork(Red, Leaf, x, Leaf)) == a + [x] + b;
    InsertOrdered(a, x, b);
    InsertElements(a, x, b);
  }

  lemma InsertElements(a: seq<IdNode>, x: IdNode, b: seq<IdNode>)
    ensures Elements(a + [x] + b) == Elements(a + b) + {x}
  {
    assert forall y :: y in a + [x] + b <==> y in a + b || y == x;
  }

  lemma InsertOrdered(a: seq<IdNode>, x: IdNode, b: seq<IdNode>)
    requires Ordered(a + b)
    requires forall i :: 0 <= i < |a| ==> Compare(x.id, a[i].id) > 0
    requires forall i :: 0 <= i < |b| ==> Compare(x.id, b[i].id) < 0
    ensures Ordered(a + [x] + b)
  {
    var (s, r) := (a + [x] + b, a + b);
    forall i, j | 0 <= i < j < |s| ensures Compare(s[i].id, s[j].id) < 0 {
      if i != |a| && j != |a| {
        var (i', j') := (if i < |a| then i else i - 1, if j < |a| then j else j - 1);
        assert s[i] == r[i'] && s[j] == r[j'];
      }
    }
  }

  // ----- Height -----

  ghost function Height(t: Tree): nat {
    match t
    case Leaf => 0
    case Fork(_, l, _, r) => 1 + if Height(l) > Height(r) then Height(l) else Height(r)
  }

  /** How many nodes a search compared that stopped at this hole. */
  ghost function Visited(c: Ctx, t: Tree): nat {
    Depth(c) + if t.Leaf? then 0 else 1
  }

  lemma {:induction false} DepthHeight(c: Ctx, t: Tree)
    ensures Depth(c) + Height(t) <= Height(Plug(c, t))
    decreases c
  {
    if c.In? {
      DepthHeight(c.up, Make(c.side, c.color, t, c.node, c.sibling));
    }
  }

  /** At most every other node of a path is red, and all paths of a full black level exist. */
  lemma {:induction false} BlackHeightBounds(t: Tree)
    requires NoRedRed(t) && Balanced(t)
    ensures Height(t) <= 2 * BlackHeight(t) + (if RootColor(t).Red? then 1 else 0)
    ensures Pow2(BlackHeight(t)) <= |InOrder(t)| + 1
  {
    if t.Fork? {
      BlackHeightBounds(t.left);
      BlackHeightBounds(t.right);
      assert |InOrder(t)| == |InOrder(t.left)| + 1 + |InOrder(t.right)|;
    }
  }

  /** The height h of a red-black tree of n nodes satisfies 2^h <= (n+1)^2. */
  lemma HeightBound(t: Tree)
    requires RedBlack(t)
    ensures Pow2(Height(t)) <= (|InOrder(t)| + 1) * (|InOrder(t)| + 1)
  {
    var (b, n) := (BlackHeight(t), |InOrder(t)| + 1);
    BlackHeightBounds(t);
    Pow2Monotone(Height(t), b + b);
    Pow2Add(b, b);
    Square(Pow2(b), n);
  }

  lemma Square(m: nat, n: nat)
    requires m <= n
    ensures m * m <= n * n
  {
    assert m * m <= m * n <= n * n;
  }
}
