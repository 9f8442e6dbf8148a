/** Search and iteration: find, first-not-before, minimum and maximum, next and previous, and the whole walk. */
module RbSearch {
  import opened TreeOrder
  import opened RbSpec
  import opened RbOrder
  import opened RbCost
  import opened Powers
  import opened RbTree
  import opened Common

  /** Finds the node with the given key; `steps` counts the nodes compared. */
  method Find(h: Head, id: int) returns (r: IdNode?, ghost steps: nat)
    requires h.Valid()
    ensures r != null ==> r in Nodes(h.tree) && r.id == id
    ensures r == null ==> forall x :: x in Nodes(h.tree) ==> x.id != id
    ensures steps == Comparisons(h.tree, id)
    ensures Pow2(steps) <= (|InOrder(h.tree)| + 1) * (|InOrder(h.tree)| + 1)
  {
    hide Shape, CtxShape, Nodes, CtxNodes, Distinct, Plug, Spell, Ordered, Around, InOrder, RedBlack;
    var tmp, _, _, _, c, t := h.Descend(id);
    ShapeRoot(tmp, Parent(c), t);
    PlugApart(c, t);
    if tmp == null {
      PlugOrder(c, t);
      AbsentKey(c, id);
      SpellNodes(c, t);
    }
    r, steps := tmp, Visited(c, t);
  }

  /** An empty hole that a key fits into proves that the key is absent. */
  lemma AbsentKey(c: Ctx, id: int)
    requires Around(c, id)
    ensures forall x :: x in Elements(Spell(c, Leaf)) ==> x.id != id
  {
    assert Spell(c, Leaf) == Before(c) + After(c);
  }

  /** Finds the first node that does not come before the key; `steps` counts the nodes compared. */
  method NFind(h: Head, id: int) returns (r: IdNode?, ghost steps: nat)
    requires h.Valid()
    ensures r == null ==> forall x :: x in Nodes(h.tree) ==> Compare(id, x.id) > 0
    ensures r != null ==> FirstNotBefore(h.tree, id, r)
    ensures steps == Comparisons(h.tree, id)
    ensures Pow2(steps) <= (|InOrder(h.tree)| + 1) * (|InOrder(h.tree)| + 1)
  {
    hide Shape, CtxShape, Nodes, CtxNodes, Distinct, Plug, Ordered, Around, RedBlack, InOrder, Spell, Before, After;
    var tmp, _, _, next, c, t := h.Descend(id);
    steps := Visited(c, t);
    ShapeRoot(tmp, Parent(c), t);
    PlugOrder(c, t);
    if tmp != null {
      r := tmp;
      FoundFirst(h.tree, c, t, id);
    } else {
      r := next;
      HoleFirst(h.tree, c, id);
    }
  }

  /** `r` is the first node that does not come before the key. */
  ghost predicate FirstNotBefore(t: Tree, id: int, r: IdNode) {
    && r in Nodes(t) && Compare(id, r.id) <= 0
    && (forall x :: x in Nodes(t) && Compare(id, x.id) <= 0 ==> x == r || Compare(r.id, x.id) < 0)
  }

  lemma FoundFirst(tree: Tree, c: Ctx, t: Tree, id: int)
    requires t.Fork? && Ordered(InOrder(tree)) && InOrder(tree) == Spell(c, t) && t.node.id == id
    ensures FirstNotBefore(tree, id, t.node)
  {
    hide Ordered, InOrder, Spell, Before;
    FoundPosition(c, t, id);
    FirstByPosition(tree, id, |Before(c) + InOrder(t.left)|);
  }

  lemma HoleFirst(tree: Tree, c: Ctx, id: int)
    requires Ordered(InOrder(tree)) && InOrder(tree) == Spell(c, Leaf) && Around(c, id)
    ensures After(c) == [] ==> forall x :: x in Nodes(tree) ==> Compare(id, x.id) > 0
    ensures After(c) != [] ==> FirstNotBefore(tree, id, After(c)[0])
  {
    hide Ordered, InOrder, Spell, Before, After, Around;
    HolePosition(c, id);
    FirstByPosition(tree, id, |Before(c)|);
    SeamAt(Before(c), After(c));
  }

  lemma SeamAt(a: seq<IdNode>, b: seq<IdNode>)
    ensures b == [] ==> |a| == |a + b|
    ensures b != [] ==> (a + b)[|a|] == b[0] && |a| < |a + b|
  {
  }

  /** What the position that separates the nodes before a key from the others says about the nodes. */
  lemma FirstByPosition(t: Tree, id: int, i: nat)
    requires Ordered(InOrder(t)) && i <= |InOrder(t)|
    requires forall j :: 0 <= j < i ==> Compare(id, InOrder(t)[j].id) > 0
    requires forall j :: i <= j < |InOrder(t)| ==> Compare(id, InOrder(t)[j].id) <= 0
    ensures i == |InOrder(t)| ==> forall x :: x in Nodes(t) ==> Compare(id, x.id) > 0
    ensures i < |InOrder(t)| ==> FirstNotBefore(t, id, InOrder(t)[i])
  {
    hide Nodes, InOrder;
    var o := InOrder(t);
    InOrderNodes(t);
    forall x | x in Nodes(t) ensures exists j :: 0 <= j < |o| && o[j] == x {
      assert x in Elements(o);
    }
  }

  lemma FoundPosition(c: Ctx, t: Tree, id: int)
    requires t.Fork? && Ordered(Spell(c, t)) && t.node.id == id
    ensures var i := |Before(c) + InOrder(t.left)|;
      && i < |Spell(c, t)| && Spell(c, t)[i] == t.node
      && (forall j :: 0 <= j < i ==> Compare(id, Spell(c, t)[j].id) > 0)
      && (forall j :: i <= j < |Spell(c, t)| ==> Compare(id, Spell(c, t)[j].id) <= 0)
  {
    hide Spell, InOrder, Before, After;
    var i := |Before(c) + InOrder(t.left)|;
    SpellNode(c, t);
    assert Spell(c, t)[i] == t.node;
  }

  lemma HolePosition(c: Ctx, id: int)
    requires Around(c, id)
    ensures var (i, s) := (|Before(c)|, Spell(c, Leaf));
      && s == Before(c) + After(c)
      && (forall j :: 0 <= j < i ==> Compare(id, s[j].id) > 0)
      && (forall j :: i <= j < |s| ==> Compare(id, s[j].id) < 0)
  {
    var s := Spell(c, Leaf);
    assert s == Before(c) + After(c);
    hide Spell, Before, After;
    forall j | |Before(c)| <= j < |s| ensures Compare(id, s[j].id) < 0 {
      assert s[j] == After(c)[j - |Before(c)|];
    }
  }

  // ----- Iteration -----

  /** The outermost node of a tree on side `s`. */
  ghost function End(s: Side, t: Tree): IdNode? {
    if t.Leaf? then null else if s.Left? then InOrder(t)[0] else InOrder(t)[|InOrder(t)| - 1]
  }

  /** The node next to a hole on side `s`. */
  ghost function Beyond(s: Side, c: Ctx): IdNode? {
    if s.Left? then (if Before(c) == [] then null else Before(c)[|Before(c)| - 1])
    else if After(c) == [] then null else After(c)[0]
  }

  lemma EndKid(s: Side, t: Tree)
    requires t.Fork?
    ensures End(s, t) == if t.Kid(s).Leaf? then t.node else End(s, t.Kid(s))
  {
    assert InOrder(t) == InOrder(t.left) + [t.node] + InOrder(t.right);
    if t.Kid(s).Fork? {
      assert t.Kid(s).node in InOrder(t.Kid(s));
    }
  }

  lemma BeyondUp(s: Side, c: Ctx)
    ensures Beyond(s, c) == if c.Top? then null else if c.side == s then Beyond(s, c.up) else c.node
  {
  }

  /** The loop that runs to the outermost node below `n` on side `s`. */
  method RunTo(n: IdNode, s: Side, ghost t: Tree, ghost p: IdNode?) returns (r: IdNode, ghost steps: nat)
    requires Shape(n, p, t)
    ensures r == End(s, t) && steps == Edge(s, t)
  {
    hide Shape, End;
    r, steps := n, 0;
    ghost var u, q := t, p;
    ShapeRoot(r, q, u);
    EndKid(s, u);
    ShapeRoot(r.Kid(s), r, u.Kid(s));
    while r.Kid(s) != null
      invariant Shape(r, q, u) && u.Fork? && u.node == r && End(s, u) == End(s, t)
      invariant r.Kid(s) == Root(u.Kid(s))
      invariant u.Kid(s).Leaf? ==> End(s, u) == r
      invariant steps + Edge(s, u) == Edge(s, t)
      decreases u
    {
      steps := steps + 1;
      ShapeRoot(r, q, u);
      EndKid(s, u);
      q, u := r, u.Kid(s);
      r := r.Kid(s);
      ShapeRoot(r, q, u);
      EndKid(s, u);
      ShapeRoot(r.Kid(s), r, u.Kid(s));
    }
  }

  /** The first node for a negative `val`, the last one otherwise. `steps` counts the nodes passed. */
  method MinMax(h: Head, val: int) returns (r: IdNode?, ghost steps: nat)
    requires h.Valid()
    ensures r == if InOrder(h.tree) == [] then null
                 else if val < 0 then InOrder(h.tree)[0] else InOrder(h.tree)[|InOrder(h.tree)| - 1]
    ensures steps == if h.tree.Leaf? then 0 else 1 + Edge(if val < 0 then Left else Right, h.tree)
    ensures Pow2(steps) <= (|InOrder(h.tree)| + 1) * (|InOrder(h.tree)| + 1)
  {
    ShapeRoot(h.root, null, h.tree);
    if h.root == null {
      return null, 0;
    }
    ghost var n;
    r, n := RunTo(h.root, if val < 0 then Left else Right, h.tree, null);
    steps := 1 + n;
    EdgeHeight(if val < 0 then Left else Right, h.tree);
    WithinHeight(h.tree, steps);
  }

  /** Whatever takes no more steps than a red-black tree has levels takes logarithmically many. */
  lemma WithinHeight(t: Tree, steps: nat)
    requires RedBlack(t) && steps <= Height(t)
    ensures Pow2(steps) <= (|InOrder(t)| + 1) * (|InOrder(t)| + 1)
  {
    Pow2Monotone(steps, Height(t));
    HeightBound(t);
  }

  /**
    The neighbour of `elm` on side `s`: `Right` is the next node, `Left` the previous one. `steps` counts the
    links followed, the last one out of the tree included.
   */
  method Neighbour(h: Head, elm: IdNode, s: Side, ghost i: nat) returns (r: IdNode?, ghost steps: nat)
    requires h.Valid() && i < |InOrder(h.tree)| && InOrder(h.tree)[i] == elm
    ensures s.Right? ==> r == if i + 1 < |InOrder(h.tree)| then InOrder(h.tree)[i + 1] else null
    ensures s.Left? ==> r == if i > 0 then InOrder(h.tree)[i - 1] else null
    ensures s.Right? ==> steps == if r == null then 1 - TollOf(h.tree, elm)
                                  else 2 + TollOf(h.tree, r) - TollOf(h.tree, elm)
    ensures Pow2(steps) <= (|InOrder(h.tree)| + 1) * (|InOrder(h.tree)| + 1)
  {
    hide Shape, CtxShape, Nodes, CtxNodes, Distinct, CtxDistinct, Plug, Ordered, RedBlack, InOrder, End, Beyond, TollOf;
    InOrderNodes(h.tree);
    ghost var c, t := Locate(h.tree, elm);
    PlugApart(c, t);
    UnplugShape(c, t, h.root);
    ShapeRoot(elm, Parent(c), t);
    NextTo(c, t, s, i);
    DepthHeight(c, t);
    NeighbourToll(c, t);
    ghost var n;
    if elm.Kid(s) != null {
      ShapeRoot(elm.Kid(s), elm, t.Kid(s));
      EdgeHeight(Flip(s), t.Kid(s));
      KidHeight(s, t);
      r, n := RunTo(elm.Kid(s), Flip(s), t.Kid(s), elm);
      steps := 1 + n;
    } else {
      ShapeRoot(elm.Kid(s), elm, t.Kid(s));
      ClimbDepth(s, c);
      KidHeight(s, t);
      r, steps := Climb(h, elm, s, c, t);
    }
    WithinHeight(h.tree, steps);
  }

  lemma KidHeight(s: Side, t: Tree)
    requires t.Fork?
    ensures Height(t.Kid(s)) + 1 <= Height(t)
  {
  }

  /** The links that lead to the next node, in the terms of this module. */
  lemma NeighbourToll(c: Ctx, t: Tree)
    requires t.Fork? && Distinct(Plug(c, t))
    ensures var r := if t.right.Leaf? then Beyond(Right, c) else End(Left, t.right);
            var steps := if t.right.Leaf? then RbCost.Climb(Right, c) else 1 + Edge(Left, t.right);
            steps == if r == null then 1 - TollOf(Plug(c, t), t.node)
                     else 2 + TollOf(Plug(c, t), r) - TollOf(Plug(c, t), t.node)
  {
    hide TollOf;
    NextToll(c, t);
    if t.right.Fork? {
      EdgeFirst(t.right);
    }
  }

  /** What stands next to the root of the tree in a hole. */
  lemma NextTo(c: Ctx, t: Tree, s: Side, i: nat)
    requires t.Fork? && Ordered(InOrder(Plug(c, t)))
    requires i < |InOrder(Plug(c, t))| && InOrder(Plug(c, t))[i] == t.node
    ensures var (o, r) := (InOrder(Plug(c, t)), if t.Kid(s).Leaf? then Beyond(s, c) else End(Flip(s), t.Kid(s)));
      && (s.Right? ==> r == if i + 1 < |o| then o[i + 1] else null)
      && (s.Left? ==> r == if i > 0 then o[i - 1] else null)
  {
    hide Plug;
    PlugOrder(c, t);
    var o := Spell(c, t);
    var k := |Before(c)| + |InOrder(t.left)|;
    assert o == (Before(c) + InOrder(t.left)) + [t.node] + (InOrder(t.right) + After(c));
    assert o[k] == t.node;
    assert i == k;
  }

  /** The walk up through the parent links while `elm` is the child on side `s`. */
  method Climb(h: Head, elm: IdNode, s: Side, ghost c0: Ctx, ghost t0: Tree) returns (r: IdNode?, ghost steps: nat)
    requires Shape(elm, Parent(c0), t0) && CtxShape(c0, elm, h.root) && Apart(c0, t0)
    ensures r == Beyond(s, c0) && steps == RbCost.Climb(s, c0)
  {
    hide Shape, CtxShape, Nodes, CtxNodes, Distinct, CtxDistinct, Make, Beyond;
    r, steps := elm, 0;
    ghost var c, t := c0, t0;
    while r.parent != null && r == r.parent.Kid(s)
      invariant r != null && Shape(r, Parent(c), t) && CtxShape(c, r, h.root) && Apart(c, t)
      invariant Beyond(s, c) == Beyond(s, c0) && steps + RbCost.Climb(s, c) == RbCost.Climb(s, c0)
      decreases c
    {
      ClimbUp(s, c);
      steps := steps + 1;
      ShapeRoot(r, Parent(c), t);
      SideOf(c, r, h.root);
      CtxShapeIn(c, r, h.root);
      BeyondUp(s, c);
      ApartIn(c, t);
      r := r.parent;
      ShapeMake(r, Parent(c.up), c.side, c.color, t, r, c.sibling);
      c, t := c.up, Make(c.side, c.color, t, c.node, c.sibling);
    }
    ShapeRoot(r, Parent(c), t);
    if c.In? {
      SideOf(c, r, h.root);
    }
    BeyondUp(s, c);
    ClimbUp(s, c);
    r, steps := r.parent, steps + 1;
  }

  /**
    The walk from the first node to the last, counting. All in all it follows two links for every node: `links`
    counts the link from the head and the last one, out of the tree, too.
   */
  method Walk(h: Head) returns (n: nat, ghost seen: seq<IdNode>, ghost links: nat)
    requires h.Valid()
    ensures seen == InOrder(h.tree) && n == |InOrder(h.tree)|
    ensures forall i, j :: 0 <= i < j < |seen| ==> seen[i].id > seen[j].id
    ensures links == 2 * n
  {
    hide Shape, Distinct, Ordered, RedBlack, InOrder, Nodes, TollOf;
    n, seen := 0, [];
    TreeAllocated(h.tree);
    var x;
    x, links := MinMax(h, -1);
    WalkStart(h.tree);
    while x != null
      invariant h.Valid() && n <= |InOrder(h.tree)| && seen == InOrder(h.tree)[..n]
      invariant x == if n < |InOrder(h.tree)| then InOrder(h.tree)[n] else null
      invariant links == if x == null then 2 * n else 1 + 2 * n + TollOf(h.tree, x)
      decreases |InOrder(h.tree)| - n
    {
      seen := seen + [x];
      ghost var more;
      x, more := Neighbour(h, x, Right, n);
      links := links + more;
      n := n + 1;
    }
    assert InOrder(h.tree)[..n] == InOrder(h.tree);
    Descending(InOrder(h.tree));
  }

  lemma WalkStart(t: Tree)
    requires Distinct(t)
    ensures t.Leaf? <==> InOrder(t) == []
    ensures t.Fork? ==> TollOf(t, InOrder(t)[0]) == Edge(Left, t)
  {
    if t.Fork? {
      EdgeFirst(t);
      FirstToll(t);
    }
  }

  lemma Descending(s: seq<IdNode>)
    requires Ordered(s)
    ensures forall i, j :: 0 <= i < j < |s| ==> s[i].id > s[j].id
  {
  }
}
