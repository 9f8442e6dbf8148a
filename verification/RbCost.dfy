/** How many turns the loops over a red-black tree take, as functions of the tree. */
module RbCost {
  import opened TreeOrder
  import opened Common
  import opened RbSpec
  import opened RbOrder

  // ----- Searching -----

  /** How many nodes a search for a key compares. */
  ghost function Comparisons(t: Tree, id: int): nat {
    if t.Leaf? then 0
    else if Compare(id, t.node.id) < 0 then 1 + Comparisons(t.left, id)
    else if Compare(id, t.node.id) > 0 then 1 + Comparisons(t.right, id)
    else 1
  }

  /** Where it ends. */
  ghost function Hole(c: Ctx, t: Tree, id: int): Ctx
    decreases t
  {
    if t.Leaf? || Compare(id, t.node.id) == 0 then c
    else if Compare(id, t.node.id) < 0 then Hole(Enter(c, t, Left), t.left, id)
    else Hole(Enter(c, t, Right), t.right, id)
  }

  lemma SearchStep(c: Ctx, t: Tree, id: int)
    ensures t.Leaf? ==> Comparisons(t, id) == 0 && Hole(c, t, id) == c
    ensures t.Fork? && Compare(id, t.node.id) == 0 ==> Comparisons(t, id) == 1 && Hole(c, t, id) == c
    ensures t.Fork? && Compare(id, t.node.id) < 0 ==>
      && Comparisons(t, id) == 1 + Comparisons(t.left, id) && Depth(Enter(c, t, Left)) == Depth(c) + 1
      && Hole(c, t, id) == Hole(Enter(c, t, Left), t.left, id)
    ensures t.Fork? && Compare(id, t.node.id) > 0 ==>
      && Comparisons(t, id) == 1 + Comparisons(t.right, id) && Depth(Enter(c, t, Right)) == Depth(c) + 1
      && Hole(c, t, id) == Hole(Enter(c, t, Right), t.right, id)
  {
  }

  // ----- Fixing up -----

  /** The turns of the insertion fix-up for a red node in this hole. */
  ghost function InsertTurns(c: Ctx): nat {
    if c.Top? || c.color.Black? then 0
    else if c.up.Top? || RootColor(c.up.sibling).Black? then 1
    else 1 + InsertTurns(c.up.up)
  }

  lemma InsertTurnsUp(c: Ctx)
    ensures c.Top? || c.color.Black? ==> InsertTurns(c) == 0
    ensures c.In? && c.color.Red? && c.up.In? ==>
              InsertTurns(c) == 1 + if RootColor(c.up.sibling).Red? then InsertTurns(c.up.up) else 0
  {
  }

  /**
    The turns of the removal fix-up for a tree in this hole that is one black node short; `red` says
    whether its root is red.
   */
  ghost function FixTurns(c: Ctx, red: bool): nat {
    if red || c.Top? then 0
    else
      var b := c.sibling;
      if b.Leaf? || b.color.Red? || RootColor(b.left).Red? || RootColor(b.right).Red? then 1
      else 1 + FixTurns(c.up, c.color.Red?)
  }

  /** The leftmost part of a tree, and the hole that it is in. */
  ghost function LeftPart(t: Tree): Tree {
    if t.Leaf? || t.left.Leaf? then t else LeftPart(t.left)
  }

  ghost function LeftHole(c: Ctx, t: Tree): Ctx
    decreases t
  {
    if t.Leaf? || t.left.Leaf? then c else LeftHole(Enter(c, t, Left), t.left)
  }

  lemma {:induction false} LeftInside(i: Ctx, o: Ctx, u: Tree)
    requires AllLeft(i) && u.Fork?
    ensures LeftHole(o, Plug(i, u)) == LeftHole(Append(i, o), u) && LeftPart(Plug(i, u)) == LeftPart(u)
    decreases i
  {
    if i.In? {
      LeftInside(i.up, o, Make(i.side, i.color, u, i.node, i.sibling));
    }
  }

  /** A path that only ever turns left. */
  ghost predicate AllLeft(c: Ctx) {
    c.In? ==> c.side.Left? && AllLeft(c.up)
  }

  /** The fix-up does not look at the nodes of its path, only at the colours. */
  lemma {:induction false} FixTurnsNode(i: Ctx, s: Side, k: Color, x: IdNode, y: IdNode, b: Tree, c: Ctx, red: bool)
    ensures FixTurns(Append(i, In(s, k, x, b, c)), red) == FixTurns(Append(i, In(s, k, y, b, c)), red)
    decreases i
  {
    if i.In? {
      FixTurnsNode(i.up, s, k, x, y, b, c, i.color.Red?);
    }
  }

  /**
    The turns of the fix-up when the root of `t` is taken out of the tree in this hole and has no child
    on side `Flip(s)`.
   */
  ghost function ThinTurns(c: Ctx, t: Tree, s: Side): nat {
    if t.Fork? && t.color.Black? then FixTurns(c, RootColor(t.Kid(s)).Red?) else 0
  }

  /** The turns of the removal of a node: at its own place, or at that of its successor. */
  ghost function RemovalTurns(c: Ctx, t: Tree): nat {
    if t.Leaf? then 0
    else if t.left.Leaf? then ThinTurns(c, t, Right)
    else if t.right.Leaf? then ThinTurns(c, t, Left)
    else ThinTurns(LeftHole(In(Right, t.color, t.node, t.left, c), t.right), LeftPart(t.right), Right)
  }

  /** The steps to the successor, if the node has two children. */
  ghost function RemovalWalk(t: Tree): nat {
    if t.Leaf? || t.left.Leaf? || t.right.Leaf? then 0 else Edge(Left, t.right)
  }

  // ----- Walking -----

  /** How far down the outermost node on side `s` lies. */
  ghost function Edge(s: Side, t: Tree): nat {
    if t.Leaf? || t.Kid(s).Leaf? then 0 else 1 + Edge(s, t.Kid(s))
  }

  lemma {:induction false} EdgeHeight(s: Side, t: Tree)
    ensures t.Fork? ==> Edge(s, t) < Height(t)
  {
    if t.Fork? {
      EdgeHeight(s, t.Kid(s));
    }
  }

  /** How many parent links lead from a hole to the first node on the other side, or out of the tree. */
  ghost function Climb(s: Side, c: Ctx): nat {
    if c.Top? then 1 else if c.side == s then 1 + Climb(s, c.up) else 1
  }

  lemma {:induction false} ClimbDepth(s: Side, c: Ctx)
    ensures 1 <= Climb(s, c) <= Depth(c) + 1
  {
    if c.In? {
      ClimbDepth(s, c.up);
    }
  }

  lemma ClimbUp(s: Side, c: Ctx)
    ensures Climb(s, c) == if c.In? && c.side == s then 1 + Climb(s, c.up) else 1
  {
  }

  /** The links to the left on the way down to a hole, less those to the right. */
  ghost function Toll(c: Ctx): int {
    if c.Top? then 0 else Toll(c.up) + if c.side.Left? then 1 else -1
  }

  /** The hole that holds the tree below `x`. */
  ghost function PlaceFrom(c: Ctx, t: Tree, x: IdNode): Ctx
    decreases t
  {
    if t.Leaf? || t.node == x then c
    else if x in Nodes(t.left) then PlaceFrom(Enter(c, t, Left), t.left, x)
    else PlaceFrom(Enter(c, t, Right), t.right, x)
  }

  /** The tree below `x`. */
  ghost function Subtree(t: Tree, x: IdNode): Tree {
    if t.Leaf? || t.node == x then t
    else if x in Nodes(t.left) then Subtree(t.left, x)
    else Subtree(t.right, x)
  }

  ghost function TollOf(t: Tree, x: IdNode): int {
    Toll(PlaceFrom(Top, t, x))
  }

  lemma {:induction false} PlaceInside(c: Ctx, t: Tree, x: IdNode)
    requires Distinct(Plug(c, t)) && x in Nodes(t)
    ensures PlaceFrom(Top, Plug(c, t), x) == PlaceFrom(c, t, x)
    ensures Subtree(Plug(c, t), x) == Subtree(t, x)
    decreases c
  {
    if c.In? {
      var m := Make(c.side, c.color, t, c.node, c.sibling);
      PlaceInside(c.up, m, x);
      PlugApart(c.up, m);
    }
  }

  /** The outermost node on the left: as many links to the left as it lies down. */
  lemma {:induction false} EdgeToll(c: Ctx, t: Tree)
    requires t.Fork? && Distinct(t)
    ensures var x := EdgeNode(t); x in Nodes(t) && Toll(PlaceFrom(c, t, x)) == Toll(c) + Edge(Left, t)
    decreases t
  {
    if t.left.Fork? {
      EdgeToll(Enter(c, t, Left), t.left);
    }
  }

  /** The first node of a tree. */
  ghost function EdgeNode(t: Tree): IdNode
    requires t.Fork?
  {
    if t.left.Leaf? then t.node else EdgeNode(t.left)
  }

  lemma {:induction false} EdgeFirst(t: Tree)
    requires t.Fork?
    ensures InOrder(t) != [] && InOrder(t)[0] == EdgeNode(t)
  {
    if t.left.Fork? {
      EdgeFirst(t.left);
    }
  }

  /** The first node above a hole that the hole is on the left of. */
  ghost function ClimbTo(c: Ctx): Ctx {
    if c.In? && c.side.Right? then ClimbTo(c.up) else c
  }

  lemma {:induction false} ClimbToll(c: Ctx)
    ensures var u := ClimbTo(c);
            && (u.Top? ==> After(c) == [] && Climb(Right, c) == 1 - Toll(c))
            && (u.In? ==> u.side.Left? && After(c) != [] && After(c)[0] == u.node
                          && Climb(Right, c) == 2 + Toll(u.up) - Toll(c))
  {
    if c.In? && c.side.Right? {
      ClimbToll(c.up);
    }
  }

  /** The tree with the hole of `ClimbTo` filled. */
  lemma {:induction false} ClimbPlug(c: Ctx, t: Tree) returns (v: Tree)
    requires ClimbTo(c).In?
    ensures var u := ClimbTo(c); Plug(c, t) == Plug(u.up, Make(Left, u.color, v, u.node, u.sibling))
    decreases c
  {
    if c.side.Right? {
      v := ClimbPlug(c.up, Make(c.side, c.color, t, c.node, c.sibling));
    } else {
      v := t;
    }
  }

  /** What one step to the next node adds, and the last one. */
  lemma NextToll(c: Ctx, t: Tree)
    requires t.Fork? && Distinct(Plug(c, t))
    ensures TollOf(Plug(c, t), t.node) == Toll(c)
    ensures t.right.Fork? ==>
      1 + Edge(Left, t.right) == 2 + TollOf(Plug(c, t), EdgeNode(t.right)) - Toll(c)
    ensures t.right.Leaf? && After(c) == [] ==> Climb(Right, c) == 1 - Toll(c)
    ensures t.right.Leaf? && After(c) != [] ==>
      Climb(Right, c) == 2 + TollOf(Plug(c, t), After(c)[0]) - Toll(c)
  {
    PlugApart(c, t);
    PlaceInside(c, t, t.node);
    if t.right.Fork? {
      var x := EdgeNode(t.right);
      EdgeToll(Enter(c, t, Right), t.right);
      assert x in Nodes(t.right) && x !in Nodes(t.left) && x != t.node;
      PlaceInside(c, t, x);
    } else {
      ClimbToll(c);
      var u := ClimbTo(c);
      if u.In? {
        var v := ClimbPlug(c, t);
        PlaceInside(u.up, Make(Left, u.color, v, u.node, u.sibling), u.node);
      }
    }
  }

  /** The first node. */
  lemma FirstToll(t: Tree)
    requires t.Fork? && Distinct(t)
    ensures TollOf(t, EdgeNode(t)) == Edge(Left, t)
  {
    EdgeToll(Top, t);
  }
}
