/**
  Red-black trees of identifier nodes: the value that a heap of linked nodes
  stands for, and the one-hole contexts that let a proof talk about a single
  place inside such a tree.
 */
module RbSpec {
  import opened TreeOrder
  import opened Common

  datatype Color = Red | Black

  /** A tree node: the key, the payload and the intrusive tree entry. */
  class IdNode {
    const id: int
    const name: string
    var left: IdNode?
    var right: IdNode?
    var parent: IdNode?
    var color: Color

    constructor (id: int, name: string)
      ensures this.id == id && this.name == name
    {
      this.id, this.name := id, name;
      left, right, parent, color := null, null, null, Black;
    }

    function Kid(s: Side): IdNode?
      reads this
    {
      if s.Left? then left else right
    }
  }

  datatype Tree = Leaf | Fork(color: Color, left: Tree, node: IdNode, right: Tree) {
    ghost function Kid(s: Side): Tree
      requires Fork?
    {
      if s.Left? then left else right
    }
  }

  /** The tree with `near` on side `s` and `far` on the other side. */
  ghost function Make(s: Side, k: Color, near: Tree, x: IdNode, far: Tree): Tree {
    if s.Left? then Fork(k, near, x, far) else Fork(k, far, x, near)
  }

  ghost function Nodes(t: Tree): set<IdNode> {
    match t
    case Leaf => {}
    case Fork(_, l, x, r) => Nodes(l) + {x} + Nodes(r)
  }

  ghost function InOrder(t: Tree): seq<IdNode> {
    match t
    case Leaf => []
    case Fork(_, l, x, r) => InOrder(l) + [x] + InOrder(r)
  }

  /** No node occurs twice. */
  ghost predicate Distinct(t: Tree) {
    match t
    case Leaf => true
    case Fork(_, l, x, r) =>
      && Distinct(l) && Distinct(r)
      && x !in Nodes(l) && x !in Nodes(r) && Nodes(l) !! Nodes(r)
  }

  ghost function Root(t: Tree): IdNode? {
    if t.Leaf? then null else t.node
  }

  ghost function RootColor(t: Tree): Color {
    if t.Leaf? then Black else t.color
  }

  ghost function Weight(c: Color): nat {
    if c.Black? then 1 else 0
  }

  /** Number of black nodes on the leftmost path. */
  ghost function BlackHeight(t: Tree): nat {
    match t
    case Leaf => 0
    case Fork(c, l, _, _) => BlackHeight(l) + Weight(c)
  }

  /** Every path to a leaf has the same number of black nodes. */
  ghost predicate Balanced(t: Tree) {
    match t
    case Leaf => true
    case Fork(_, l, _, r) => Balanced(l) && Balanced(r) && BlackHeight(l) == BlackHeight(r)
  }

  /** A red node has black children. */
  ghost predicate NoRedRed(t: Tree) {
    match t
    case Leaf => true
    case Fork(c, l, _, r) =>
      && NoRedRed(l) && NoRedRed(r)
      && (c.Red? ==> RootColor(l).Black? && RootColor(r).Black?)
  }

  ghost predicate RedBlack(t: Tree) {
    NoRedRed(t) && Balanced(t) && RootColor(t).Black?
  }

  /** Strictly in comparator order, that is, strictly descending identifiers. */
  ghost predicate Ordered(s: seq<IdNode>) {
    forall i, j :: 0 <= i < j < |s| ==> Compare(s[i].id, s[j].id) < 0
  }

  // ----- Contexts -----

  /** A tree with one hole, from the hole outwards: the hole is on `side` of `node`. */
  datatype Ctx = Top | In(side: Side, color: Color, node: IdNode, sibling: Tree, up: Ctx)

  ghost function Plug(c: Ctx, t: Tree): Tree
    decreases c
  {
    match c
    case Top => t
    case In(s, k, x, b, up) => Plug(up, Make(s, k, t, x, b))
  }

  ghost function CtxNodes(c: Ctx): set<IdNode> {
    match c
    case Top => {}
    case In(_, _, x, b, up) => {x} + Nodes(b) + CtxNodes(up)
  }

  ghost predicate CtxDistinct(c: Ctx) {
    match c
    case Top => true
    case In(_, _, x, b, up) =>
      && Distinct(b) && CtxDistinct(up)
      && x !in Nodes(b) && x !in CtxNodes(up) && Nodes(b) !! CtxNodes(up)
  }

  /** The nodes of `c` and of `t` are all different. */
  ghost predicate Apart(c: Ctx, t: Tree) {
    CtxDistinct(c) && Distinct(t) && CtxNodes(c) !! Nodes(t)
  }

  ghost function Before(c: Ctx): seq<IdNode> {
    match c
    case Top => []
    case In(s, _, x, b, up) => if s.Left? then Before(up) else Before(up) + InOrder(b) + [x]
  }

  ghost function After(c: Ctx): seq<IdNode> {
    match c
    case Top => []
    case In(s, _, x, b, up) => if s.Left? then [x] + InOrder(b) + After(up) else After(up)
  }

  /** The node directly above the hole. */
  ghost function Parent(c: Ctx): IdNode? {
    if c.Top? then null else c.node
  }

  ghost function Depth(c: Ctx): nat {
    if c.Top? then 0 else 1 + Depth(c.up)
  }

  /** Filling the hole with a tree of black height `h` gives every path the same black count. */
  ghost predicate CtxBalanced(c: Ctx, h: nat) {
    match c
    case Top => true
    case In(_, k, _, b, up) => Balanced(b) && BlackHeight(b) == h && CtxBalanced(up, h + Weight(k))
  }

  /** No red node has a red child and the outermost node is black. */
  ghost predicate CtxNoRedRed(c: Ctx) {
    match c
    case Top => true
    case In(_, k, _, b, up) =>
      && NoRedRed(b) && CtxNoRedRed(up)
      && (k.Red? ==> RootColor(b).Black? && !up.Top? && up.color.Black?)
  }

  /** Concatenation of five pieces, bracketed three ways. */
  lemma Nest<T>(a: seq<T>, b: seq<T>, c: seq<T>, d: seq<T>, e: seq<T>)
    ensures a + (b + c + d) + e == a + b + (c + d + e)
    ensures a + (b + c + d) + e == (a + b + c) + d + e
  {
  }

  lemma {:induction false} PlugOrder(c: Ctx, t: Tree)
    ensures InOrder(Plug(c, t)) == Spell(c, t)
    decreases c
  {
    match c
    case Top =>
    case In(s, k, x, b, up) =>
      PlugOrder(up, Make(s, k, t, x, b));
      if s.Left? {
        Nest(Before(up), InOrder(t), [x], InOrder(b), After(up));
      } else {
        Nest(Before(up), InOrder(b), [x], InOrder(t), After(up));
      }
  }

  lemma {:induction false} PlugApart(c: Ctx, t: Tree)
    ensures Nodes(Plug(c, t)) == CtxNodes(c) + Nodes(t)
    ensures Distinct(Plug(c, t)) <==> Apart(c, t)
    decreases c
  {
    match c
    case Top =>
    case In(s, k, x, b, up) => PlugApart(up, Make(s, k, t, x, b));
  }

  /** The nodes around and inside the hole, from first to last. */
  ghost function Spell(c: Ctx, t: Tree): seq<IdNode> {
    Before(c) + InOrder(t) + After(c)
  }

  lemma {:induction false} InOrderNodes(t: Tree)
    ensures Nodes(t) == Elements(InOrder(t))
  {
    if t.Fork? {
      InOrderNodes(t.left);
      InOrderNodes(t.right);
    }
  }

  lemma NoDupParts(a: seq<IdNode>, x: IdNode, b: seq<IdNode>)
    requires NoDup(a + [x] + b)
    ensures NoDup(a) && NoDup(b) && x !in a && x !in b && Elements(a) !! Elements(b)
  {
    var s := a + [x] + b;
    assert forall i :: 0 <= i < |a| ==> s[i] == a[i];
    assert s[|a|] == x;
    assert forall i :: 0 <= i < |b| ==> s[|a| + 1 + i] == b[i];
    forall i, j | 0 <= i < |a| && 0 <= j < |b| ensures a[i] != b[j] {
      assert s[i] != s[|a| + 1 + j];
    }
    forall i, j | 0 <= i < j < |b| ensures b[i] != b[j] {
      assert s[|a| + 1 + i] != s[|a| + 1 + j];
    }
  }

  lemma {:induction false} NoDupDistinct(t: Tree)
    requires NoDup(InOrder(t))
    ensures Distinct(t)
  {
    if t.Fork? {
      NoDupParts(InOrder(t.left), t.node, InOrder(t.right));
      NoDupDistinct(t.left);
      NoDupDistinct(t.right);
      InOrderNodes(t.left);
      InOrderNodes(t.right);
    }
  }

  /** A sequence without repetition keeps the context and the tree in its hole apart. */
  lemma SpellApart(c: Ctx, t: Tree)
    requires NoDup(Spell(c, t))
    ensures Apart(c, t)
  {
    PlugOrder(c, t);
    NoDupDistinct(Plug(c, t));
    PlugApart(c, t);
  }

  lemma SpellNodes(c: Ctx, t: Tree)
    ensures Elements(Spell(c, t)) == CtxNodes(c) + Nodes(t)
  {
    PlugOrder(c, t);
    InOrderNodes(Plug(c, t));
    PlugApart(c, t);
  }

  /** Moving the focus to a child or back spells the same nodes. */
  lemma SpellMake(c: Ctx, s: Side, k: Color, a: Tree, x: IdNode, b: Tree)
    ensures Spell(c, Make(s, k, a, x, b)) == Spell(In(s, k, x, b, c), a)
  {
    if s.Left? {
      Nest(Before(c), InOrder(a), [x], InOrder(b), After(c));
    } else {
      Nest(Before(c), InOrder(b), [x], InOrder(a), After(c));
    }
  }

  lemma {:induction false} PlugBalanced(c: Ctx, t: Tree)
    ensures Balanced(Plug(c, t)) <==> Balanced(t) && CtxBalanced(c, BlackHeight(t))
    decreases c
  {
    match c
    case Top =>
    case In(s, k, x, b, up) => PlugBalanced(up, Make(s, k, t, x, b));
  }

  lemma {:induction false} PlugNoRedRed(c: Ctx, t: Tree)
    ensures NoRedRed(Plug(c, t)) && (RootColor(Plug(c, t)).Black? || c.Top?) <==>
            NoRedRed(t) && CtxNoRedRed(c) && (RootColor(t).Red? ==> c.Top? || c.color.Black?)
    decreases c
  {
    match c
    case Top =>
    case In(s, k, x, b, up) => PlugNoRedRed(up, Make(s, k, t, x, b));
  }

  // ----- The heap of linked nodes that stands for a tree -----

  /** `n` is the root, below `p`, of linked nodes that spell out `t`. */
  ghost predicate Shape(n: IdNode?, p: IdNode?, t: Tree)
    reads Nodes(t)
    decreases t
  {
    match t
    case Leaf => n == null
    case Fork(k, l, x, r) =>
      && n == x && x.parent == p && x.color == k
      && Shape(x.left, x, l) && Shape(x.right, x, r)
  }

  /** The linked nodes around the hole spell out `c`; the hole holds `n` and `root` is on top. */
  ghost predicate CtxShape(c: Ctx, n: IdNode?, root: IdNode?)
    reads CtxNodes(c)
    decreases c
  {
    match c
    case Top => n == root
    case In(s, k, x, b, up) =>
      && x.Kid(s) == n && x.color == k && x.parent == Parent(up)
      && Shape(x.Kid(Flip(s)), x, b) && CtxShape(up, x, root)
  }

  lemma {:induction false} PlugShape(c: Ctx, t: Tree, n: IdNode?, root: IdNode?)
    requires CtxShape(c, n, root) && Shape(n, Parent(c), t)
    ensures Shape(root, null, Plug(c, t))
    decreases c
  {
    match c
    case Top =>
    case In(s, k, x, b, up) => PlugShape(up, Make(s, k, t, x, b), x, root);
  }

  /** The converse: any focus on a linked tree finds its part of the links. */
  lemma {:induction false} UnplugShape(c: Ctx, t: Tree, root: IdNode?)
    requires Shape(root, null, Plug(c, t))
    ensures CtxShape(c, Root(t), root) && Shape(Root(t), Parent(c), t)
    decreases c
  {
    if c.In? {
      UnplugShape(c.up, Make(c.side, c.color, t, c.node, c.sibling), root);
    }
  }

  /** Every node of a tree is the root of the tree in some hole. */
  lemma {:induction false} Locate(t: Tree, x: IdNode) returns (c: Ctx, s: Tree)
    requires x in Nodes(t)
    ensures Plug(c, s) == t && s.Fork? && s.node == x
  {
    if t.node == x {
      c, s := Top, t;
    } else {
      var d := if x in Nodes(t.left) then Left else Right;
      var c';
      c', s := Locate(t.Kid(d), x);
      c := Append(c', In(d, t.color, t.node, t.Kid(Flip(d)), Top));
      AppendPlug(c', In(d, t.color, t.node, t.Kid(Flip(d)), Top), s);
    }
  }

  /** The context `i` inside the hole of `o`. */
  ghost function Append(i: Ctx, o: Ctx): Ctx {
    match i
    case Top => o
    case In(s, k, x, b, up) => In(s, k, x, b, Append(up, o))
  }

  lemma {:induction false} AppendPlug(i: Ctx, o: Ctx, t: Tree)
    ensures Plug(Append(i, o), t) == Plug(o, Plug(i, t))
    decreases i
  {
    if i.In? {
      AppendPlug(i.up, o, Make(i.side, i.color, t, i.node, i.sibling));
    }
  }

  // ----- Unfolding one level, for methods that keep the definitions hidden -----

  lemma ShapeMake(n: IdNode?, p: IdNode?, s: Side, k: Color, a: Tree, x: IdNode, b: Tree)
    ensures Shape(n, p, Make(s, k, a, x, b)) <==>
            && n == x && x.parent == p && x.color == k
            && Shape(x.Kid(s), x, a) && Shape(x.Kid(Flip(s)), x, b)
  {
  }

  lemma ShapeLeaf(n: IdNode?, p: IdNode?)
    ensures Shape(n, p, Leaf) <==> n == null
    ensures Nodes(Leaf) == {} && Distinct(Leaf)
  {
  }

  lemma ShapeRoot(n: IdNode?, p: IdNode?, t: Tree)
    requires Shape(n, p, t)
    ensures n == Root(t)
    ensures n != null ==>
      && n == t.node && n.color == t.color && n.parent == p && n in Nodes(t)
      && Shape(n.left, n, t.left) && Shape(n.right, n, t.right)
  {
  }

  lemma CtxShapeIn(c: Ctx, n: IdNode?, root: IdNode?)
    ensures c.Top? ==> (CtxShape(c, n, root) <==> n == root)
    ensures c.In? ==> (CtxShape(c, n, root) <==>
      && c.node.Kid(c.side) == n && c.node.color == c.color && c.node.parent == Parent(c.up)
      && Shape(c.node.Kid(Flip(c.side)), c.node, c.sibling) && CtxShape(c.up, c.node, root))
  {
  }

  /** Comparing a child link tells on which side of its parent a node hangs. */
  lemma SideOf(c: Ctx, n: IdNode, root: IdNode?)
    requires c.In? && CtxShape(c, n, root) && n !in CtxNodes(c)
    ensures c.node.left == n <==> c.side.Left?
    ensures c.node.right == n <==> c.side.Right?
  {
    ShapeRoot(c.node.Kid(Flip(c.side)), c.node, c.sibling);
  }

  /** The same for a hole that may be empty, next to a sibling that is not. */
  lemma SideOfHole(c: Ctx, n: IdNode?, root: IdNode?, t: Tree)
    requires c.In? && CtxShape(c, n, root) && Shape(n, Parent(c), t) && Apart(c, t) && c.sibling.Fork?
    ensures c.node.left == n <==> c.side.Left?
  {
    ShapeRoot(c.node.Kid(Flip(c.side)), c.node, c.sibling);
    ShapeRoot(n, Parent(c), t);
  }

  lemma {:induction false} RootInCtx(c: Ctx, n: IdNode?, root: IdNode?)
    requires c.In? && CtxShape(c, n, root)
    ensures root != null && root in CtxNodes(c)
  {
    if c.up.In? {
      RootInCtx(c.up, c.node, root);
    }
  }

  /** The hole holds the root of the whole tree exactly when there is nothing around it. */
  lemma TopShape(c: Ctx, n: IdNode?, root: IdNode?, t: Tree)
    requires CtxShape(c, n, root) && Shape(n, Parent(c), t) && Apart(c, t)
    ensures n == root <==> c.Top?
  {
    ShapeRoot(n, Parent(c), t);
    if c.In? {
      RootInCtx(c, n, root);
    }
  }

  /** What the colour tests on both children of a node find. */
  lemma KidColors(n: IdNode, p: IdNode?, t: Tree)
    requires Shape(n, p, t)
    ensures t.Fork?
    ensures n.left == null || n.left.color.Black? <==> RootColor(t.left).Black?
    ensures n.right == null || n.right.color.Black? <==> RootColor(t.right).Black?
    ensures n.left == Root(t.left) && n.right == Root(t.right)
  {
  }

  lemma ParentIn(c: Ctx)
    requires c.In?
    ensures c.node in CtxNodes(c)
  {
  }

  lemma MakeKids(t: Tree, s: Side)
    requires t.Fork?
    ensures t == Make(s, t.color, t.Kid(s), t.node, t.Kid(Flip(s)))
  {
  }

  lemma MakeFlip(s: Side, k: Color, a: Tree, x: IdNode, b: Tree)
    ensures Make(Flip(s), k, b, x, a) == Make(s, k, a, x, b)
  {
  }

  /** The nodes of a context and of the tree in its hole, one level down. */
  lemma ApartMake(c: Ctx, s: Side, k: Color, a: Tree, x: IdNode, b: Tree)
    ensures Nodes(Make(s, k, a, x, b)) == Nodes(a) + {x} + Nodes(b)
    ensures Distinct(Make(s, k, a, x, b)) <==>
      Distinct(a) && Distinct(b) && x !in Nodes(a) && x !in Nodes(b) && Nodes(a) !! Nodes(b)
    ensures Apart(c, Make(s, k, a, x, b)) <==>
      && CtxDistinct(c) && Distinct(a) && Distinct(b) && x !in CtxNodes(c)
      && x !in Nodes(a) && x !in Nodes(b)
      && Nodes(a) !! Nodes(b) && Nodes(a) !! CtxNodes(c) && Nodes(b) !! CtxNodes(c)
  {
  }

  lemma CtxNodesIn(c: Ctx)
    requires c.In?
    ensures CtxNodes(c) == {c.node} + Nodes(c.sibling) + CtxNodes(c.up)
    ensures CtxDistinct(c) <==>
      && Distinct(c.sibling) && CtxDistinct(c.up)
      && c.node !in Nodes(c.sibling) && c.node !in CtxNodes(c.up) && Nodes(c.sibling) !! CtxNodes(c.up)
  {
  }

  /** A context and the tree in its hole, one level up. */
  lemma ApartIn(c: Ctx, t: Tree)
    requires c.In? && Apart(c, t)
    ensures Apart(c.up, Make(c.side, c.color, t, c.node, c.sibling))
    ensures CtxNodes(c) == {c.node} + Nodes(c.sibling) + CtxNodes(c.up)
    ensures Distinct(t) && Distinct(c.sibling) && CtxDistinct(c) && CtxDistinct(c.up)
    ensures c.node !in Nodes(t) && c.node !in Nodes(c.sibling) && c.node !in CtxNodes(c.up)
    ensures Nodes(t) !! CtxNodes(c) && Nodes(t) !! Nodes(c.sibling)
    ensures Nodes(c.sibling) !! CtxNodes(c.up)
    ensures Nodes(Make(c.side, c.color, t, c.node, c.sibling)) == Nodes(t) + {c.node} + Nodes(c.sibling)
  {
  }

  lemma TreeAllocated(t: Tree)
    ensures forall x: IdNode :: x in Nodes(t) ==> allocated(x)
  {
  }

  lemma CtxAllocated(c: Ctx)
    ensures forall x: IdNode :: x in CtxNodes(c) ==> allocated(x)
  {
    if c.In? {
      TreeAllocated(c.sibling);
    }
  }
}
