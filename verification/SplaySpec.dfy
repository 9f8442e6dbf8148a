/**
  Splay trees: the tree that linked nodes stand for, and the two spines on which a
  top-down splay collects what comes before and what comes after the key.
 */
module SplaySpec {
  import opened TreeOrder
  import opened Common

  class Node {
    const key: int
    var left: Node?
    var right: Node?

    constructor (key: int)
      ensures this.key == key && left == null && right == null
    {
      this.key, left, right := key, null, null;
    }

    function Kid(s: Side): Node?
      reads this
    {
      if s.Left? then left else right
    }
  }

  datatype Tree = Leaf | Fork(left: Tree, node: Node, right: Tree) {
    ghost function Kid(s: Side): Tree
      requires Fork?
    {
      if s.Left? then left else right
    }
  }

  ghost function Make(s: Side, near: Tree, x: Node, far: Tree): Tree {
    if s.Left? then Fork(near, x, far) else Fork(far, x, near)
  }

  ghost function Root(t: Tree): Node? {
    if t.Leaf? then null else t.node
  }

  ghost function Nodes(t: Tree): set<Node> {
    match t
    case Leaf => {}
    case Fork(l, x, r) => Nodes(l) + {x} + Nodes(r)
  }

  ghost function InOrder(t: Tree): seq<Node> {
    match t
    case Leaf => []
    case Fork(l, x, r) => InOrder(l) + [x] + InOrder(r)
  }

  ghost function Size(t: Tree): nat {
    match t
    case Leaf => 0
    case Fork(l, _, r) => Size(l) + 1 + Size(r)
  }

  ghost predicate Shape(n: Node?, t: Tree)
    reads Nodes(t)
    decreases t
  {
    match t
    case Leaf => n == null
    case Fork(l, x, r) => n == x && Shape(x.left, l) && Shape(x.right, r)
  }

  ghost predicate Ordered(s: seq<Node>) {
    forall i, j :: 0 <= i < j < |s| ==> Compare(s[i].key, s[j].key) < 0
  }

  /** Everything in `q` lies on side `s` of the key. */
  ghost predicate OnSide(s: Side, q: seq<Node>, key: int) {
    forall i :: 0 <= i < |q| ==> if s.Left? then Compare(key, q[i].key) > 0 else Compare(key, q[i].key) < 0
  }

  // ----- Spines -----

  /**
    A chain of nodes that lie on side `s` of the key, the innermost last: each keeps its outer
    subtree on side `s` and hands on to the next one on the other side.
   */
  datatype Spine = Empty | Snoc(up: Spine, outer: Tree, node: Node)

  ghost function SpineNodes(c: Spine): set<Node> {
    match c
    case Empty => {}
    case Snoc(up, o, x) => SpineNodes(up) + Nodes(o) + {x}
  }

  /** Concatenation in reading order: `a` is further out on side `s` than `b`. */
  ghost function Join<T>(s: Side, a: seq<T>, b: seq<T>): seq<T> {
    if s.Left? then a + b else b + a
  }

  ghost function SpineOrder(s: Side, c: Spine): seq<Node> {
    match c
    case Empty => []
    case Snoc(up, o, x) => Join(s, SpineOrder(s, up), Join(s, InOrder(o), [x]))
  }

  lemma JoinAssociates<T>(s: Side, a: seq<T>, b: seq<T>, c: seq<T>)
    ensures Join(s, Join(s, a, b), c) == Join(s, a, Join(s, b, c))
  {
  }

  lemma OrderMake(s: Side, near: Tree, x: Node, far: Tree)
    ensures InOrder(Make(s, near, x, far)) == Join(s, Join(s, InOrder(near), [x]), InOrder(far))
  {
    if s.Right? {
      assert InOrder(far) + [x] + InOrder(near) == InOrder(far) + ([x] + InOrder(near));
    }
  }

  /** The tree that a spine becomes when `t` fills its open end. */
  ghost function Fill(s: Side, c: Spine, t: Tree): Tree
    decreases c
  {
    match c
    case Empty => t
    case Snoc(up, o, x) => Fill(s, up, Make(s, o, x, t))
  }

  /** The links of a spine from `first` down to `end`. */
  ghost predicate Chain(s: Side, c: Spine, first: Node?, end: Node?)
    reads SpineNodes(c)
    decreases c
  {
    match c
    case Empty => first == end
    case Snoc(up, o, x) => x.Kid(Flip(s)) == end && Shape(x.Kid(s), o) && Chain(s, up, first, x)
  }

  /** The same while the innermost link is still to be set. */
  ghost predicate Open(s: Side, c: Spine, first: Node?)
    reads SpineNodes(c)
  {
    match c
    case Empty => true
    case Snoc(up, o, x) => Shape(x.Kid(s), o) && Chain(s, up, first, x)
  }

  lemma {:induction false} FillShape(s: Side, c: Spine, first: Node?, end: Node?, t: Tree)
    requires Chain(s, c, first, end) && Shape(end, t)
    ensures Shape(first, Fill(s, c, t))
    decreases c
  {
    match c
    case Empty =>
    case Snoc(up, o, x) => FillShape(s, up, first, x, Make(s, o, x, t));
  }

  lemma {:induction false} FillOrder(s: Side, c: Spine, t: Tree)
    ensures InOrder(Fill(s, c, t)) == Join(s, SpineOrder(s, c), InOrder(t))
    decreases c
  {
    hide InOrder, Make;
    match c
    case Empty =>
      assert Join(s, [], InOrder(t)) == InOrder(t);
    case Snoc(up, o, x) =>
      FillOrder(s, up, Make(s, o, x, t));
      OrderMake(s, o, x, t);
      JoinAssociates(s, SpineOrder(s, up), Join(s, InOrder(o), [x]), InOrder(t));
  }

  lemma {:induction false} FillNodes(s: Side, c: Spine, t: Tree)
    ensures Nodes(Fill(s, c, t)) == SpineNodes(c) + Nodes(t)
    decreases c
  {
    if c.Snoc? {
      FillNodes(s, c.up, Make(s, c.outer, c.node, t));
    }
  }

  // ----- Apartness from the order -----

  ghost predicate Distinct(t: Tree) {
    match t
    case Leaf => true
    case Fork(l, x, r) =>
      && Distinct(l) && Distinct(r)
      && x !in Nodes(l) && x !in Nodes(r) && Nodes(l) !! Nodes(r)
  }

  ghost predicate SpineDistinct(c: Spine) {
    match c
    case Empty => true
    case Snoc(up, o, x) =>
      && SpineDistinct(up) && Distinct(o)
      && x !in Nodes(o) && x !in SpineNodes(up) && Nodes(o) !! SpineNodes(up)
  }

  lemma NoDupJoin(a: seq<Node>, b: seq<Node>)
    requires NoDup(a + b)
    ensures NoDup(a) && NoDup(b) && Elements(a) !! Elements(b)
  {
    var s := a + b;
    assert forall i :: 0 <= i < |a| ==> s[i] == a[i];
    assert forall i :: 0 <= i < |b| ==> s[|a| + i] == b[i];
    forall i, j | 0 <= i < |a| && 0 <= j < |b| ensures a[i] != b[j] {
      assert s[i] != s[|a| + j];
    }
    forall i, j | 0 <= i < j < |b| ensures b[i] != b[j] {
      assert s[|a| + i] != s[|a| + j];
    }
  }

  lemma ElementsJoin(a: seq<Node>, b: seq<Node>)
    ensures Elements(a + b) == Elements(a) + Elements(b)
  {
  }

  lemma {:induction false} InOrderNodes(t: Tree)
    ensures Nodes(t) == Elements(InOrder(t))
  {
    if t.Fork? {
      InOrderNodes(t.left);
      InOrderNodes(t.right);
    }
  }

  lemma {:induction false} SpineOrderNodes(s: Side, c: Spine)
    ensures SpineNodes(c) == Elements(SpineOrder(s, c))
  {
    if c.Snoc? {
      SpineOrderNodes(s, c.up);
      InOrderNodes(c.outer);
    }
  }

  lemma {:induction false} NoDupDistinct(t: Tree)
    requires NoDup(InOrder(t))
    ensures Distinct(t)
  {
    if t.Fork? {
      NoDupJoin(InOrder(t.left) + [t.node], InOrder(t.right));
      NoDupJoin(InOrder(t.left), [t.node]);
      ElementsJoin(InOrder(t.left), [t.node]);
      NoDupDistinct(t.left);
      NoDupDistinct(t.right);
      InOrderNodes(t.left);
      InOrderNodes(t.right);
      assert t.node in Elements([t.node]);
    }
  }

  lemma NoDupJoinSide(s: Side, a: seq<Node>, b: seq<Node>)
    requires NoDup(Join(s, a, b))
    ensures NoDup(a) && NoDup(b) && Elements(a) !! Elements(b)
    ensures Elements(Join(s, a, b)) == Elements(a) + Elements(b)
  {
    if s.Left? {
      NoDupJoin(a, b);
    } else {
      NoDupJoin(b, a);
    }
  }

  lemma {:induction false} NoDupSpine(s: Side, c: Spine)
    requires NoDup(SpineOrder(s, c))
    ensures SpineDistinct(c)
  {
    hide NoDup, Elements, Join;
    if c.Snoc? {
      var (p, q) := (SpineOrder(s, c.up), Join(s, InOrder(c.outer), [c.node]));
      NoDupJoinSide(s, p, q);
      NoDupJoinSide(s, InOrder(c.outer), [c.node]);
      NoDupSpine(s, c.up);
      NoDupDistinct(c.outer);
      InOrderNodes(c.outer);
      SpineOrderNodes(s, c.up);
      SingleElement(c.node);
    }
  }

  lemma SingleElement(x: Node)
    ensures Elements([x]) == {x}
  {
  }

  /** The whole state of a splay, from first node to last. */
  ghost function Total(l: Spine, t: Tree, r: Spine): seq<Node> {
    SpineOrder(Left, l) + InOrder(t) + SpineOrder(Right, r)
  }

  ghost predicate Apart(l: Spine, t: Tree, r: Spine) {
    && SpineDistinct(l) && Distinct(t) && SpineDistinct(r)
    && SpineNodes(l) !! Nodes(t) && SpineNodes(r) !! Nodes(t) && SpineNodes(l) !! SpineNodes(r)
  }

  lemma TotalApart(l: Spine, t: Tree, r: Spine)
    requires NoDup(Total(l, t, r))
    ensures Apart(l, t, r)
    ensures Elements(Total(l, t, r)) == SpineNodes(l) + Nodes(t) + SpineNodes(r)
  {
    hide NoDup, Elements, SpineOrder, InOrder, Distinct, SpineDistinct, Nodes, SpineNodes;
    var (a, b, c) := (SpineOrder(Left, l), InOrder(t), SpineOrder(Right, r));
    NoDupJoin(a + b, c);
    NoDupJoin(a, b);
    ElementsJoin(a + b, c);
    ElementsJoin(a, b);
    NoDupSpine(Left, l);
    NoDupDistinct(t);
    NoDupSpine(Right, r);
    SpineOrderNodes(Left, l);
    InOrderNodes(t);
    SpineOrderNodes(Right, r);
  }

  // ----- What the turns of a splay keep -----

  lemma RotateOrder(d: Side, a: Tree, y: Node, b: Tree, x: Node, c: Tree)
    ensures InOrder(Make(d, a, y, Make(d, b, x, c))) == InOrder(Make(d, Make(d, a, y, b), x, c))
  {
    hide InOrder, Make, Join;
    OrderMake(d, a, y, Make(d, b, x, c));
    OrderMake(d, b, x, c);
    OrderMake(d, Make(d, a, y, b), x, c);
    OrderMake(d, a, y, b);
    var p := Join(d, InOrder(a), [y]);
    JoinAssociates(d, p, Join(d, InOrder(b), [x]), InOrder(c));
    JoinAssociates(d, p, InOrder(b), [x]);
  }

  /** Moving the root of the middle tree onto a spine keeps the order. */
  lemma LinkOrder(l: Spine, t: Tree, r: Spine)
    requires t.Fork?
    ensures Total(Snoc(l, t.left, t.node), t.right, r) == Total(l, t, r)
    ensures Total(l, t.left, Snoc(r, t.right, t.node)) == Total(l, t, r)
  {
    var (p, q, a, b) := (SpineOrder(Left, l), SpineOrder(Right, r), InOrder(t.left), InOrder(t.right));
    Bracket(p, a, [t.node], b, q);
  }

  lemma Bracket<T>(p: seq<T>, a: seq<T>, x: seq<T>, b: seq<T>, q: seq<T>)
    ensures (p + (a + x)) + b + q == p + (a + x + b) + q
    ensures p + a + ((x + b) + q) == p + (a + x + b) + q
  {
  }

  /** The key is on side `d` of a node. */
  ghost predicate KeyOn(d: Side, key: int, x: Node) {
    if d.Left? then Compare(key, x.key) < 0 else Compare(key, x.key) > 0
  }

  /** Everything beyond the root of the middle tree lies on the same side of the key as the root. */
  lemma BeyondRoot(d: Side, key: int, l: Spine, t: Tree, r: Spine)
    requires t.Fork? && Ordered(Total(l, t, r)) && KeyOn(d, key, t.node)
    ensures OnSide(Flip(d), InOrder(t.Kid(Flip(d))), key)
  {
    hide Ordered;
    AroundRoot(SpineOrder(Left, l), InOrder(t.left), t.node, InOrder(t.right), SpineOrder(Right, r));
  }

  lemma AroundRoot(p: seq<Node>, a: seq<Node>, x: Node, b: seq<Node>, q: seq<Node>)
    requires Ordered(p + (a + [x] + b) + q)
    ensures forall i :: 0 <= i < |a| ==> Compare(a[i].key, x.key) < 0
    ensures forall i :: 0 <= i < |b| ==> Compare(x.key, b[i].key) < 0
  {
    var s := p + (a + [x] + b) + q;
    var k := |p| + |a|;
    assert s[k] == x;
    forall i | 0 <= i < |a| ensures Compare(a[i].key, x.key) < 0 {
      assert s[|p| + i] == a[i];
    }
    forall i | 0 <= i < |b| ensures Compare(x.key, b[i].key) < 0 {
      assert s[k + 1 + i] == b[i];
    }
  }

  lemma OnSideJoin(s: Side, z: Side, a: seq<Node>, b: seq<Node>, key: int)
    requires OnSide(s, a, key) && OnSide(s, b, key)
    ensures OnSide(s, Join(z, a, b), key)
  {
  }

  /** So the root can move onto the spine on that side. */
  lemma LinkSides(d: Side, key: int, l: Spine, t: Tree, r: Spine, c: Spine)
    requires t.Fork? && Ordered(Total(l, t, r)) && KeyOn(d, key, t.node)
    requires OnSide(Flip(d), SpineOrder(Flip(d), c), key)
    ensures OnSide(Flip(d), SpineOrder(Flip(d), Snoc(c, t.Kid(Flip(d)), t.node)), key)
  {
    hide InOrder, Join, Ordered, Total;
    var (s, o) := (Flip(d), InOrder(t.Kid(Flip(d))));
    BeyondRoot(d, key, l, t, r);
    OnSideJoin(s, s, o, [t.node], key);
    OnSideJoin(s, s, SpineOrder(s, c), Join(s, o, [t.node]), key);
  }

  /** The tree is split by the key: the root is the key, or nothing lies between the two. */
  ghost predicate Split(t: Tree, key: int)
    requires t.Fork?
  {
    OnSide(Left, InOrder(t.left), key) && OnSide(Right, InOrder(t.right), key)
  }

  lemma SplitAtEnd(d: Side, key: int, l: Spine, t: Tree, r: Spine)
    requires t.Fork? && Ordered(Total(l, t, r)) && KeyOn(d, key, t.node) && t.Kid(d) == Leaf
    ensures Split(t, key)
  {
    BeyondRoot(d, key, l, t, r);
  }

  lemma SplitAtKey(key: int, l: Spine, t: Tree, r: Spine)
    requires t.Fork? && Ordered(Total(l, t, r)) && Compare(key, t.node.key) == 0
    ensures Split(t, key)
  {
    hide Ordered;
    AroundRoot(SpineOrder(Left, l), InOrder(t.left), t.node, InOrder(t.right), SpineOrder(Right, r));
  }

  /** The assembled tree spells what the splay state spelled, and the key splits it. */
  lemma AssembledOrder(key: int, l: Spine, t: Tree, r: Spine)
    requires t.Fork?
    ensures var t' := Fork(Fill(Left, l, t.left), t.node, Fill(Right, r, t.right));
      && InOrder(t') == Total(l, t, r)
      && (OnSide(Left, SpineOrder(Left, l), key) && OnSide(Right, SpineOrder(Right, r), key) && Split(t, key) ==>
            Split(t', key))
  {
    hide Fill, OnSide, SpineOrder;
    FillOrder(Left, l, t.left);
    FillOrder(Right, r, t.right);
    var (p, q, a, b) := (SpineOrder(Left, l), SpineOrder(Right, r), InOrder(t.left), InOrder(t.right));
    assert (p + a) + [t.node] + (b + q) == p + (a + [t.node] + b) + q;
    if OnSide(Left, p, key) && OnSide(Right, q, key) && Split(t, key) {
      OnSideJoin(Left, Left, p, a, key);
      OnSideJoin(Right, Right, q, b, key);
    }
  }

  /** In a split tree only the root can hold the key. */
  lemma SplitLookup(t: Tree, key: int)
    requires t.Fork? && Split(t, key)
    ensures forall x :: x in Nodes(t) && x.key == key ==> x == t.node
  {
    InOrderNodes(t.left);
    InOrderNodes(t.right);
  }

  /**
    The root of a split tree is the key or its neighbour: when the key comes before the root,
    so does every node before the root come before the key, and the other way round.
   */
  lemma SplitNeighbour(t: Tree, key: int)
    requires t.Fork? && Split(t, key) && Ordered(InOrder(t))
    ensures forall x :: x in Nodes(t) && Compare(x.key, t.node.key) < 0 ==> Compare(x.key, key) < 0
    ensures forall x :: x in Nodes(t) && Compare(x.key, t.node.key) > 0 ==> Compare(x.key, key) > 0
  {
    var (a, b) := (InOrder(t.left), InOrder(t.right));
    assert InOrder(t) == [] + (a + [t.node] + b) + [];
    assert Nodes(t) == Nodes(t.left) + {t.node} + Nodes(t.right);
    hide InOrder, Nodes, Ordered;
    AroundRoot([], a, t.node, b, []);
    InOrderNodes(t.left);
    InOrderNodes(t.right);
  }

  lemma OrderedParts(a: seq<Node>, b: seq<Node>)
    requires Ordered(a + b)
    ensures Ordered(a) && Ordered(b)
  {
    var s := a + b;
    assert forall i :: 0 <= i < |a| ==> s[i] == a[i];
    forall i, j | 0 <= i < j < |b| ensures Compare(b[i].key, b[j].key) < 0 {
      assert s[|a| + i] == b[i] && s[|a| + j] == b[j];
    }
  }

  lemma OrderedInsert(a: seq<Node>, x: Node, b: seq<Node>)
    requires Ordered(a + b) && OnSide(Left, a, x.key) && OnSide(Right, b, x.key)
    ensures Ordered(a + [x] + b)
  {
    var (s, r) := (a + [x] + b, a + b);
    forall i, j | 0 <= i < j < |s| ensures Compare(s[i].key, s[j].key) < 0 {
      if i != |a| && j != |a| {
        var (i', j') := (if i < |a| then i else i - 1, if j < |a| then j else j - 1);
        assert s[i] == r[i'] && s[j] == r[j'];
      }
    }
  }

  lemma OrderedDrop(a: seq<Node>, x: Node, b: seq<Node>)
    requires Ordered(a + [x] + b)
    ensures Ordered(a + b)
  {
    var (s, r) := (a + [x] + b, a + b);
    forall i, j | 0 <= i < j < |r| ensures Compare(r[i].key, r[j].key) < 0 {
      var (i', j') := (if i < |a| then i else i + 1, if j < |a| then j else j + 1);
      assert s[i'] == r[i] && s[j'] == r[j];
    }
  }

  /** Putting a new key between the two halves of a split tree. */
  lemma InsertSplit(t: Tree, x: Node)
    requires t.Fork? && Ordered(InOrder(t)) && Split(t, x.key) && Compare(x.key, t.node.key) != 0
    ensures var t' := if Compare(x.key, t.node.key) < 0 then Fork(t.left, x, Fork(Leaf, t.node, t.right))
                      else Fork(Fork(t.left, t.node, Leaf), x, t.right);
      Ordered(InOrder(t')) && Nodes(t') == Nodes(t) + {x}
  {
    var (a, b, m) := (InOrder(t.left), InOrder(t.right), [t.node]);
    hide InOrder;
    UnfoldInsert(t, x);
    if Compare(x.key, t.node.key) < 0 {
      assert a + m + b == a + (m + b);
      assert a + [x] + ([] + m + b) == a + [x] + (m + b);
      OnSideJoin(Right, Left, m, b, x.key);
      OrderedInsert(a, x, m + b);
    } else {
      assert (a + m + []) + [x] + b == (a + m) + [x] + b;
      OnSideJoin(Left, Left, a, m, x.key);
      OrderedInsert(a + m, x, b);
    }
  }

  lemma UnfoldInsert(t: Tree, x: Node)
    requires t.Fork?
    ensures var (a, b, m) := (InOrder(t.left), InOrder(t.right), [t.node]);
      && InOrder(t) == a + m + b
      && InOrder(Fork(t.left, x, Fork(Leaf, t.node, t.right))) == a + [x] + ([] + m + b)
      && InOrder(Fork(Fork(t.left, t.node, Leaf), x, t.right)) == (a + m + []) + [x] + b
      && Nodes(Fork(t.left, x, Fork(Leaf, t.node, t.right))) == Nodes(t) + {x}
      && Nodes(Fork(Fork(t.left, t.node, Leaf), x, t.right)) == Nodes(t) + {x}
  {
    hide InOrder, Nodes;
    Unfold(t.left, t.node, t.right);
    Unfold(Leaf, t.node, t.right);
    Unfold(t.left, t.node, Leaf);
    Unfold(t.left, x, Fork(Leaf, t.node, t.right));
    Unfold(Fork(t.left, t.node, Leaf), x, t.right);
  }

  lemma Unfold(l: Tree, x: Node, r: Tree)
    ensures InOrder(Fork(l, x, r)) == InOrder(l) + [x] + InOrder(r) && InOrder(Leaf) == []
    ensures Nodes(Fork(l, x, r)) == Nodes(l) + {x} + Nodes(r) && Nodes(Leaf) == {}
  {
  }

  /** A tree that lies wholly before the key, split by it, has nothing to the right of its root. */
  lemma SplitBelow(t: Tree, key: int)
    requires t.Fork? && Split(t, key) && OnSide(Left, InOrder(t), key)
    ensures t.right == Leaf
  {
    hide OnSide;
    OnSideTail(InOrder(t.left) + [t.node], InOrder(t.right), key);
    if t.right.Fork? {
      assert t.right.node in InOrder(t.right);
      NotBothSides(InOrder(t.right), key);
    }
  }

  lemma OnSideTail(a: seq<Node>, b: seq<Node>, key: int)
    requires OnSide(Left, a + b, key)
    ensures OnSide(Left, b, key)
  {
    forall i | 0 <= i < |b| ensures Compare(key, b[i].key) > 0 {
      assert (a + b)[|a| + i] == b[i];
    }
  }

  lemma NotBothSides(q: seq<Node>, key: int)
    requires OnSide(Left, q, key) && q != []
    ensures !OnSide(Right, q, key)
  {
    assert Compare(key, q[0].key) > 0;
  }

  lemma EmptyState(t: Tree, key: int)
    ensures Total(Empty, t, Empty) == InOrder(t)
    ensures OnSide(Left, SpineOrder(Left, Empty), key) && OnSide(Right, SpineOrder(Right, Empty), key)
    ensures forall s, n :: Open(s, Empty, n)
  {
  }

  lemma OrderedNoDup(s: seq<Node>)
    requires Ordered(s)
    ensures NoDup(s)
  {
  }

  // ----- Unfolding one level, for methods that keep the definitions hidden -----

  lemma ShapeMake(n: Node?, s: Side, a: Tree, x: Node, b: Tree)
    ensures Shape(n, Make(s, a, x, b)) <==> n == x && Shape(x.Kid(s), a) && Shape(x.Kid(Flip(s)), b)
    ensures Make(s, a, x, b).Fork? && Make(s, a, x, b).node == x
    ensures Make(s, a, x, b).Kid(s) == a && Make(s, a, x, b).Kid(Flip(s)) == b
  {
  }

  lemma ShapeRoot(n: Node?, t: Tree)
    requires Shape(n, t)
    ensures n == Root(t)
    ensures n != null ==> n in Nodes(t)
  {
  }

  lemma MakeKids(s: Side, t: Tree)
    requires t.Fork?
    ensures t == Make(s, t.Kid(s), t.node, t.Kid(Flip(s)))
    ensures Make(Flip(s), t.Kid(Flip(s)), t.node, t.Kid(s)) == t
  {
  }

  lemma NodesMake(s: Side, a: Tree, x: Node, b: Tree)
    ensures Nodes(Make(s, a, x, b)) == Nodes(a) + {x} + Nodes(b)
    ensures Distinct(Make(s, a, x, b)) <==>
      Distinct(a) && Distinct(b) && x !in Nodes(a) && x !in Nodes(b) && Nodes(a) !! Nodes(b)
    ensures Size(Make(s, a, x, b)) == Size(a) + 1 + Size(b)
  {
  }

  lemma OpenSnoc(s: Side, c: Spine, first: Node?)
    ensures c.Empty? ==> Open(s, c, first) && SpineNodes(c) == {} && SpineDistinct(c)
    ensures c.Snoc? ==> (Open(s, c, first) <==> Shape(c.node.Kid(s), c.outer) && Chain(s, c.up, first, c.node))
    ensures c.Snoc? ==> SpineNodes(c) == SpineNodes(c.up) + Nodes(c.outer) + {c.node}
    ensures c.Snoc? ==> (SpineDistinct(c) <==>
      && SpineDistinct(c.up) && Distinct(c.outer)
      && c.node !in Nodes(c.outer) && c.node !in SpineNodes(c.up) && Nodes(c.outer) !! SpineNodes(c.up))
  {
  }

  lemma ChainSnoc(s: Side, c: Spine, first: Node?, end: Node?)
    ensures c.Empty? ==> (Chain(s, c, first, end) <==> first == end)
    ensures c.Snoc? ==> (Chain(s, c, first, end) <==>
      c.node.Kid(Flip(s)) == end && Shape(c.node.Kid(s), c.outer) && Chain(s, c.up, first, c.node))
  {
  }

  lemma TreeAllocated(t: Tree)
    ensures forall x: Node :: x in Nodes(t) ==> allocated(x)
  {
  }

  lemma SpineAllocated(c: Spine)
    ensures forall x: Node :: x in SpineNodes(c) ==> allocated(x)
  {
    if c.Snoc? {
      TreeAllocated(c.outer);
    }
  }
}
