/** The linked splay tree: top-down splay, and find, insert and remove on top of it. */
module Splay {
  import opened TreeOrder
  import opened SplaySpec
  import opened SplayCost
  import opened SplayAccount
  import opened Common

  method SetKid(x: Node, s: Side, n: Node?)
    modifies x
    ensures x.Kid(s) == n && x.Kid(Flip(s)) == old(x.Kid(Flip(s)))
  {
    if s.Left? {
      x.left := n;
    } else {
      x.right := n;
    }
  }

  /** The node whose inner link is open: the innermost of the spine, or the header of both spines. */
  ghost function Last(c: Spine, node: Node): Node {
    if c.Empty? then node else c.node
  }

  class Head {
    var root: Node?
    ghost var tree: Tree
    /** How many turns all splays together have taken, in how many operations, and how large the tree has been. */
    ghost var spent: nat
    ghost var ops: nat
    ghost var most: nat

    constructor ()
      ensures Valid() && Balanced() && tree == Leaf && spent == 0 && ops == 0 && most == 0
    {
      root, tree, spent, ops, most := null, Leaf, 0, 0, 0;
    }

    /** Operations take logarithmically many turns on average, counted from the empty tree. */
    ghost predicate Balanced()
      reads this
    {
      Paid(spent, tree, ops, most)
    }

    ghost predicate Valid()
      reads this, Nodes(tree)
    {
      Shape(root, tree) && Ordered(InOrder(tree))
    }

    /** Rotates the child `tmp` on side `d` of the root above the root. */
    method RotateUp(tmp: Node, d: Side, ghost t: Tree) returns (ghost t': Tree)
      requires Shape(root, t) && Distinct(t) && t.Fork? && t.Kid(d).Fork? && tmp == t.Kid(d).node
      modifies this`root, root, tmp
      ensures t' == Make(d, t.Kid(d).Kid(d), tmp, Make(d, t.Kid(d).Kid(Flip(d)), t.node, t.Kid(Flip(d))))
      ensures Shape(root, t') && Nodes(t') == Nodes(t)
    {
      hide Shape, Nodes, Distinct, Make;
      ghost var u := t.Kid(d);
      ghost var a, b, c := u.Kid(d), u.Kid(Flip(d)), t.Kid(Flip(d));
      MakeKids(d, t);
      MakeKids(d, u);
      ShapeMake(root, d, u, t.node, c);
      ShapeMake(tmp, d, a, tmp, b);
      ShapeRoot(root.Kid(d), u);
      NodesMake(d, u, t.node, c);
      NodesMake(d, a, tmp, b);
      TreeAllocated(t);
      var x := root;
      SetKid(x, d, tmp.Kid(Flip(d)));
      SetKid(tmp, Flip(d), x);
      root := tmp;
      ghost var v := Make(d, b, x, c);
      t' := Make(d, a, tmp, v);
      ShapeMake(x, d, b, x, c);
      ShapeMake(tmp, d, a, tmp, v);
      NodesMake(d, b, x, c);
      NodesMake(d, a, tmp, v);
    }

    /** Moves the root to the open end of the spine on side `s`; the child on the other side becomes the root. */
    method Link(node: Node, last: Node, s: Side, ghost c: Spine, ghost o: Spine, ghost t: Tree)
      returns (last': Node, ghost c': Spine)
      requires Shape(root, t) && t.Fork? && last == Last(c, node)
      requires Open(s, c, node.Kid(Flip(s))) && Open(Flip(s), o, node.Kid(s))
      requires SpineDistinct(c) && Distinct(t) && SpineNodes(c) !! Nodes(t) && SpineNodes(o) !! Nodes(t)
          && SpineNodes(o) !! SpineNodes(c)
      requires node !in SpineNodes(c) + Nodes(t) + SpineNodes(o)
      modifies this`root, last
      ensures c' == Snoc(c, t.Kid(s), t.node) && last' == Last(c', node)
      ensures Shape(root, t.Kid(Flip(s)))
      ensures Open(s, c', node.Kid(Flip(s))) && Open(Flip(s), o, node.Kid(s))
    {
      hide Shape, Nodes, Distinct, Make, Open, Chain, SpineNodes, SpineDistinct;
      c' := Snoc(c, t.Kid(s), t.node);
      var x := root;
      MakeKids(s, t);
      ShapeMake(x, s, t.Kid(s), t.node, t.Kid(Flip(s)));
      NodesMake(s, t.Kid(s), t.node, t.Kid(Flip(s)));
      OpenSnoc(s, c, node.Kid(Flip(s)));
      TreeAllocated(t);
      SpineAllocated(c);
      SpineAllocated(o);
      SetKid(last, Flip(s), x);
      last' := x;
      root := x.Kid(Flip(s));
      ChainSnoc(s, c, node.Kid(Flip(s)), x);
      OpenSnoc(s, c', node.Kid(Flip(s)));
    }

    /**
      The zig-zig step: rotates if the key is also beyond the child on side `d`. Says whether that side
      is now empty.
     */
    method ZigZig(node: Node, key: int, d: Side, ghost l: Spine, ghost t: Tree, ghost r: Spine)
      returns (stop: bool, ghost t': Tree)
      requires Shape(root, t) && t.Fork? && Open(Left, l, node.right) && Open(Right, r, node.left)
      requires NoDup(Total(l, t, r)) && node !in Elements(Total(l, t, r)) && KeyOn(d, key, t.node)
      modifies this`root, Nodes(t)
      ensures Shape(root, t') && t'.Fork? && Open(Left, l, node.right) && Open(Right, r, node.left)
      ensures Total(l, t', r) == Total(l, t, r) && KeyOn(d, key, t'.node) && Size(t') == Size(t)
      ensures stop <==> t'.Kid(d).Leaf?
      ensures Zigged(d, key, t, t')
    {
      hide Shape, Nodes, Distinct, Make, Open, Chain, SpineNodes, SpineDistinct, NoDup, Elements, InOrder, SpineOrder,
          Size;
      t' := t;
      TotalApart(l, t, r);
      MakeKids(d, t);
      ShapeMake(root, d, t.Kid(d), t.node, t.Kid(Flip(d)));
      NodesMake(d, t.Kid(d), t.node, t.Kid(Flip(d)));
      ShapeRoot(root.Kid(d), t.Kid(d));
      TreeAllocated(t);
      SpineAllocated(l);
      SpineAllocated(r);
      var tmp := root.Kid(d);
      if tmp == null {
        return true, t;
      }
      if (d.Left? && Compare(key, tmp.key) < 0) || (d.Right? && Compare(key, tmp.key) > 0) {
        ghost var u, c := t.Kid(d), t.Kid(Flip(d));
        ghost var a, b := u.Kid(d), u.Kid(Flip(d));
        MakeKids(d, u);
        RotateOrder(d, a, tmp, b, t.node, c);
        NodesMake(d, a, tmp, b);
        NodesMake(d, b, t.node, c);
        NodesMake(d, a, tmp, Make(d, b, t.node, c));
        t' := RotateUp(tmp, d, t);
        ShapeMake(root, d, a, tmp, Make(d, b, t.node, c));
        ShapeRoot(root.Kid(d), a);
        if root.Kid(d) == null {
          return true, t';
        }
      }
      stop := false;
    }

    /** One turn of the splay loop towards side `d`. It stops when there is nothing further on that side. */
    method Turn(node: Node, left: Node, right: Node, key: int, d: Side, ghost l: Spine, ghost t: Tree, ghost r: Spine)
      returns (stop: bool, left': Node, right': Node, ghost l': Spine, ghost t': Tree, ghost r': Spine, ghost v: Tree)
      requires Shape(root, t) && t.Fork? && left == Last(l, node) && right == Last(r, node)
      requires Open(Left, l, node.right) && Open(Right, r, node.left)
      requires Ordered(Total(l, t, r)) && node !in Elements(Total(l, t, r)) && KeyOn(d, key, t.node)
      requires OnSide(Left, SpineOrder(Left, l), key) && OnSide(Right, SpineOrder(Right, r), key)
      modifies this`root, node, Elements(Total(l, t, r))
      ensures Shape(root, t') && t'.Fork? && left' == Last(l', node) && right' == Last(r', node)
      ensures Open(Left, l', node.right) && Open(Right, r', node.left)
      ensures Total(l', t', r') == Total(l, t, r)
      ensures OnSide(Left, SpineOrder(Left, l'), key) && OnSide(Right, SpineOrder(Right, r'), key)
      ensures stop ==> Split(t', key)
      ensures !stop ==> Size(t') < Size(t)
      ensures v.Fork? && Zigged(d, key, t, v) && (stop ==> l' == l && t' == v && r' == r && v.Kid(d).Leaf?)
      ensures !stop ==> Linked(d, l, v, r, l', t', r') && OnSide(Flip(d), InOrder(v.Kid(Flip(d))), key)
    {
      hide Shape, Nodes, Distinct, Make, Open, Chain, SpineNodes, SpineDistinct, Total, Ordered, NoDup, Elements,
          OnSide;
      hide InOrder, SpineOrder, Size, Split;
      left', right', l', r' := left, right, l, r;
      OrderedNoDup(Total(l, t, r));
      TotalApart(l, t, r);
      stop, t' := ZigZig(node, key, d, l, t, r);
      v := t';
      if stop {
        SplitAtEnd(d, key, l, t', r);
        return;
      }
      BeyondRoot(d, key, l, t', r);
      TotalApart(l, t', r);
      LinkOrder(l, t', r);
      MakeKids(d, t');
      NodesMake(d, t'.Kid(d), t'.node, t'.Kid(Flip(d)));
      OpenSnoc(Left, l, node.right);
      OpenSnoc(Right, r, node.left);
      if d.Left? {
        LinkSides(d, key, l, t', r, r);
        right', r' := Link(node, right, Right, r, l, t');
        t' := t'.left;
      } else {
        LinkSides(d, key, l, t', r, l);
        left', l' := Link(node, left, Left, l, r, t');
        t' := t'.right;
      }
    }

    /** Closes both spines around the root: what was collected before the key goes left, what was after it right. */
    method Assemble(node: Node, left: Node, right: Node, ghost l: Spine, ghost t: Tree, ghost r: Spine)
      returns (ghost t': Tree)
      requires Shape(root, t) && t.Fork? && left == Last(l, node) && right == Last(r, node)
      requires Open(Left, l, node.right) && Open(Right, r, node.left)
      requires NoDup(Total(l, t, r)) && node !in Elements(Total(l, t, r))
      modifies this`root, node, Elements(Total(l, t, r))
      ensures t' == Fork(Fill(Left, l, t.left), t.node, Fill(Right, r, t.right)) && Shape(root, t')
    {
      hide Shape, Nodes, Distinct, Make, Open, Chain, SpineNodes, SpineDistinct, Total, NoDup, Elements, InOrder,
          SpineOrder, Fill;
      TotalApart(l, t, r);
      MakeKids(Left, t);
      ShapeMake(root, Left, t.left, t.node, t.right);
      NodesMake(Left, t.left, t.node, t.right);
      OpenSnoc(Left, l, node.right);
      OpenSnoc(Right, r, node.left);
      TreeAllocated(t);
      SpineAllocated(l);
      SpineAllocated(r);
      left.right := root.left;
      ChainSnoc(Left, l, node.right, root.left);
      OpenSnoc(Right, r, node.left);
      right.left := root.right;
      ChainSnoc(Right, r, node.left, root.right);
      ghost var a, b := Fill(Left, l, t.left), Fill(Right, r, t.right);
      FillShape(Left, l, node.right, root.left, t.left);
      FillShape(Right, r, node.left, root.right, t.right);
      FillNodes(Left, l, t.left);
      FillNodes(Right, r, t.right);
      root.left := node.right;
      root.right := node.left;
      t' := Fork(a, t.node, b);
      MakeKids(Left, t');
      ShapeMake(root, Left, a, t.node, b);
    }

    /**
      Brings to the root the node with the key, or a neighbour of where the key would be, and
      keeps all nodes in order.
     */
    method Splay(key: int) returns (ghost turns: nat)
      requires Valid() && tree.Fork?
      modifies this, Nodes(tree)
      ensures Valid() && tree.Fork? && InOrder(tree) == old(InOrder(tree)) && Split(tree, key)
      ensures spent == old(spent) && ops == old(ops) && most == old(most) && Size(tree) == Size(old(tree))
      ensures turns == SplayTurns(old(tree), key) && tree == Splayed(Empty, old(tree), Empty, key)
      ensures turns + 2 * Potential(tree) <= 2 * Potential(old(tree)) + 6 * Log2(Size(old(tree))) + 2
    {
      hide Shape, Nodes, Distinct, Make, Open, Chain, SpineNodes, SpineDistinct, Total, Ordered, NoDup, Elements,
          OnSide;
      hide InOrder, SpineOrder, Size, Split, Fill, Ledger, Potential, Log2, Zigged, Linked, Standing, SplayTurns,
          Splayed;
      turns := 0;
      ghost var owe := None;
      ghost var budget := 2 * Potential(tree) + 4 * Log2(Size(tree));
      StartLedger(tree, key);
      SizeOrder(tree);
      InOrderNodes(tree);
      TreeAllocated(tree);
      var node := new Node(0);
      var left, right := node, node;
      ghost var l, t, r := Empty, tree, Empty;
      ghost var s := InOrder(tree);
      EmptyState(tree, key);
      OrderedNoDup(s);
      ghost var split := false;
      ShapeRoot(root, t);
      while Compare(key, root.key) != 0
        invariant Shape(root, t) && t.Fork? && root == t.node && left == Last(l, node) && right == Last(r, node)
        invariant Open(Left, l, node.right) && Open(Right, r, node.left)
        invariant Total(l, t, r) == s && tree == old(tree)
        invariant OnSide(Left, SpineOrder(Left, l), key) && OnSide(Right, SpineOrder(Right, r), key)
        invariant Ledger(turns, l, t, r, key, owe, budget)
        invariant turns + SplayTurns(t, key) == SplayTurns(old(tree), key)
        invariant Splayed(l, t, r, key) == Splayed(Empty, old(tree), Empty, key)
        invariant !split
        invariant spent == old(spent) && ops == old(ops) && most == old(most)
        decreases Size(t)
      {
        var stop;
        var d := if Compare(key, root.key) < 0 then Left else Right;
        ghost var v, l0, t0, r0;
        l0, t0, r0 := l, t, r;
        stop, left, right, l, t, r, v := Turn(node, left, right, key, d, l, t, r);
        ShapeRoot(root, t);
        if stop {
          SplayLast(d, l0, t0, v, r0, key);
          LastLedger(d, turns, l0, t0, v, r0, key, owe, budget);
          turns := turns + 1;
          split := true;
          break;
        }
        SplayNext(d, l0, t0, v, r0, l, t, r, key);
        owe := TurnLedger(d, turns, l0, t0, v, r0, l, t, r, key, owe, budget);
        turns := turns + 1;
      }
      if !split {
        SplitAtKey(key, l, t, r);
        SplayFound(l, t, r, key);
        EndLedger(turns, l, t, r, key, owe, budget);
      }
      AssembledOrder(key, l, t, r);
      AssembledCost(l, t, r, key);
      ghost var t' := Assemble(node, left, right, l, t, r);
      SizeOrder(t');
      InOrderNodes(t');
      tree := t';
    }

    /** The node with the key, if there is one; it is then at the root. */
    method Find(key: int) returns (r: Node?)
      requires Valid() && Balanced()
      modifies this, Nodes(tree)
      ensures Valid() && InOrder(tree) == old(InOrder(tree))
      ensures Balanced() && ops == old(ops) + 1 && most == old(most)
      ensures spent == old(spent) + SplayTurns(old(tree), key)
      ensures r != null ==> r in Nodes(tree) && r.key == key
      ensures r == null ==> forall x :: x in Nodes(tree) ==> x.key != key
    {
      hide Paid, Potential, Log2, Size, SplayTurns, Splayed;
      LeafTurns(key);
      ghost var t0 := tree;
      ShapeRoot(root, tree);
      if root == null {
        PaidNothing(spent, tree, ops, most);
        ops := ops + 1;
        return null;
      }
      ghost var turns := Splay(key);
      PaidSplay(spent, t0, ops, most, turns, tree);
      spent, ops := spent + turns, ops + 1;
      SplitLookup(tree, key);
      ShapeRoot(root, tree);
      if Compare(key, root.key) == 0 {
        return root;
      }
      return null;
    }

    /** Inserts `elm` unless its key is present; then the node that has the key is returned. */
    method Insert(elm: Node) returns (found: Node?)
      requires Valid() && Balanced()
      modifies this, Nodes(tree), elm
      ensures Valid()
      ensures Balanced() && ops == old(ops) + 1 && most == if old(most) < Size(tree) then Size(tree) else old(most)
      ensures spent == old(spent) + SplayTurns(old(tree), elm.key)
      ensures found != null ==> found in Nodes(tree) && found.key == elm.key && InOrder(tree) == old(InOrder(tree))
      ensures found == null ==>
        && (forall x :: x in old(Nodes(tree)) ==> x.key != elm.key)
        && Nodes(tree) == old(Nodes(tree)) + {elm}
    {
      hide Nodes, InOrder, Ordered, Shape, Split, Distinct, Paid, Potential, Log2, Size, SplayTurns, Splayed;
      LeafTurns(elm.key);
      ghost var t0 := tree;
      ShapeRoot(root, tree);
      if root == null {
        elm.left, elm.right := null, null;
        root := elm;
        PaidFirst(spent, ops, most, elm);
        SingletonSize(elm);
        tree := Fork(Leaf, elm, Leaf);
        ops, most := ops + 1, if most < 1 then 1 else most;
        SingletonShape(elm);
        return null;
      }
      InOrderNodes(tree);
      ghost var turns := Splay(elm.key);
      InOrderNodes(tree);
      SplitLookup(tree, elm.key);
      ShapeRoot(root, tree);
      var comp := Compare(elm.key, root.key);
      if comp == 0 {
        PaidSplay(spent, t0, ops, most, turns, tree);
        PaidSize(spent, t0, ops, most);
        spent, ops := spent + turns, ops + 1;
        return root;
      }
      ghost var t := tree;
      NewRoot(elm, comp);
      InsertCost(t.left, t.node, t.right, elm);
      PaidInsert(spent, t0, t, ops, most, turns, tree);
      spent, ops, most := spent + turns, ops + 1, if most < Size(tree) then Size(tree) else most;
      found := null;
    }

    /** Puts a node over the two halves of a tree that its key splits. */
    method NewRoot(elm: Node, comp: int)
      requires Valid() && tree.Fork? && Split(tree, elm.key) && elm !in Nodes(tree)
      requires comp == Compare(elm.key, tree.node.key) != 0
      modifies this`root, this`tree, root, elm
      ensures Valid() && Nodes(tree) == old(Nodes(tree)) + {elm}
      ensures var t := old(tree);
              tree == if comp < 0 then Fork(t.left, elm, Fork(Leaf, t.node, t.right))
                  else Fork(Fork(t.left, t.node, Leaf), elm, t.right)
    {
      hide Nodes, InOrder, Ordered, Shape, Split, Distinct;
      ghost var t := tree;
      ShapeRoot(root, t);
      InsertSplit(t, elm);
      OrderedNoDup(InOrder(t));
      NoDupDistinct(t);
      MakeKids(Left, t);
      ShapeMake(root, Left, t.left, t.node, t.right);
      NodesMake(Left, t.left, t.node, t.right);
      LeafShape();
      if comp < 0 {
        elm.left := root.left;
        elm.right := root;
        root.left := null;
        ShapeMake(root, Left, Leaf, root, t.right);
        ShapeMake(elm, Left, t.left, elm, Fork(Leaf, t.node, t.right));
        tree := Fork(t.left, elm, Fork(Leaf, t.node, t.right));
      } else {
        elm.right := root.right;
        elm.left := root;
        root.right := null;
        ShapeMake(root, Left, t.left, root, Leaf);
        ShapeMake(elm, Left, Fork(t.left, t.node, Leaf), elm, t.right);
        tree := Fork(Fork(t.left, t.node, Leaf), elm, t.right);
      }
      root := elm;
    }

    /** Removes the node with the key of `elm`; returns `elm` if there was one. */
    method Remove(elm: Node) returns (r: Node?)
      requires Valid() && Balanced()
      modifies this, Nodes(tree)
      ensures Valid()
      ensures Balanced() && ops == old(ops) + 1 && most == old(most)
      ensures spent == old(spent) + RemoveTurns(old(tree), elm.key)
      ensures r == null ==> InOrder(tree) == old(InOrder(tree)) && forall x :: x in Nodes(tree) ==> x.key != elm.key
      ensures r != null ==> r == elm
      ensures r != null ==>
        exists x :: x in old(Nodes(tree)) && x.key == elm.key && Nodes(tree) == old(Nodes(tree)) - {x}
    {
      hide Nodes, InOrder, Ordered, Shape, Split, Distinct, Elements, NoDup, Paid, Potential, Log2, Size, SplayTurns,
          Splayed;
      LeafTurns(elm.key);
      ghost var t0 := tree;
      ShapeRoot(root, tree);
      if root == null {
        PaidNothing(spent, tree, ops, most);
        ops := ops + 1;
        LeafShape();
        return null;
      }
      InOrderNodes(tree);
      ghost var turns := Splay(elm.key);
      InOrderNodes(tree);
      SplitLookup(tree, elm.key);
      ShapeRoot(root, tree);
      if Compare(elm.key, root.key) != 0 {
        PaidSplay(spent, t0, ops, most, turns, tree);
        spent, ops := spent + turns, ops + 1;
        return null;
      }
      ghost var t := tree;
      ghost var x := t.node;
      RemoveSplit(t, elm.key);
      OrderedNoDup(InOrder(t));
      NoDupDistinct(t);
      MakeKids(Left, t);
      ShapeMake(root, Left, t.left, t.node, t.right);
      NodesMake(Left, t.left, t.node, t.right);
      ShapeRoot(root.left, t.left);
      TreeAllocated(t.right);
      if root.left == null {
        root := root.right;
        PaidRight(spent, t0, t, ops, most, turns);
        spent, ops := spent + turns, ops + 1;
        tree := t.right;
        LeafShape();
      } else {
        var tmp := root.right;
        root := root.left;
        tree := t.left;
        ghost var again, u := TakeOver(tmp, elm.key, t);
        PaidRemove(spent, t0, t, ops, most, turns, again, u);
        spent, ops := spent + turns + again, ops + 1;
      }
      assert x.key == elm.key && Nodes(tree) == old(Nodes(tree)) - {x};
      r := elm;
    }

    /** Splays what is left of the removed root to its last node, which then takes over the right half. */
    method TakeOver(tmp: Node?, key: int, ghost t: Tree) returns (ghost again: nat, ghost u: Tree)
      requires t.Fork? && t.left.Fork? && Valid() && tree == t.left && Shape(tmp, t.right)
          && Nodes(t.left) !! Nodes(t.right)
      requires OnSide(Left, InOrder(t.left), key) && Ordered(InOrder(t.left) + InOrder(t.right))
      modifies this, Nodes(tree)
      ensures Valid() && u.Fork? && u.right == Leaf && tree == Fork(u.left, u.node, t.right)
      ensures Nodes(tree) == Nodes(t.left) + Nodes(t.right) && Size(u) == Size(t.left)
      ensures spent == old(spent) && ops == old(ops) && most == old(most)
      ensures again == SplayTurns(t.left, key)
      ensures again + 2 * Potential(u) <= 2 * Potential(t.left) + 6 * Log2(Size(t.left)) + 2
    {
      hide Nodes, InOrder, Ordered, Shape, Split, Distinct, Elements, NoDup, Potential, Log2, Size;
      TreeAllocated(t.right);
      again := Splay(key);
      SplitBelow(tree, key);
      u := tree;
      ShapeRoot(root, u);
      InOrderNodes(u);
      InOrderNodes(t.left);
      OrderedNoDup(InOrder(u));
      NoDupDistinct(u);
      MakeKids(Left, u);
      ShapeMake(root, Left, u.left, u.node, Leaf);
      NodesMake(Left, u.left, u.node, Leaf);
      LeafShape();
      JoinRest(u, t);
      root.right := tmp;
      tree := Fork(u.left, u.node, t.right);
      ShapeMake(root, Left, u.left, u.node, t.right);
    }
  }

  /** Both halves of a tree that the key splits, without its root. */
  lemma RemoveSplit(t: Tree, key: int)
    requires t.Fork? && Ordered(InOrder(t)) && Split(t, key)
    ensures Ordered(InOrder(t.left)) && Ordered(InOrder(t.right)) && OnSide(Left, InOrder(t.left), key)
    ensures Ordered(InOrder(t.left) + InOrder(t.right))
  {
    hide InOrder, Ordered;
    Unfold(t.left, t.node, t.right);
    OrderedDrop(InOrder(t.left), t.node, InOrder(t.right));
    OrderedParts(InOrder(t.left), InOrder(t.right));
  }

  /** Hanging the right half below the last node of the left half. */
  lemma JoinRest(u: Tree, t: Tree)
    requires t.Fork? && u.Fork? && u.right == Leaf && InOrder(u) == InOrder(t.left)
    requires Ordered(InOrder(t.left) + InOrder(t.right))
    ensures var v := Fork(u.left, u.node, t.right); Ordered(InOrder(v)) && Nodes(v) == Nodes(u) + Nodes(t.right)
  {
    hide InOrder, Ordered, Nodes;
    Unfold(u.left, u.node, t.right);
    Unfold(u.left, u.node, Leaf);
    assert InOrder(u.left) + [u.node] + [] == InOrder(u.left) + [u.node];
  }

  lemma LeafTurns(key: int)
    ensures SplayTurns(Leaf, key) == 0
  {
  }

  lemma SingletonSize(x: Node)
    ensures Size(Fork(Leaf, x, Leaf)) == 1
  {
  }

  lemma LeafShape()
    ensures Shape(null, Leaf) && Nodes(Leaf) == {}
  {
  }

  lemma SingletonShape(x: Node)
    requires x.left == null && x.right == null
    ensures Shape(x, Fork(Leaf, x, Leaf)) && Ordered(InOrder(Fork(Leaf, x, Leaf)))
    ensures Nodes(Fork(Leaf, x, Leaf)) == {x} && Nodes(Leaf) == {}
  {
  }

  datatype Op = Look(key: int) | Put(node: Node) | Drop(node: Node)

  /** The nodes that a sequence of operations brings along. */
  ghost function Brought(ops: seq<Op>): set<Node> {
    set i | 0 <= i < |ops| && ops[i].Put? :: ops[i].node
  }

  /**
    The Balance Theorem: any sequence of operations on a tree that was empty once takes logarithmically many
    turns for each of them, on average. From the empty tree, m operations take at most m (14 log2(n) + 4) turns,
    when there are never more than n nodes.
   */
  method Session(h: Head, ops: seq<Op>)
    requires h.Valid() && h.Balanced()
    modifies h, Nodes(h.tree), Brought(ops)
    ensures h.Valid() && h.Balanced() && h.ops == old(h.ops) + |ops|
    ensures h.spent <= h.ops * (14 * Log2(h.most) + 4)
    ensures old(h.ops) == 0 ==> h.spent <= |ops| * (14 * Log2(h.most) + 4)
  {
    hide Nodes, InOrder, Ordered, Shape, Paid, SplayTurns, Splayed, RemoveTurns;
    var i := 0;
    while i < |ops|
      invariant i <= |ops| && h.Valid() && h.Balanced() && h.ops == old(h.ops) + i
      invariant Nodes(h.tree) <= old(Nodes(h.tree)) + Brought(ops)
    {
      InOrderNodes(h.tree);
      match ops[i] {
        case Look(key) =>
          var _ := h.Find(key);
        case Put(node) =>
          assert node in Brought(ops);
          var _ := h.Insert(node);
        case Drop(node) =>
          var _ := h.Remove(node);
      }
      InOrderNodes(h.tree);
      i := i + 1;
    }
    PaidTurns(h.spent, h.tree, h.ops, h.most);
  }

  lemma PaidTurns(spent: nat, t: Tree, ops: nat, most: nat)
    requires Paid(spent, t, ops, most)
    ensures spent <= ops * (14 * Log2(most) + 4)
  {
  }
}
