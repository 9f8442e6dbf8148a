/** What a splay does, as a function of the tree, and the account of any number of operations. */
module SplayAccount {
  import opened TreeOrder
  import opened SplaySpec
  import opened SplayCost

  // ----- What a splay does, as a function of the tree -----

  /** The side of a node on which to look for the key. */
  function SideOf(key: int, x: Node): Side {
    if Compare(key, x.key) < 0 then Left else Right
  }

  /** How many turns a splay takes from the middle tree `t` on. */
  ghost function SplayTurns(t: Tree, key: int): nat {
    if t.Leaf? || Compare(key, t.node.key) == 0 then 0
    else
      var d := SideOf(key, t.node);
      var u := t.Kid(d);
      if u.Leaf? then 1
      else if KeyOn(d, key, u.node) then 1 + SplayTurns(u.Kid(d), key)
      else 1 + SplayTurns(u, key)
  }

  /** The tree that it leaves. */
  ghost function Splayed(l: Spine, t: Tree, r: Spine, key: int): Tree
    requires t.Fork?
    decreases t
  {
    var d := SideOf(key, t.node);
    var u := t.Kid(d);
    if Compare(key, t.node.key) == 0 || u.Leaf? then Closed(l, t, r)
    else if KeyOn(d, key, u.node) then
      var v := Rotated(d, t);
      if u.Kid(d).Leaf? then Closed(l, v, r)
      else if d.Left? then Splayed(l, u.left, Snoc(r, v.right, v.node), key)
      else Splayed(Snoc(l, v.left, v.node), u.right, r, key)
    else if d.Left? then Splayed(l, u, Snoc(r, t.right, t.node), key)
    else Splayed(Snoc(l, t.left, t.node), u, r, key)
  }

  ghost function Closed(l: Spine, t: Tree, r: Spine): Tree
    requires t.Fork?
  {
    Fork(Fill(Left, l, t.left), t.node, Fill(Right, r, t.right))
  }

  /** A turn that goes on. */
  lemma SplayNext(d: Side, l: Spine, t: Tree, v: Tree, r: Spine, l': Spine, t': Tree, r': Spine, key: int)
    requires t.Fork? && KeyOn(d, key, t.node) && Zigged(d, key, t, v)
    requires v.Fork? && Linked(d, l, v, r, l', t', r') && t'.Fork?
    ensures SplayTurns(t, key) == 1 + SplayTurns(t', key)
    ensures Splayed(l, t, r, key) == Splayed(l', t', r', key)
  {
  }

  /** The last turn. */
  lemma SplayLast(d: Side, l: Spine, t: Tree, v: Tree, r: Spine, key: int)
    requires t.Fork? && KeyOn(d, key, t.node) && Zigged(d, key, t, v) && v.Fork? && v.Kid(d).Leaf?
    ensures SplayTurns(t, key) == 1 && Splayed(l, t, r, key) == Closed(l, v, r)
  {
  }

  lemma SplayFound(l: Spine, t: Tree, r: Spine, key: int)
    requires t.Fork? && Compare(key, t.node.key) == 0
    ensures SplayTurns(t, key) == 0 && Splayed(l, t, r, key) == Closed(l, t, r)
  {
  }

  /** How many turns a removal takes: when it finds the key, it splays what was on the left once more. */
  ghost function RemoveTurns(t: Tree, key: int): nat {
    SplayTurns(t, key) +
    if t.Leaf? then 0
    else
      var u := Splayed(Empty, t, Empty, key);
      if u.Fork? && Compare(key, u.node.key) == 0 then SplayTurns(u.left, key) else 0
  }

  // ----- Any number of operations -----

  /**
    The account of a tree that was empty once: `spent` turns in `ops` operations, while the tree never had
    more than `most` nodes.
   */
  ghost predicate Paid(spent: nat, t: Tree, ops: nat, most: nat) {
    spent + 2 * Potential(t) <= ops * (14 * Log2(most) + 4) && Size(t) <= most
  }

  lemma PaidSize(spent: nat, t: Tree, ops: nat, most: nat)
    requires Paid(spent, t, ops, most)
    ensures Size(t) <= most
  {
  }

  lemma PaidNext(spent: nat, t: Tree, ops: nat, most: nat, spent': nat, t': Tree, most': nat)
    requires Paid(spent, t, ops, most) && most <= most' && Size(t') <= most'
    requires spent' + 2 * Potential(t') <= spent + 2 * Potential(t) + 14 * Log2(most') + 4
    ensures Paid(spent', t', ops + 1, most')
  {
    hide Log2, Potential;
    Log2Monotone(most, most');
    Scaled(ops, 14 * Log2(most) + 4, 14 * Log2(most') + 4);
  }

  lemma Scaled(n: nat, a: nat, b: nat)
    requires a <= b
    ensures n * a <= n * b && (n + 1) * b == n * b + b
  {
  }

  /** An account in which the turns of a splay have been entered. */
  lemma PaidSplay(spent: nat, t: Tree, ops: nat, most: nat, turns: nat, t': Tree)
    requires Paid(spent, t, ops, most) && Size(t') == Size(t)
    requires turns + 2 * Potential(t') <= 2 * Potential(t) + 6 * Log2(Size(t)) + 2
    ensures Paid(spent + turns, t', ops + 1, most)
  {
    hide Log2, Potential;
    Log2Monotone(Size(t), most);
    PaidNext(spent, t, ops, most, spent + turns, t', most);
  }

  /** A new root over the two halves of a tree, the old root on its right or on its left. */
  lemma InsertCost(l: Tree, y: Node, r: Tree, x: Node)
    ensures var (t, u) := (Fork(l, y, r), Fork(l, x, Fork(Leaf, y, r)));
            Size(u) == Size(t) + 1 && Potential(u) <= Potential(t) + Log2(Size(u))
    ensures var (t, u) := (Fork(l, y, r), Fork(Fork(l, y, Leaf), x, r));
            Size(u) == Size(t) + 1 && Potential(u) <= Potential(t) + Log2(Size(u))
  {
    hide Log2, Size, Potential;
    var (t, a, b) := (Fork(l, y, r), Fork(Leaf, y, r), Fork(l, y, Leaf));
    LeafSize();
    ForkSize(l, y, r);
    ForkSize(Leaf, y, r);
    ForkSize(l, y, Leaf);
    ForkSize(l, x, a);
    ForkSize(b, x, r);
    Log2Monotone(Size(a), Size(t));
    Log2Monotone(Size(b), Size(t));
  }

  lemma ForkSize(a: Tree, x: Node, b: Tree)
    ensures Size(Fork(a, x, b)) == Size(a) + Size(b) + 1
    ensures Potential(Fork(a, x, b)) == Log2(Size(Fork(a, x, b))) + Potential(a) + Potential(b)
  {
    hide Log2;
  }

  lemma LeafSize()
    ensures Size(Leaf) == 0 && Potential(Leaf) == 0
  {
  }

  lemma PaidInsert(spent: nat, t0: Tree, t: Tree, ops: nat, most: nat, turns: nat, u: Tree)
    requires Paid(spent, t0, ops, most) && Size(t) == Size(t0)
    requires turns + 2 * Potential(t) <= 2 * Potential(t0) + 6 * Log2(Size(t0)) + 2
    requires Size(u) == Size(t) + 1 && Potential(u) <= Potential(t) + Log2(Size(u))
    ensures Paid(spent + turns, u, ops + 1, if most < Size(u) then Size(u) else most)
  {
    hide Log2, Potential;
    var most' := if most < Size(u) then Size(u) else most;
    Log2Monotone(Size(t0), most');
    Log2Monotone(Size(u), most');
    PaidNext(spent, t0, ops, most, spent + turns, u, most');
  }

  lemma PaidFirst(spent: nat, ops: nat, most: nat, x: Node)
    requires Paid(spent, Leaf, ops, most)
    ensures Paid(spent, Fork(Leaf, x, Leaf), ops + 1, if most < 1 then 1 else most)
  {
    PaidNext(spent, Leaf, ops, most, spent, Fork(Leaf, x, Leaf), if most < 1 then 1 else most);
  }

  /** Removing the root: the left half is splayed again and takes the right half over. */
  lemma PaidRemove(spent: nat, t0: Tree, t: Tree, ops: nat, most: nat, turns: nat, again: nat, u: Tree)
    requires Paid(spent, t0, ops, most) && t.Fork? && Size(t) == Size(t0)
    requires turns + 2 * Potential(t) <= 2 * Potential(t0) + 6 * Log2(Size(t0)) + 2
    requires u.Fork? && u.right == Leaf && Size(u) == Size(t.left)
    requires again + 2 * Potential(u) <= 2 * Potential(t.left) + 6 * Log2(Size(t.left)) + 2
    ensures Paid(spent + turns + again, Fork(u.left, u.node, t.right), ops + 1, most)
  {
    var v := Fork(u.left, u.node, t.right);
    assert Potential(v) == Log2(Size(v)) + Potential(u.left) + Potential(t.right);
    assert Potential(t.left) + Potential(t.right) <= Potential(t) && Potential(u.left) <= Potential(u);
    assert Size(v) < Size(t);
    hide Log2, Potential, Size;
    Log2Monotone(Size(t0), most);
    Log2Monotone(Size(t.left), most);
    Log2Monotone(Size(v), most);
    PaidNext(spent, t0, ops, most, spent + turns + again, v, most);
  }

  lemma PaidRight(spent: nat, t0: Tree, t: Tree, ops: nat, most: nat, turns: nat)
    requires Paid(spent, t0, ops, most) && t.Fork? && Size(t) == Size(t0)
    requires turns + 2 * Potential(t) <= 2 * Potential(t0) + 6 * Log2(Size(t0)) + 2
    ensures Paid(spent + turns, t.right, ops + 1, most)
  {
    assert Potential(t.right) <= Potential(t) && Size(t.right) <= Size(t);
    hide Log2, Potential, Size;
    Log2Monotone(Size(t0), most);
    PaidNext(spent, t0, ops, most, spent + turns, t.right, most);
  }

  lemma PaidNothing(spent: nat, t: Tree, ops: nat, most: nat)
    requires Paid(spent, t, ops, most)
    ensures Paid(spent, t, ops + 1, most)
  {
    PaidNext(spent, t, ops, most, spent, t, most);
  }
}
