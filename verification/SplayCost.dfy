/**
  What a splay costs. The potential of a tree is the sum of the ranks of its subtrees, the rank
  being the logarithm of the size, rounded down. A splay may take many turns, but then the
  tree it leaves has so much less potential that turns are few on average.
 */
module SplayCost {
  import opened TreeOrder
  import opened SplaySpec
  import opened Powers
  import opened Common

  // ----- Ranks -----

  function Log2(n: nat): nat {
    if n <= 1 then 0 else 1 + Log2(n / 2)
  }

  lemma {:induction false} Log2Bounds(n: nat)
    requires n >= 1
    ensures Pow2(Log2(n)) <= n < 2 * Pow2(Log2(n))
  {
    if n > 1 {
      Log2Bounds(n / 2);
    }
  }

  lemma {:induction false} Log2Monotone(a: nat, b: nat)
    requires a <= b
    ensures Log2(a) <= Log2(b)
  {
    if a > 1 {
      Log2Monotone(a / 2, b / 2);
    }
  }

  /** Of two disjoint parts of something only one can have the rank of the whole. */
  lemma Log2Rest(a: nat, b: nat, n: nat)
    requires a + b <= n && n >= 2
    ensures Log2(a) == Log2(n) ==> Log2(b) < Log2(n)
  {
    hide Log2;
    assert Log2(n) >= 1 by { Log2Two(n); }
    if Log2(a) == Log2(n) {
      Log2Two(a);
      Log2Bounds(n);
      if b == 0 {
        Log2Two(b);
      } else {
        Log2Bounds(a);
        Log2Bounds(b);
        if Log2(b) >= Log2(n) {
          Pow2Monotone(Log2(n), Log2(b));
        }
      }
    }
  }

  lemma Log2Two(n: nat)
    ensures Log2(n) >= 1 <==> n >= 2
  {
  }

  lemma Log2Pair(a: nat, b: nat, n: nat)
    requires a >= 1 && b >= 1 && a + b <= n
    ensures Log2(a) + Log2(b) + 1 <= 2 * Log2(n)
  {
    hide Log2;
    Log2Monotone(a, n);
    Log2Monotone(b, n);
    Log2Rest(a, b, n);
  }

  // ----- Potential -----

  ghost function Potential(t: Tree): nat {
    match t
    case Leaf => 0
    case Fork(l, _, r) => Log2(Size(t)) + Potential(l) + Potential(r)
  }

  /** The potential of a spine when `w` nodes are to come below its open end. */
  ghost function SpinePotential(c: Spine, w: nat): nat
    decreases c
  {
    match c
    case Empty => 0
    case Snoc(up, o, _) => Log2(Size(o) + 1 + w) + Potential(o) + SpinePotential(up, Size(o) + 1 + w)
  }

  lemma {:induction false} SpineMonotone(c: Spine, v: nat, w: nat)
    requires v <= w
    ensures SpinePotential(c, v) <= SpinePotential(c, w)
    decreases c
  {
    if c.Snoc? {
      var n := Size(c.outer) + 1;
      Log2Monotone(n + v, n + w);
      SpineMonotone(c.up, n + v, n + w);
    }
  }

  lemma MakeSize(s: Side, a: Tree, x: Node, b: Tree)
    ensures Size(Make(s, a, x, b)) == Size(a) + 1 + Size(b)
    ensures Potential(Make(s, a, x, b)) == Log2(Size(Make(s, a, x, b))) + Potential(a) + Potential(b)
  {
  }

  lemma {:induction false} FillPotential(s: Side, c: Spine, t: Tree)
    ensures Potential(Fill(s, c, t)) == SpinePotential(c, Size(t)) + Potential(t)
    decreases c
  {
    hide Log2, Make;
    if c.Snoc? {
      MakeSize(s, c.outer, c.node, t);
      FillPotential(s, c.up, Make(s, c.outer, c.node, t));
    }
  }

  /** How many nodes of a tree lie on side `s` of the key. */
  ghost function Count(s: Side, t: Tree, key: int): nat {
    match t
    case Leaf => 0
    case Fork(l, x, r) => Count(s, l, key) + (if KeyOn(Flip(s), key, x) then 1 else 0) + Count(s, r, key)
  }

  lemma {:induction false} CountBoth(t: Tree, key: int)
    ensures Count(Left, t, key) + Count(Right, t, key) <= Size(t)
  {
    if t.Fork? {
      CountBoth(t.left, key);
      CountBoth(t.right, key);
    }
  }

  lemma {:induction false} CountAll(s: Side, t: Tree, key: int)
    requires OnSide(s, InOrder(t), key)
    ensures Count(s, t, key) == Size(t) && Count(Flip(s), t, key) == 0
  {
    if t.Fork? {
      var (a, b) := (InOrder(t.left), InOrder(t.right));
      OnSideParts(s, a, t.node, b, key);
      CountAll(s, t.left, key);
      CountAll(s, t.right, key);
    }
  }

  lemma OnSideParts(s: Side, a: seq<Node>, x: Node, b: seq<Node>, key: int)
    requires OnSide(s, a + [x] + b, key)
    ensures OnSide(s, a, key) && OnSide(s, b, key) && KeyOn(Flip(s), key, x)
  {
    var q := a + [x] + b;
    assert forall i :: 0 <= i < |a| ==> q[i] == a[i];
    assert q[|a|] == x;
    assert forall i :: 0 <= i < |b| ==> b[i] == q[|a| + 1 + i];
  }

  /**
    The potential of a splay under way. A spine node counts what it will have below it in the
    end: of the middle tree, only the nodes on its own side of the key.
   */
  ghost function Standing(l: Spine, t: Tree, r: Spine, key: int): nat {
    SpinePotential(l, Count(Left, t, key)) + Potential(t) + SpinePotential(r, Count(Right, t, key))
  }

  // ----- One turn -----

  /** Where the parts of a tree with the key on side `d` of its root lie. */
  lemma CountRoot(d: Side, t: Tree, key: int)
    requires t.Fork? && KeyOn(d, key, t.node) && OnSide(Flip(d), InOrder(t.Kid(Flip(d))), key)
    ensures Count(Flip(d), t, key) == Count(Flip(d), t.Kid(d), key) + 1 + Size(t.Kid(Flip(d)))
    ensures Count(d, t, key) == Count(d, t.Kid(d), key)
  {
    CountAll(Flip(d), t.Kid(Flip(d)), key);
  }

  /** The state after the root has moved onto the spine on side `Flip(d)`. */
  ghost predicate Linked(d: Side, l: Spine, t: Tree, r: Spine, l': Spine, t': Tree, r': Spine)
    requires t.Fork?
  {
    && t' == t.Kid(d)
    && (if d.Left? then l' == l && r' == Snoc(r, t.right, t.node) else l' == Snoc(l, t.left, t.node) && r' == r)
  }

  /** A link exchanges the rank of the root for the rank of its side of the key. */
  lemma LinkCost(d: Side, l: Spine, t: Tree, r: Spine, l': Spine, t': Tree, r': Spine, key: int)
    requires t.Fork? && KeyOn(d, key, t.node) && OnSide(Flip(d), InOrder(t.Kid(Flip(d))), key)
    requires Linked(d, l, t, r, l', t', r')
    ensures Standing(l', t', r', key) + Log2(Size(t)) == Standing(l, t, r, key) + Log2(Count(Flip(d), t, key))
  {
    hide Log2, InOrder, OnSide, KeyOn, Size, Potential, Count, SpinePotential;
    var (s, near, far) := (Flip(d), t.Kid(d), t.Kid(Flip(d)));
    CountRoot(d, t, key);
    MakeKids(d, t);
    MakeSize(d, near, t.node, far);
    SnocPotential(if d.Left? then r else l, far, t.node, Count(s, near, key));
    assert Size(far) + 1 + Count(s, near, key) == Count(s, t, key);
  }

  lemma SnocPotential(c: Spine, o: Tree, x: Node, w: nat)
    ensures var n := Size(o) + 1 + w;
            SpinePotential(Snoc(c, o, x), w) == Log2(n) + Potential(o) + SpinePotential(c, n)
  {
  }

  ghost function Rotated(d: Side, t: Tree): Tree
    requires t.Fork? && t.Kid(d).Fork?
  {
    var u := t.Kid(d);
    Make(d, u.Kid(d), u.node, Make(d, u.Kid(Flip(d)), t.node, t.Kid(Flip(d))))
  }

  lemma RotateCost(d: Side, l: Spine, t: Tree, r: Spine, key: int)
    requires t.Fork? && t.Kid(d).Fork?
    ensures var (u, v) := (t.Kid(d), Rotated(d, t));
            && Size(v) == Size(t)
            && Count(Left, v, key) == Count(Left, t, key) && Count(Right, v, key) == Count(Right, t, key)
            && Standing(l, v, r, key) + Log2(Size(u)) == Standing(l, t, r, key) + Log2(Size(v.Kid(Flip(d))))
            && Size(v.Kid(d)) + Size(v.Kid(Flip(d))) < Size(t) && Size(v.Kid(d)) <= Size(u) <= Size(t)
            && v.node == u.node && v.Kid(d) == u.Kid(d) && v.Kid(Flip(d)).Fork?
  {
    hide Log2, KeyOn, Size, Potential, Count, SpinePotential;
    var (s, u) := (Flip(d), t.Kid(d));
    var (a, b, c) := (u.Kid(d), u.Kid(s), t.Kid(s));
    var w := Make(d, b, t.node, c);
    MakeKids(d, t);
    MakeKids(d, u);
    MakeSize(d, u, t.node, c);
    MakeSize(d, a, u.node, b);
    MakeSize(d, b, t.node, c);
    MakeSize(d, a, u.node, w);
    forall z ensures Count(z, Rotated(d, t), key) == Count(z, t, key) {
      CountMake(z, d, u, t.node, c, key);
      CountMake(z, d, a, u.node, b, key);
      CountMake(z, d, b, t.node, c, key);
      CountMake(z, d, a, u.node, w, key);
    }
  }

  lemma CountMake(z: Side, d: Side, a: Tree, x: Node, b: Tree, key: int)
    ensures Count(z, Make(d, a, x, b), key) == Count(z, a, key) + (if KeyOn(Flip(z), key, x) then 1 else 0)
        + Count(z, b, key)
  {
  }

  /** What the zig-zig step does: it rotates exactly when the key is also beyond the child. */
  ghost predicate Zigged(d: Side, key: int, t: Tree, v: Tree)
    requires t.Fork?
  {
    if t.Kid(d).Fork? && KeyOn(d, key, t.Kid(d).node) then v == Rotated(d, t) else v == t
  }

  /**
    The account of a splay after some turns. A link that gained nothing may stay owing one turn, if
    the next turn, which goes to the other side, is sure to gain.
   */
  ghost predicate Ledger(turns: nat, l: Spine, t: Tree, r: Spine, key: int, owe: Option<Side>, budget: nat) {
    && t.Fork?
    && turns + 2 * Standing(l, t, r, key) + 4 * Log2(Size(t)) <= budget + (if owe.Some? then 1 else 0)
    && (owe.Some? ==> Log2(Count(owe.value, t, key)) < Log2(Size(t)) && !KeyOn(owe.value, key, t.node))
  }

  /** A turn without rotation. */
  lemma LinkLedger(d: Side, turns: nat, l: Spine, t: Tree, r: Spine, l': Spine, t': Tree, r': Spine, key: int,
                   owe: Option<Side>, budget: nat) returns (owe': Option<Side>)
    requires Ledger(turns, l, t, r, key, owe, budget) && KeyOn(d, key, t.node)
    requires OnSide(Flip(d), InOrder(t.Kid(Flip(d))), key) && Linked(d, l, t, r, l', t', r')
    requires t'.Fork? && !KeyOn(d, key, t'.node)
    ensures Ledger(turns + 1, l', t', r', key, owe', budget)
  {
    hide Log2, Standing, InOrder, OnSide, Count;
    var s := Flip(d);
    var n := Size(t);
    LinkCost(d, l, t, r, l', t', r', key);
    CountRoot(d, t, key);
    CountBoth(t, key);
    Log2Monotone(Count(s, t, key), n);
    Log2Monotone(Size(t'), n);
    OwedSide(owe, d, key, t.node);
    if Log2(Count(s, t, key)) < Log2(n) || Log2(Size(t')) < Log2(n) {
      owe' := None;
    } else {
      Log2Rest(Count(s, t, key), Count(d, t, key), n);
      owe' := Some(d);
    }
  }

  lemma OwedSide(owe: Option<Side>, d: Side, key: int, x: Node)
    requires KeyOn(d, key, x) && (owe.Some? ==> !KeyOn(owe.value, key, x))
    ensures owe.Some? ==> owe.value == Flip(d)
  {
  }

  /** A turn with rotation. */
  lemma ZigLedger(d: Side, turns: nat, l: Spine, t: Tree, r: Spine, l': Spine, t': Tree, r': Spine, key: int,
                  owe: Option<Side>, budget: nat)
    requires Ledger(turns, l, t, r, key, owe, budget) && KeyOn(d, key, t.node)
    requires t.Kid(d).Fork? && KeyOn(d, key, t.Kid(d).node)
    requires var v := Rotated(d, t);
             v.Fork? && OnSide(Flip(d), InOrder(v.Kid(Flip(d))), key) && Linked(d, l, v, r, l', t', r')
    requires t'.Fork?
    ensures Ledger(turns + 1, l', t', r', key, None, budget)
  {
    hide Log2, Standing, InOrder, OnSide, Count, Linked, Rotated;
    var (s, u, v) := (Flip(d), t.Kid(d), Rotated(d, t));
    RotateCost(d, l, t, r, key);
    LinkedTo(d, l, v, r, l', t', r');
    LinkCost(d, l, v, r, l', t', r', key);
    CountBoth(t, key);
    Log2Monotone(Count(s, t, key), Size(t));
    Log2Pair(Size(t'), Size(v.Kid(s)), Size(t));
    Log2Monotone(Size(t'), Size(u));
    OwedSide(owe, d, key, t.node);
  }

  lemma LinkedTo(d: Side, l: Spine, t: Tree, r: Spine, l': Spine, t': Tree, r': Spine)
    requires t.Fork? && Linked(d, l, t, r, l', t', r')
    ensures t' == t.Kid(d)
  {
  }

  /** Any turn that goes on. */
  lemma TurnLedger(d: Side, turns: nat, l: Spine, t: Tree, v: Tree, r: Spine, l': Spine, t': Tree, r': Spine, key: int,
                   owe: Option<Side>, budget: nat) returns (owe': Option<Side>)
    requires Ledger(turns, l, t, r, key, owe, budget) && KeyOn(d, key, t.node) && Zigged(d, key, t, v)
    requires v.Fork? && OnSide(Flip(d), InOrder(v.Kid(Flip(d))), key) && Linked(d, l, v, r, l', t', r') && t'.Fork?
    ensures Ledger(turns + 1, l', t', r', key, owe', budget)
  {
    hide Ledger, InOrder, OnSide, KeyOn, Linked;
    LinkedTo(d, l, v, r, l', t', r');
    LedgerFork(turns, l, t, r, key, owe, budget);
    if t.Kid(d).Fork? && KeyOn(d, key, t.Kid(d).node) {
      ZigLedger(d, turns, l, t, r, l', t', r', key, owe, budget);
      owe' := None;
    } else {
      owe' := LinkLedger(d, turns, l, t, r, l', t', r', key, owe, budget);
    }
  }

  lemma LedgerFork(turns: nat, l: Spine, t: Tree, r: Spine, key: int, owe: Option<Side>, budget: nat)
    requires Ledger(turns, l, t, r, key, owe, budget)
    ensures t.Fork?
  {
  }

  // ----- A whole splay -----

  lemma StartLedger(t: Tree, key: int)
    requires t.Fork?
    ensures Ledger(0, Empty, t, Empty, key, None, 2 * Potential(t) + 4 * Log2(Size(t)))
  {
  }

  /** The last turn may rotate and then find nothing further to go to. */
  lemma LastLedger(d: Side, turns: nat, l: Spine, t: Tree, v: Tree, r: Spine, key: int, owe: Option<Side>, budget: nat)
    requires Ledger(turns, l, t, r, key, owe, budget) && Zigged(d, key, t, v)
    ensures turns + 1 + 2 * Standing(l, v, r, key) <= budget + 2
  {
    hide Log2, Standing, Rotated, Count;
    if v != t {
      RotateCost(d, l, t, r, key);
      Log2Monotone(Size(v.Kid(Flip(d))), Size(t));
    }
  }

  lemma EndLedger(turns: nat, l: Spine, t: Tree, r: Spine, key: int, owe: Option<Side>, budget: nat)
    requires Ledger(turns, l, t, r, key, owe, budget)
    ensures turns + 2 * Standing(l, t, r, key) <= budget + 2
  {
  }

  /** Closing the spines costs no more than the rank of the whole. */
  lemma AssembledCost(l: Spine, t: Tree, r: Spine, key: int)
    requires t.Fork? && Split(t, key)
    ensures var t' := Fork(Fill(Left, l, t.left), t.node, Fill(Right, r, t.right));
            Potential(t') <= Standing(l, t, r, key) + Log2(Size(t'))
  {
    hide Log2, Fill, InOrder, OnSide;
    FillPotential(Left, l, t.left);
    FillPotential(Right, r, t.right);
    CountAll(Left, t.left, key);
    CountAll(Right, t.right, key);
    SpineMonotone(l, Size(t.left), Count(Left, t, key));
    SpineMonotone(r, Size(t.right), Count(Right, t, key));
  }

  lemma {:induction false} SizeOrder(t: Tree)
    ensures Size(t) == |InOrder(t)|
  {
    if t.Fork? {
      SizeOrder(t.left);
      SizeOrder(t.right);
    }
  }
}
