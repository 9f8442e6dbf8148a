/** The map from DMR identifiers to names, kept in the red-black tree, and its process-wide instance. */
module IdMap {
  import opened TreeOrder
  import opened RbSpec
  import opened RbTree
  import RbSearch
  import opened Common

  /** What an operation reports: success, a missing argument, or a failed allocation. */
  datatype Status = Ok | Invalid | NoMemory

  // ----- The finite map that a tree stands for -----

  ghost predicate OneNodePerId(s: set<IdNode>) {
    forall x, y :: x in s && y in s && x.id == y.id ==> x == y
  }

  ghost function NamesOf(s: set<IdNode>): map<int, string>
    requires OneNodePerId(s)
  {
    map x | x in s :: x.id := x.name
  }

  /** The names held by a well-formed tree. */
  ghost function Names(t: Tree): map<int, string>
    requires Ordered(InOrder(t))
  {
    OrderedOneNode(t);
    NamesOf(Nodes(t))
  }

  lemma DifferentIds(s: seq<IdNode>)
    requires Ordered(s)
    ensures forall i, j :: 0 <= i < |s| && 0 <= j < |s| && s[i].id == s[j].id ==> i == j
  {
    forall i, j | 0 <= i < |s| && 0 <= j < |s| && i != j ensures s[i].id != s[j].id {
      var (a, b) := if i < j then (i, j) else (j, i);
      assert Compare(s[a].id, s[b].id) < 0;
    }
  }

  /** A node with a new identifier adds its name. */
  lemma NamesInserted(t: Tree, u: Tree, x: IdNode)
    requires Ordered(InOrder(t)) && Ordered(InOrder(u)) && Nodes(u) == Nodes(t) + {x}
    requires forall y :: y in Nodes(t) ==> y.id != x.id
    ensures Names(u) == Names(t)[x.id := x.name]
  {
    hide Nodes, InOrder, Ordered;
    OrderedOneNode(t);
    OrderedOneNode(u);
  }

  lemma OrderedOneNode(t: Tree)
    requires Ordered(InOrder(t))
    ensures OneNodePerId(Nodes(t))
  {
    InOrderNodes(t);
    DifferentIds(InOrder(t));
    forall x, y | x in Nodes(t) && y in Nodes(t) && x.id == y.id ensures x == y {
      var i :| 0 <= i < |InOrder(t)| && InOrder(t)[i] == x;
      var j :| 0 <= j < |InOrder(t)| && InOrder(t)[j] == y;
    }
  }

  ghost function IdsOf(s: seq<IdNode>): set<int> {
    set x | x in s :: x.id
  }

  lemma {:induction false} CountIds(s: seq<IdNode>)
    requires Ordered(s)
    ensures |IdsOf(s)| == |s|
  {
    if s != [] {
      var (r, x) := (s[..|s| - 1], s[|s| - 1]);
      OrderedFront(s);
      CountIds(r);
      hide Ordered;
      LastId(r, x);
      assert s == r + [x];
    }
  }

  lemma OrderedFront(s: seq<IdNode>)
    requires Ordered(s) && s != []
    ensures Ordered(s[..|s| - 1]) && s[|s| - 1].id !in IdsOf(s[..|s| - 1])
  {
    forall i | 0 <= i < |s| - 1 ensures s[i].id != s[|s| - 1].id {
      assert Compare(s[i].id, s[|s| - 1].id) < 0;
    }
  }

  lemma LastId(r: seq<IdNode>, x: IdNode)
    ensures IdsOf(r + [x]) == IdsOf(r) + {x.id}
  {
    assert forall y :: y in r + [x] <==> y in r || y == x;
  }

  /** A tree has as many nodes as its map has identifiers. */
  lemma CountNames(t: Tree)
    requires Ordered(InOrder(t))
    ensures |Names(t)| == |InOrder(t)|
  {
    CountIds(InOrder(t));
    InOrderNodes(t);
    OrderedOneNode(t);
    assert Names(t).Keys == IdsOf(InOrder(t));
  }

  // ----- Specification of adding and looking up -----

  /** One call to add: the name may be missing and each of the two allocations may fail. */
  datatype Request = Request(id: int, name: Option<string>, memory: bool)

  function Outcome(m: map<int, string>, r: Request): Status {
    if r.name.None? then Invalid else if r.id in m || r.memory then Ok else NoMemory
  }

  function AddTo(m: map<int, string>, r: Request): map<int, string> {
    if r.name.Some? && r.id !in m && r.memory then m[r.id := r.name.value] else m
  }

  function AddAll(m: map<int, string>, rs: seq<Request>): map<int, string>
    decreases |rs|
  {
    if rs == [] then m else AddAll(AddTo(m, rs[0]), rs[1..])
  }

  predicate Delivers(r: Request, id: int) {
    r.id == id && r.name.Some? && r.memory
  }

  /**
    After any sequence of additions to an empty map, an identifier has a name exactly when
    some request could deliver one, and it is the name of the first such request.
   */
  lemma FirstNameWins(rs: seq<Request>, id: int)
    ensures id in AddAll(map[], rs) <==> exists i :: 0 <= i < |rs| && Delivers(rs[i], id)
    ensures forall i :: 0 <= i < |rs| && Delivers(rs[i], id) && (forall j :: 0 <= j < i ==> !Delivers(rs[j], id)) ==>
      AddAll(map[], rs)[id] == rs[i].name.value
  {
    FirstNameFrom(map[], rs, id);
  }

  lemma {:induction false} FirstNameFrom(m: map<int, string>, rs: seq<Request>, id: int)
    ensures id in m ==> id in AddAll(m, rs) && AddAll(m, rs)[id] == m[id]
    ensures id !in m ==> (id in AddAll(m, rs) <==> exists i :: 0 <= i < |rs| && Delivers(rs[i], id))
    ensures id !in m ==>
      forall i :: 0 <= i < |rs| && Delivers(rs[i], id) && (forall j :: 0 <= j < i ==> !Delivers(rs[j], id)) ==>
        AddAll(m, rs)[id] == rs[i].name.value
    decreases |rs|
  {
    if rs != [] {
      var (r, q) := (rs[0], rs[1..]);
      FirstNameFrom(AddTo(m, r), q, id);
      if id !in m {
        if Delivers(r, id) {
          assert AddTo(m, r)[id] == r.name.value;
        } else {
          assert id !in AddTo(m, r);
          assert forall i :: 0 < i < |rs| ==> rs[i] == q[i - 1];
          if i :| 0 <= i < |rs| && Delivers(rs[i], id) {
            assert Delivers(q[i - 1], id);
          }
          forall i | 0 <= i < |rs| && Delivers(rs[i], id) && (forall j :: 0 <= j < i ==> !Delivers(rs[j], id))
            ensures AddAll(m, rs)[id] == rs[i].name.value
          {
            assert forall j :: 0 <= j < i - 1 ==> q[j] == rs[j + 1];
            assert Delivers(q[i - 1], id) && forall j :: 0 <= j < i - 1 ==> !Delivers(q[j], id);
          }
        }
      }
    }
  }

  // ----- The operations -----

  /** Adds a name for `id` unless the map has one. Every failure leaves the map as it was. */
  method Add(h: Head?, id: int, name: Option<string>, memory: bool) returns (st: Status)
    requires h != null ==> h.Valid()
    modifies h, if h != null then Nodes(h.tree) else {}
    ensures h == null ==> st == Invalid
    ensures h != null ==>
      && h.Valid() && fresh(Nodes(h.tree) - old(Nodes(h.tree)))
      && st == Outcome(old(Names(h.tree)), Request(id, name, memory))
      && Names(h.tree) == AddTo(old(Names(h.tree)), Request(id, name, memory))
    ensures name.None? ==> st == Invalid
    ensures h != null && name.Some? ==>
      && (id in old(Names(h.tree)) ==> st == Ok && Names(h.tree) == old(Names(h.tree)))
      && (id !in old(Names(h.tree)) && memory ==> st == Ok && Names(h.tree) == old(Names(h.tree))[id := name.value])
      && (id !in old(Names(h.tree)) && !memory ==> st == NoMemory && Names(h.tree) == old(Names(h.tree)))
  {
    hide Shape, Nodes, InOrder, Ordered, Distinct, RedBlack;
    if h == null || name.None? {
      return Invalid;
    }
    OrderedOneNode(h.tree);
    TreeAllocated(h.tree);
    var np, _ := RbSearch.Find(h, id);
    if np == null {
      if !memory {
        return NoMemory;
      }
      ghost var before := h.tree;
      np := new IdNode(id, name.value);
      var _, _, _ := h.Insert(np);
      NamesInserted(before, h.tree, np);
    }
    return Ok;
  }

  /** The name of `id`, if it has one. */
  method Get(h: Head?, id: int) returns (name: Option<string>)
    requires h != null ==> h.Valid()
    ensures name == if h != null && id in Names(h.tree) then Some(Names(h.tree)[id]) else None
  {
    if h == null {
      return None;
    }
    OrderedOneNode(h.tree);
    TreeAllocated(h.tree);
    var np, _ := RbSearch.Find(h, id);
    if np != null {
      return Some(np.name);
    }
    return None;
  }

  /** The process-wide map, created on first use. */
  class Shared {
    var shared: Head?

    constructor ()
      ensures shared == null
    {
      shared := null;
    }

    /** The nodes of the map, if there is one. */
    ghost function Footprint(): set<IdNode>
      reads this, shared
    {
      if shared == null then {} else Nodes(shared.tree)
    }

    ghost predicate Valid()
      reads this, shared, Footprint()
    {
      shared != null ==> shared.Valid()
    }

    ghost function Contents(): map<int, string>
      requires Valid()
      reads this, shared, Footprint()
    {
      if shared == null then map[] else Names(shared.tree)
    }

    method Init(memory: bool) returns (st: Status)
      requires Valid()
      modifies this
      ensures Valid() && Contents() == old(Contents())
      ensures st == (if old(shared) != null || memory then Ok else NoMemory)
      ensures shared != null <==> st == Ok
      ensures old(shared) != null ==> shared == old(shared)
      ensures old(shared) == null && shared != null ==> fresh(shared) && shared.tree == Leaf
    {
      if shared != null {
        return Ok;
      }
      if !memory {
        return NoMemory;
      }
      shared := new Head();
      return Ok;
    }

    method Free()
      requires Valid()
      modifies this
      ensures Valid() && shared == null && Contents() == map[]
    {
      shared := null;
    }

    /** Adds to the process-wide map; `mapMemory` says whether the map itself can be allocated. */
    method AddName(id: int, name: Option<string>, memory: bool, mapMemory: bool) returns (st: Status)
      requires Valid()
      modifies this, shared, Footprint()
      ensures Valid()
      ensures shared == old(shared) || fresh(shared)
      ensures forall x :: x in Footprint() && x !in old(Footprint()) ==> fresh(x)
      ensures old(shared) == null && !mapMemory ==> st == NoMemory && Contents() == old(Contents())
      ensures old(shared) != null || mapMemory ==>
        && st == Outcome(old(Contents()), Request(id, name, memory))
        && Contents() == AddTo(old(Contents()), Request(id, name, memory))
    {
      st := Init(mapMemory);
      if st != Ok {
        return NoMemory;
      }
      ghost var before := Nodes(shared.tree);
      assert before == old(Footprint());
      label adding:
      st := Add(shared, id, name, memory);
      forall x | x in Footprint() && x !in old(Footprint()) ensures fresh(x) {
        assert fresh@adding(x);
      }
    }

    method Name(id: int) returns (name: Option<string>)
      requires Valid()
      ensures Valid()
      ensures name == if id in Contents() then Some(Contents()[id]) else None
    {
      if shared != null {
        TreeAllocated(shared.tree);
      }
      name := Get(shared, id);
    }

    /** The number of names, counted by walking the tree. */
    method Size() returns (n: nat)
      requires Valid()
      ensures Valid()
      ensures n == |Contents()|
    {
      if shared == null {
        return 0;
      }
      TreeAllocated(shared.tree);
      ghost var seen, links;
      n, seen, links := RbSearch.Walk(shared);
      CountNames(shared.tree);
    }
  }

  /** The shared map after any sequence of additions is the finite map after the same sequence. */
  method AddAllNames(s: Shared, rs: seq<Request>)
    requires s.Valid()
    modifies s, s.shared, s.Footprint()
    ensures s.Valid() && s.Contents() == AddAll(old(s.Contents()), rs)
  {
    var i := 0;
    assert rs[0..] == rs;
    while i < |rs|
      invariant i <= |rs| && s.Valid()
      invariant s.shared == old(s.shared) || fresh(s.shared)
      invariant forall x :: x in s.Footprint() && x !in old(s.Footprint()) ==> fresh(x)
      invariant AddAll(s.Contents(), rs[i..]) == AddAll(old(s.Contents()), rs)
    {
      assert rs[i..][1..] == rs[i + 1..];
      var _ := s.AddName(rs[i].id, rs[i].name, rs[i].memory, true);
      i := i + 1;
    }
  }
}
