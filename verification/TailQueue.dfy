/**
  Intrusive tail queues. A `prev` link does not name the previous entry but the place that
  points here: the `first` field of the head or the `next` field of an entry. The head keeps
  the place that the next appended entry will be stored in.
 */
module TailQueue {
  import opened Common

  /** An address of a pointer to an entry. */
  datatype Slot<T> = Nowhere | First(queue: Queue<T>) | Next(entry: Entry<T>)

  class Entry<T> {
    const value: T
    var next: Entry?<T>
    var prev: Slot<T>

    constructor (value: T)
      ensures this.value == value
    {
      this.value, next, prev := value, null, Nowhere;
    }
  }

  /** `s` with `e` placed before position `i`. */
  ghost function Inserted<T>(s: seq<Entry<T>>, i: nat, e: Entry<T>): (r: seq<Entry<T>>)
    requires i <= |s|
    ensures |r| == |s| + 1 && r[i] == e
    ensures forall j :: 0 <= j < i ==> r[j] == s[j]
    ensures forall j :: i < j < |r| ==> r[j] == s[j - 1]
    ensures NoDup(s) && e !in s ==> NoDup(r)
  {
    s[..i] + [e] + s[i..]
  }

  /** `s` without position `i`. */
  ghost function Dropped<T>(s: seq<Entry<T>>, i: nat): (r: seq<Entry<T>>)
    requires i < |s|
    ensures |r| == |s| - 1
    ensures forall j :: 0 <= j < i ==> r[j] == s[j]
    ensures forall j :: i <= j < |r| ==> r[j] == s[j + 1]
    ensures NoDup(s) ==> NoDup(r)
  {
    s[..i] + s[i + 1..]
  }

  ghost predicate Disjoint<T>(s: seq<Entry<T>>, t: seq<Entry<T>>) {
    forall x :: x in s ==> x !in t
  }

  /** One sequence after another: only the seam needs to be told apart. */
  lemma Joined<T>(s: seq<Entry<T>>, t: seq<Entry<T>>, r: seq<Entry<T>>)
    requires NoDup(s) && NoDup(t) && Disjoint(s, t) && r == s + t
    ensures NoDup(r)
    ensures forall j :: 0 <= j < |s| && |t| > 0 ==> s[j] != t[0]
    ensures forall j :: 0 <= j < |t| && |s| > 0 ==> t[j] != s[|s| - 1]
  {
    forall i, j | 0 <= i < j < |r| ensures r[i] != r[j] {
      if i < |s| <= j {
        assert s[i] in s && t[j - |s|] in t;
      }
    }
    assert forall j :: 0 <= j < |s| ==> s[j] in s;
    assert forall j :: 0 <= j < |t| ==> t[j] in t;
  }

  lemma Replaced<T>(s: seq<Entry<T>>, i: nat, e: Entry<T>)
    requires NoDup(s) && i < |s| && e !in s
    ensures NoDup(s[i := e])
  {
  }

  /** Position `k` holds an entry that no other position holds. */
  lemma Apart<T>(s: seq<Entry<T>>, k: int)
    requires NoDup(s)
    ensures 0 <= k < |s| ==> forall j :: 0 <= j < |s| && j != k ==> s[j] != s[k]
  {
  }

  /** The entry at position `i`, or nothing past the end. */
  ghost function At<T>(s: seq<Entry<T>>, i: nat): Entry?<T> {
    if i < |s| then s[i] else null
  }

  /** The address of the pointer that leads to position `i` of a queue. */
  ghost function Place<T>(q: Queue<T>, s: seq<Entry<T>>, i: nat): Slot<T>
    requires i <= |s|
  {
    if i == 0 then First(q) else Next(s[i - 1])
  }

  /** Every entry leads to the one after it; position `but` is not looked at. */
  ghost predicate Nexts<T>(s: seq<Entry<T>>, but: int)
    reads s
  {
    forall i {:trigger s[i].next} :: 0 <= i < |s| && i != but ==> s[i].next == At(s, i + 1)
  }

  /** Every entry knows the place that leads to it; position `but` is not looked at. */
  ghost predicate Prevs<T>(q: Queue<T>, s: seq<Entry<T>>, but: int)
    reads s
  {
    forall i {:trigger s[i].prev} :: 0 <= i < |s| && i != but ==> s[i].prev == Place(q, s, i)
  }

  /** The links around a new entry make a chain again. */
  lemma InsertedLinks<T>(q: Queue<T>, s: seq<Entry<T>>, i: nat, e: Entry<T>)
    requires i <= |s|
    requires Nexts(s, i - 1) && Prevs(q, s, i)
    requires e.next == At(s, i) && e.prev == Place(q, s, i)
    requires i > 0 ==> s[i - 1].next == e
    requires i < |s| ==> s[i].prev == Next(e)
    ensures Nexts(Inserted(s, i, e), -1) && Prevs(q, Inserted(s, i, e), -1)
  {
    hide Inserted;
  }

  /** The links across a gap make a chain again. */
  lemma DroppedLinks<T>(q: Queue<T>, s: seq<Entry<T>>, i: nat)
    requires i < |s|
    requires Nexts(s, i - 1) && (i > 0 ==> s[i - 1].next == At(s, i + 1))
    requires Prevs(q, s, i + 1) && (i + 1 < |s| ==> s[i + 1].prev == Place(q, s, i))
    ensures Nexts(Dropped(s, i), -1) && Prevs(q, Dropped(s, i), -1)
  {
    hide Dropped;
  }

  /** The links around an entry that takes the place of another make a chain again. */
  lemma ReplacedLinks<T>(q: Queue<T>, s: seq<Entry<T>>, i: nat, e: Entry<T>)
    requires i < |s|
    requires Nexts(s, i - 1) && (i > 0 ==> s[i - 1].next == e)
    requires Prevs(q, s, i + 1) && (i + 1 < |s| ==> s[i + 1].prev == Next(e))
    requires e.next == At(s, i + 1) && e.prev == Place(q, s, i)
    ensures Nexts(s[i := e], -1) && Prevs(q, s[i := e], -1)
  {
  }

  /** The links across a seam make one chain out of two. */
  lemma JoinedLinks<T>(q: Queue<T>, s: seq<Entry<T>>, p: Queue<T>, t: seq<Entry<T>>, r: seq<Entry<T>>)
    requires r == s + t && |t| > 0
    requires Nexts(s, |s| - 1) && Nexts(t, -1) && (|s| > 0 ==> s[|s| - 1].next == t[0])
    requires Prevs(q, s, -1) && Prevs(p, t, 0) && t[0].prev == Place(q, s, |s|)
    ensures Nexts(r, -1) && Prevs(q, r, -1)
  {
    forall i | 0 <= i < |r| ensures r[i].next == At(r, i + 1) && r[i].prev == Place(q, r, i) {
      if i < |s| {
        assert r[i] == s[i];
      } else {
        assert r[i] == t[i - |s|];
      }
    }
  }

  class Queue<T> {
    var first: Entry?<T>
    var last: Slot<T>
    ghost var elems: seq<Entry<T>>

    ghost predicate Valid()
      reads this, elems
    {
      && NoDup(elems)
      && first == At(elems, 0)
      && last == Place(this, elems, |elems|)
      && Nexts(elems, -1)
      && Prevs(this, elems, -1)
    }

    constructor ()
      ensures Valid() && elems == []
    {
      new;
      Init();
    }

    /** Forgets whatever the queue held; the entries themselves are not touched. */
    method Init()
      modifies this
      ensures Valid() && elems == []
    {
      first, last, elems := null, First(this), [];
    }

    /** Assignment through an address. */
    method Store(slot: Slot<T>, e: Entry?<T>)
      requires slot == First(this) || slot.Next?
      modifies this`first, if slot.Next? then {slot.entry} else {}
      ensures slot == First(this) ==> first == e
      ensures slot.Next? ==> first == old(first) && slot.entry.next == e && slot.entry.prev == old(slot.entry.prev)
    {
      match slot
      case First(q) => q.first := e;
      case Next(x) => x.next := e;
    }

    method InsertHead(elm: Entry<T>)
      requires Valid() && elm !in elems
      modifies this, elems, elm
      ensures Valid() && elems == [elm] + old(elems)
    {
      elm.next := first;
      if first != null {
        first.prev := Next(elm);
      } else {
        last := Next(elm);
      }
      first := elm;
      elm.prev := First(this);
      elems := [elm] + elems;
    }

    method InsertTail(elm: Entry<T>)
      requires Valid() && elm !in elems
      modifies this, elems, elm
      ensures Valid() && elems == old(elems) + [elm]
    {
      hide NoDup;
      assert Inserted(elems, |elems|, elm) == elems + [elm];
      Apart(elems, |elems| - 1);
      elm.next := null;
      elm.prev := last;
      Store(last, elm);
      last := Next(elm);
      elems := elems + [elm];
    }

    method InsertAfter(listelm: Entry<T>, elm: Entry<T>, ghost i: nat)
      requires Valid() && elm !in elems && i < |elems| && elems[i] == listelm
      modifies this, elems, elm
      ensures Valid() && elems == Inserted(old(elems), i + 1, elm)
    {
      hide NoDup, Inserted;
      Apart(elems, i);
      Apart(elems, i + 1);
      elm.next := listelm.next;
      if elm.next != null {
        elm.next.prev := Next(elm);
      } else {
        last := Next(elm);
      }
      listelm.next := elm;
      elm.prev := Next(listelm);
      InsertedLinks(this, elems, i + 1, elm);
      elems := Inserted(elems, i + 1, elm);
    }

    /** Unlike the others, this one does not need the head: the entry knows where it is pointed to from. */
    method InsertBefore(listelm: Entry<T>, elm: Entry<T>, ghost i: nat)
      requires Valid() && elm !in elems && i < |elems| && elems[i] == listelm
      modifies this, elems, elm
      ensures Valid() && elems == Inserted(old(elems), i, elm)
    {
      hide NoDup, Inserted;
      Apart(elems, i - 1);
      Apart(elems, i);
      elm.prev := listelm.prev;
      elm.next := listelm;
      Store(listelm.prev, elm);
      listelm.prev := Next(elm);
      InsertedLinks(this, elems, i, elm);
      elems := Inserted(elems, i, elm);
    }

    method Remove(elm: Entry<T>, ghost i: nat)
      requires Valid() && i < |elems| && elems[i] == elm
      modifies this, elems
      ensures Valid() && elems == Dropped(old(elems), i)
    {
      hide NoDup, Dropped;
      Apart(elems, i - 1);
      Apart(elems, i);
      Apart(elems, i + 1);
      if elm.next != null {
        elm.next.prev := elm.prev;
      } else {
        last := elm.prev;
      }
      Store(elm.prev, elm.next);
      DroppedLinks(this, elems, i);
      elems := Dropped(elems, i);
    }

    method Replace(elm: Entry<T>, elm2: Entry<T>, ghost i: nat)
      requires Valid() && elm2 !in elems && i < |elems| && elems[i] == elm
      modifies this, elems, elm2
      ensures Valid() && elems == old(elems)[i := elm2]
    {
      hide NoDup;
      Apart(elems, i - 1);
      Apart(elems, i);
      Apart(elems, i + 1);
      Replaced(elems, i, elm2);
      elm2.next := elm.next;
      if elm2.next != null {
        elm2.next.prev := Next(elm2);
      } else {
        last := Next(elm2);
      }
      elm2.prev := elm.prev;
      Store(elm2.prev, elm2);
      ReplacedLinks(this, elems, i, elm2);
      elems := elems[i := elm2];
    }

    /** Appends the other queue and leaves it empty. */
    method Concat(other: Queue<T>)
      requires Valid() && other.Valid() && this != other && Disjoint(elems, other.elems)
      modifies this, elems, other, other.elems
      ensures Valid() && other.Valid() && elems == old(elems) + old(other.elems) && other.elems == []
    {
      hide NoDup, Disjoint;
      if other.first != null {
        ghost var s, t := elems, other.elems;
        ghost var r := s + t;
        Joined(s, t, r);
        Apart(s, |s| - 1);
        Apart(t, 0);
        Store(last, other.first);
        other.first.prev := last;
        last := other.last;
        JoinedLinks(this, s, other, t, r);
        elems := r;
        other.Init();
      }
    }

    /** The last entry, found by reading the place of the last pointer as if it began a head. */
    method Last() returns (r: Entry?<T>)
      requires Valid()
      ensures r == if elems == [] then null else elems[|elems| - 1]
    {
      r := Load(Behind(last));
    }

    /** The previous entry, found in the same way; nothing before the first. */
    method Prev(elm: Entry<T>, ghost i: nat) returns (r: Entry?<T>)
      requires Valid() && i < |elems| && elems[i] == elm
      ensures r == if i == 0 then null else elems[i - 1]
    {
      r := Load(Behind(elm.prev));
    }
  }

  /** Reading through an address. */
  function Load<T>(slot: Slot<T>): Entry?<T>
    reads match slot case First(q) => {q as object} case Next(x) => {x as object} case Nowhere => {}
  {
    match slot
    case First(q) => q.first
    case Next(x) => x.next
    case Nowhere => null
  }

  /**
    A head and an entry both hold a pointer followed by the address of a pointer. Given the
    address of the pointer, the address that follows it.
   */
  function Behind<T>(slot: Slot<T>): Slot<T>
    reads match slot case First(q) => {q as object} case Next(x) => {x as object} case Nowhere => {}
  {
    match slot
    case First(q) => q.last
    case Next(x) => x.prev
    case Nowhere => Nowhere
  }
}
