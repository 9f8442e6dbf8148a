/** The bounded queue of raw buffers and the queue of received packets. */
module QueueUsers {
  import opened TailQueue
  import opened Deque
  import opened Common

  /** The values that a chain of entries carries. */
  function Values<T>(s: seq<Entry<T>>): seq<T> {
    if s == [] then [] else [s[0].value] + Values(s[1..])
  }

  lemma {:induction false} ValuesAppend<T>(s: seq<Entry<T>>, t: seq<Entry<T>>)
    ensures Values(s + t) == Values(s) + Values(t)
  {
    if s == [] {
      assert s + t == t;
    } else {
      assert (s + t)[1..] == s[1..] + t;
      ValuesAppend(s[1..], t);
    }
  }

  /**
    What a callback answers when it is called for the n-th time, with the given item: it may
    answer the same item differently each time.
   */
  type Answers<!T> = (nat, T) -> int

  /** The place of the first item that is answered with something other than zero, or the end. */
  function FirstRefusal<T>(s: seq<T>, n: nat, answer: Answers<T>): (k: nat)
    ensures k <= |s| && (k < |s| ==> answer(n + k, s[k]) != 0)
    ensures forall i :: 0 <= i < k ==> answer(n + i, s[i]) == 0
  {
    if s == [] || answer(n, s[0]) != 0 then 0
    else
      var k := FirstRefusal(s[1..], n + 1, answer);
      assert forall i :: 0 < i <= k ==> s[i] == s[1..][i - 1];
      k + 1
  }

  lemma {:induction false} ValuesAt<T>(s: seq<Entry<T>>)
    ensures |Values(s)| == |s| && forall i :: 0 <= i < |s| ==> Values(s)[i] == s[i].value
  {
    if s != [] {
      ValuesAt(s[1..]);
    }
  }

  lemma WithoutFirst<T>(s: seq<Entry<T>>)
    requires s != []
    ensures Dropped(s, 0) == s[1..] && Values(s) == [s[0].value] + Values(Dropped(s, 0))
  {
  }

  lemma NextInLine<T>(q: Queue<T>, i: nat)
    requires q.Valid() && i < |q.elems|
    ensures q.elems[i].next == At(q.elems, i + 1)
  {
  }

  /** A queue whose entries are the buffers themselves. `T` is what a buffer holds. */
  class RawQueue<T> {
    const limit: nat
    const head: Queue<T>

    ghost predicate Valid()
      reads this, head, head.elems
    {
      head.Valid() && (limit != 0 ==> |head.elems| <= limit)
    }

    constructor (limit: nat)
      ensures Valid() && this.limit == limit && head.elems == [] && fresh(head)
    {
      this.limit := limit;
      head := new Queue();
    }

    /** Walks the chain. */
    method Size() returns (i: nat)
      requires Valid()
      ensures i == |head.elems|
    {
      i := 0;
      var raw := head.first;
      while raw != null
        invariant i <= |head.elems| && raw == At(head.elems, i)
        decreases |head.elems| - i
      {
        raw := raw.next;
        i := i + 1;
      }
    }

    method Add(raw: Entry?<T>) returns (code: int)
      requires Valid() && (raw != null ==> raw !in head.elems)
      modifies head, head.elems, raw
      ensures Valid()
      ensures raw == null ==> code == -1 && head.elems == old(head.elems)
      ensures raw != null ==> head.elems == Effect(limit, old(head.elems), Deque.Add(raw))
      ensures raw != null ==> (code == 0 <==> Reaction(limit, old(head.elems), Deque.Add(raw)) == Accepted)
      ensures code == if raw != null && (limit == 0 || |old(head.elems)| < limit) then 0 else -1
      ensures head.elems == old(head.elems) + if code == 0 then [raw] else []
    {
      if raw == null {
        return -1;
      }
      var room := limit == 0;
      if !room {
        var n := Size();
        room := n < limit;
      }
      if room {
        head.InsertTail(raw);
        return 0;
      }
      return -1;
    }

    method Unshift(raw: Entry?<T>) returns (code: int)
      requires Valid() && (raw != null ==> raw !in head.elems)
      modifies head, head.elems, raw
      ensures Valid()
      ensures raw == null ==> code == -1 && head.elems == old(head.elems)
      ensures raw != null ==> head.elems == Effect(limit, old(head.elems), Deque.Unshift(raw))
      ensures raw != null ==> (code == 0 <==> Reaction(limit, old(head.elems), Deque.Unshift(raw)) == Accepted)
      ensures code == if raw != null && (limit == 0 || |old(head.elems)| < limit) then 0 else -1
      ensures head.elems == (if code == 0 then [raw] else []) + old(head.elems)
    {
      if raw == null {
        return -1;
      }
      var room := limit == 0;
      if !room {
        var n := Size();
        room := n < limit;
      }
      if room {
        head.InsertHead(raw);
        return 0;
      }
      return -1;
    }

    method Shift() returns (raw: Entry?<T>)
      requires Valid()
      modifies head, head.elems
      ensures Valid() && head.elems == Effect(limit, old(head.elems), Deque.Shift)
      ensures raw == null ==> Reaction(limit, old(head.elems), Deque.Shift) == Nothing
      ensures raw != null ==> Reaction(limit, old(head.elems), Deque.Shift) == Taken(raw as Entry<T>)
      ensures if raw == null then old(head.elems) == [] else old(head.elems) == [raw] + head.elems
    {
      hide NoDup, Nexts, Prevs, Dropped, Values;
      raw := head.first;
      if raw != null {
        WithoutFirst(head.elems);
        head.Remove(raw, 0);
        assert old(head.elems) == [old(head.elems)[0]] + head.elems;
      }
    }
  }

  /**
    The packet queue allocates an entry for every packet. The ghost fields remember every
    packet that was added and every packet that left.
   */
  class PacketQueue<Packet> {
    const head: Queue<Packet>
    ghost var added: seq<Packet>
    ghost var left: seq<Packet>

    ghost predicate Valid()
      reads this, head, head.elems
    {
      head.Valid() && added == left + Values(head.elems)
    }

    constructor ()
      ensures Valid() && head.elems == [] && added == [] && left == [] && fresh(head)
    {
      head := new Queue();
      added, left := [], [];
    }

    /** The allocation may fail. */
    method Add(parsed: Packet, memory: bool) returns (code: int)
      requires Valid()
      modifies this, head, head.elems
      ensures Valid() && left == old(left) && (code == 0 <==> memory) && (code == -1 <==> !memory)
      ensures added == old(added) + (if memory then [parsed] else [])
      ensures Values(head.elems) == old(Values(head.elems)) + (if memory then [parsed] else [])
      ensures forall e :: e in head.elems && e !in old(head.elems) ==> fresh(e)
    {
      if !memory {
        return -1;
      }
      var e := new Entry(parsed);
      ghost var before := head.elems;
      head.InsertTail(e);
      added := added + [parsed];
      ValuesAppend(before, [e]);
      return 0;
    }

    method Shift() returns (code: int, parsed: seq<Packet>)
      requires Valid()
      modifies this, head, head.elems
      ensures Valid() && added == old(added) && left == old(left) + parsed
      ensures old(head.elems) == [] ==> code == -1 && parsed == [] && head.elems == []
      ensures old(head.elems) != [] ==> code == 0 && |parsed| == 1
      ensures parsed + Values(head.elems) == old(Values(head.elems))
      ensures forall e :: e in head.elems ==> e in old(head.elems)
    {
      hide NoDup, Nexts, Prevs, Dropped, Values;
      if head.first == null {
        return -1, [];
      }
      var e := head.first;
      WithoutFirst(head.elems);
      head.Remove(e, 0);
      parsed := [e.value];
      left := left + parsed;
      return 0, parsed;
    }

    /** Removes every entry, following a `next` that was read before the entry went. */
    method Flush() returns (code: int)
      requires Valid()
      modifies this, head, head.elems
      ensures Valid() && head.elems == [] && added == old(added) && left == added && code == 0
    {
      hide NoDup, Nexts, Prevs, Dropped;
      ghost var n := 0;
      var entry := head.first;
      while entry != null
        invariant Valid() && entry == head.first && added == old(added)
        invariant n <= |old(head.elems)| && head.elems == old(head.elems)[n..]
        decreases |head.elems|
      {
        assert forall e :: e in head.elems ==> e in old(head.elems);
        NextInLine(head, 0);
        var next := entry.next;
        ghost var packet := entry.value;
        WithoutFirst(head.elems);
        head.Remove(entry, 0);
        left := left + [packet];
        entry, n := next, n + 1;
      }
      return 0;
    }

    /**
      Calls back for every packet in order until one call answers non-zero; the answer of
      the last call is the result.
     */
    method ForEach(answer: Answers<Packet>) returns (code: int, ghost seen: seq<Packet>)
      requires Valid()
      ensures var v := Values(head.elems);
              var k := FirstRefusal(v, 0, answer);
              code == if k == |v| then 0 else answer(k, v[k])
      ensures var v := Values(head.elems);
              var k := FirstRefusal(v, 0, answer);
              seen == if k == |v| then v else v[..k + 1]
    {
      hide NoDup, Nexts, Prevs, Values;
      var i, entry := 0, head.first;
      ghost var v := Values(head.elems);
      ValuesAt(head.elems);
      while entry != null
        invariant i <= |head.elems| && entry == At(head.elems, i)
        invariant forall j :: 0 <= j < i ==> answer(0 + j, v[j]) == 0
        decreases |head.elems| - i
      {
        NextInLine(head, i);
        var next := entry.next;
        code := answer(i, entry.value);
        if code != 0 {
          assert answer(0 + i, v[i]) != 0;
          return code, v[..i + 1];
        }
        entry, i := next, i + 1;
      }
      return 0, v;
    }
  }
}
