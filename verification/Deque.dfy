/**
  The raw queue and the packet queue as their users see them: what any run of calls does to
  a sequence. The limit zero means no limit.
 */
module Deque {
  import opened Common

  datatype Call<T> = Add(item: T) | Unshift(item: T) | Shift
  datatype Reply<T> = Accepted | Full | Taken(item: T) | Nothing

  predicate Room(limit: nat, size: nat) {
    limit == 0 || size < limit
  }

  function Reaction<T>(limit: nat, s: seq<T>, c: Call<T>): Reply<T> {
    match c
    case Add(x) => if Room(limit, |s|) then Accepted else Full
    case Unshift(x) => if Room(limit, |s|) then Accepted else Full
    case Shift => if s == [] then Nothing else Taken(s[0])
  }

  function Effect<T>(limit: nat, s: seq<T>, c: Call<T>): seq<T> {
    match c
    case Add(x) => if Room(limit, |s|) then s + [x] else s
    case Unshift(x) => if Room(limit, |s|) then [x] + s else s
    case Shift => if s == [] then s else s[1..]
  }

  function Run<T>(limit: nat, s: seq<T>, calls: seq<Call<T>>): seq<T>
    decreases |calls|
  {
    if calls == [] then s else Run(limit, Effect(limit, s, calls[0]), calls[1..])
  }

  /** What one call lets in, and what it hands out. */
  function In<T>(limit: nat, s: seq<T>, c: Call<T>): seq<T> {
    if Reaction(limit, s, c) == Accepted then [c.item] else []
  }

  function Out<T>(limit: nat, s: seq<T>, c: Call<T>): seq<T> {
    var r := Reaction(limit, s, c);
    if r.Taken? then [r.item] else []
  }

  function Ins<T>(limit: nat, s: seq<T>, calls: seq<Call<T>>): seq<T>
    decreases |calls|
  {
    if calls == [] then [] else In(limit, s, calls[0]) + Ins(limit, Effect(limit, s, calls[0]), calls[1..])
  }

  function Outs<T>(limit: nat, s: seq<T>, calls: seq<Call<T>>): seq<T>
    decreases |calls|
  {
    if calls == [] then [] else Out(limit, s, calls[0]) + Outs(limit, Effect(limit, s, calls[0]), calls[1..])
  }

  /** A run never takes the queue over a limit. */
  lemma {:induction false} RunBounded<T>(limit: nat, s: seq<T>, calls: seq<Call<T>>)
    requires limit != 0 ==> |s| <= limit
    ensures limit != 0 ==> |Run(limit, s, calls)| <= limit
    decreases |calls|
  {
    if calls != [] {
      RunBounded(limit, Effect(limit, s, calls[0]), calls[1..]);
    }
  }

  /** A refused or an empty-handed call changes nothing, and only those: the others change the size by one. */
  lemma Refused<T>(limit: nat, s: seq<T>, c: Call<T>)
    ensures Reaction(limit, s, c) in {Full, Nothing} <==> Effect(limit, s, c) == s
  {
    if Effect(limit, s, c) == s {
      assert |Effect(limit, s, c)| == |s|;
    }
  }

  /** Something comes in exactly below the limit, and goes out exactly when there is something. */
  lemma Accepting<T>(limit: nat, s: seq<T>, x: T)
    ensures In(limit, s, Add(x)) == In(limit, s, Unshift(x)) == if limit == 0 || |s| < limit then [x] else []
    ensures Out(limit, s, Shift) + Effect(limit, s, Shift) == s && (Out(limit, s, Shift) == [] <==> s == [])
  {
  }

  lemma StepConserves<T>(limit: nat, s: seq<T>, c: Call<T>)
    ensures multiset(s) + multiset(In(limit, s, c)) == multiset(Out(limit, s, c)) + multiset(Effect(limit, s, c))
  {
    match c
    case Add(x) =>
    case Unshift(x) => assert multiset([x] + s) == multiset([x]) + multiset(s);
    case Shift => FirstAndRest(s);
  }

  lemma FirstAndRest<T>(s: seq<T>)
    ensures s != [] ==> multiset(s) == multiset([s[0]]) + multiset(s[1..])
  {
    if s != [] {
      assert s == [s[0]] + s[1..];
    }
  }

  lemma Chain<T>(s: multiset<T>, i: multiset<T>, o: multiset<T>, t: multiset<T>, i': multiset<T>, o': multiset<T>,
      u: multiset<T>)
    requires s + i == o + t && t + i' == o' + u
    ensures s + (i + i') == (o + o') + u
  {
    assert s + (i + i') == (s + i) + i';
    assert (o + t) + i' == o + (t + i');
  }

  /** Nothing is lost and nothing is made up: what was there and came in is what went out and is there. */
  lemma {:induction false} RunConserves<T>(limit: nat, s: seq<T>, calls: seq<Call<T>>)
    ensures multiset(s) + multiset(Ins(limit, s, calls))
         == multiset(Outs(limit, s, calls)) + multiset(Run(limit, s, calls))
    decreases |calls|
  {
    hide In, Out, Effect;
    if calls != [] {
      var t := Effect(limit, s, calls[0]);
      StepConserves(limit, s, calls[0]);
      RunConserves(limit, t, calls[1..]);
      Chain(multiset(s), multiset(In(limit, s, calls[0])), multiset(Out(limit, s, calls[0])), multiset(t),
            multiset(Ins(limit, t, calls[1..])), multiset(Outs(limit, t, calls[1..])),
                multiset(Run(limit, t, calls[1..])));
    }
  }

  lemma StepFifo<T>(limit: nat, s: seq<T>, c: Call<T>)
    requires !c.Unshift?
    ensures s + In(limit, s, c) == Out(limit, s, c) + Effect(limit, s, c)
  {
  }

  /** Without calls that put things back, items leave in the order in which they came. */
  lemma {:induction false} RunFifo<T>(limit: nat, s: seq<T>, calls: seq<Call<T>>)
    requires forall c :: c in calls ==> !c.Unshift?
    ensures s + Ins(limit, s, calls) == Outs(limit, s, calls) + Run(limit, s, calls)
    decreases |calls|
  {
    hide In, Out, Effect;
    if calls != [] {
      var t := Effect(limit, s, calls[0]);
      StepFifo(limit, s, calls[0]);
      RunFifo(limit, t, calls[1..]);
      Regroup(s, In(limit, s, calls[0]), Ins(limit, t, calls[1..]));
      Regroup(Out(limit, s, calls[0]), t, Ins(limit, t, calls[1..]));
      Regroup(Out(limit, s, calls[0]), Outs(limit, t, calls[1..]), Run(limit, t, calls[1..]));
    }
  }

  /** What was taken can always be put back, and then the queue is as it was. */
  lemma PutBack<T>(limit: nat, s: seq<T>, x: T)
    requires limit != 0 ==> |s| <= limit
    ensures Reaction(limit, s, Shift) == Taken(x) ==> Run(limit, s, [Shift, Unshift(x)]) == s
  {
    if Reaction(limit, s, Shift) == Taken(x) {
      var calls := [Shift, Unshift(x)];
      assert calls[1..] == [Unshift(x)] && calls[1..][1..] == [];
      assert Run(limit, s, calls) == Run(limit, s[1..], [Unshift(x)]) == Run(limit, [x] + s[1..], []);
    }
  }
}
