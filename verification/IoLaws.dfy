/** What the passes over the lists and the descriptor sets come to, and where the sets fall short. */
module IoLaws {
  import opened IoTime
  import opened Common
  import opened IoSpec
  import opened IoWalk
  import opened IoPass
  import opened IoRound

  lemma {:induction false} CountDistinct(s: seq<Entry>, e: Entry)
    requires Distinct(s)
    ensures multiset(s)[e] == if e in s then 1 else 0
  {
    if s != [] {
      assert s == [s[0]] + s[1..];
      assert Distinct(s[1..]);
      CountDistinct(s[1..], e);
    }
  }

  /** What the callbacks for the first `i` entries were made for: entries among these, each at most once. */
  lemma {:induction false} ServedSoFar(s: State, p: Pass, script: Script, i: nat)
    requires Distinct(s.lists.Get(Listed(p))) && i <= |s.lists.Get(Listed(p))|
    ensures var (g, list) := (Upon(s, p, script, i), s.lists.Get(Listed(p)));
            && Distinct(g.served)
            && (forall e :: e in g.served ==> e in list[..i])
            && (forall j :: 0 <= j < i ==> (list[j] in g.served <==> Due(Upon(s, p, script, j), p, list[j])))
  {
    hide Distinct, Upon, Due, Take;
    var list := s.lists.Get(Listed(p));
    if i == 0 {
      UponNone(s, p, script);
    } else {
      var (g, e) := (Upon(s, p, script, i - 1), list[i - 1]);
      ServedSoFar(s, p, script, i - 1);
      UponNext(s, p, script, i - 1);
      TakeServed(g, p, e, script);
      assert list[..i] == list[..i - 1] + [e];
      NotYet(list, i - 1);
      if Due(g, p, e) {
        OneMore(g.served, e, list, i - 1);
      }
    }
  }

  lemma UponNone(s: State, p: Pass, script: Script)
    ensures Upon(s, p, script, 0) == Progress(s, {}, []) && Distinct(Upon(s, p, script, 0).served)
  {
  }

  lemma TakeServed(g: Progress, p: Pass, e: Entry, script: Script)
    ensures Take(g, p, e, script).served == if Due(g, p, e) then g.served + [e] else g.served
  {
  }

  lemma NotYet(list: seq<Entry>, i: nat)
    requires Distinct(list) && i < |list|
    ensures list[i] !in list[..i] && forall j :: 0 <= j < i ==> list[j] != list[i]
    ensures forall e :: e in list[..i] ==> e.id != list[i].id
  {
  }

  lemma OneMore(s: seq<Entry>, e: Entry, list: seq<Entry>, i: nat)
    requires Distinct(s) && Distinct(list) && i < |list| && e == list[i] && forall d :: d in s ==> d in list[..i]
    ensures Distinct(s + [e])
  {
    NotYet(list, i);
    assert forall j :: 0 <= j < |s| ==> s[j] in s;
  }

  /**
    Over a whole pass, the entry at place `i` of the list as it was at the beginning is called
    back for exactly once if it is due and none of the callbacks made for entries before it has deleted it,
    and otherwise not at all. Nothing else is called back for: not what callbacks register.
   */
  lemma OncePerPass(s: State, p: Pass, script: Script, i: nat)
    requires Inv(s) && i < |s.lists.Get(Listed(p))|
    ensures var (e, served) := (s.lists.Get(Listed(p))[i], AfterPass(s, p, script).served);
            && AfterPass(s, p, script).state.calls == s.calls + served
            && multiset(served)[e] == (if Hit(p, e) && e.id !in Upon(s, p, script, i).gone then 1 else 0)
            && (forall d :: d in served ==> d in s.lists.Get(Listed(p)))
  {
    hide Inv, Distinct, Along;
    var list := s.lists.Get(Listed(p));
    InvMembers(s, Listed(p), list[i]);
    ServedSoFar(s, p, script, |list|);
    AlongCalls(Progress(s, {}, []), p, list[..|list|], script);
    CountDistinct(AfterPass(s, p, script).served, list[i]);
    assert list[..|list|] == list;
  }

  /** The entries to call back for, in order. */
  function Hits(p: Pass, s: seq<Entry>): seq<Entry> {
    if s == [] then [] else (if Hit(p, s[0]) then [s[0]] else []) + Hits(p, s[1..])
  }

  ghost predicate OnlyAdds(script: Script) {
    forall e, r :: r in script(e) ==> !r.Delete? && !r.DeleteTimer?
  }

  lemma {:induction false} NothingGone(s: State, rs: seq<Request>)
    requires forall r :: r in rs ==> !r.Delete? && !r.DeleteTimer?
    ensures GoneAll(s, rs) == {}
    decreases |rs|
  {
    if rs != [] {
      NothingGone(Perform(s, rs[0]), rs[1..]);
    }
  }

  /** When callbacks delete nothing, exactly the due entries are served, in order, and nothing can break. */
  lemma GentlePass(s: State, p: Pass, script: Script)
    requires OnlyAdds(script)
    ensures AfterPass(s, p, script).served == Hits(p, s.lists.Get(Listed(p)))
    ensures AfterPass(s, p, script).gone == {} && !Breaks(s, p, script)
  {
    hide Along, OnlyAdds;
    var list := s.lists.Get(Listed(p));
    assert list[..|list|] == list;
    GentleAlong(Progress(s, {}, []), p, list, script);
    forall i | 0 <= i < |list| ensures !BreaksAt(s, p, script, i) {
      GentleAlong(Progress(s, {}, []), p, list[..i], script);
      GentleCall(Upon(s, p, script, i).state, list[i], script);
    }
  }

  lemma GentleCall(s: State, e: Entry, script: Script)
    requires OnlyAdds(script)
    ensures Deletes(s, e, script) == {}
  {
    NothingGone(Noted(s, e), script(e));
  }

  lemma {:induction false} GentleAlong(g: Progress, p: Pass, list: seq<Entry>, script: Script)
    requires OnlyAdds(script) && g.gone == {}
    ensures var h := Along(g, p, list, script); h.gone == {} && h.served == g.served + Hits(p, list)
    decreases |list|
  {
    hide OnlyAdds, Take;
    if list != [] {
      var h := Take(g, p, list[0], script);
      GentleTake(g, p, list[0], script);
      GentleAlong(h, p, list[1..], script);
      var one := if Hit(p, list[0]) then [list[0]] else [];
      Regroup(g.served, one, Hits(p, list[1..]));
    }
  }

  lemma GentleTake(g: Progress, p: Pass, e: Entry, script: Script)
    requires OnlyAdds(script) && g.gone == {}
    ensures var h := Take(g, p, e, script); h.gone == {} && h.served == g.served + if Hit(p, e) then [e] else []
  {
    hide OnlyAdds, Deletes, Call, Finish;
    GentleCall(g.state, e, script);
    assert g.served + [] == g.served;
  }

  lemma {:induction false} SettleMembers(p: Pass, s: seq<Entry>)
    ensures forall d :: d in Settle(p, s) <==> exists e :: e in s && d in Settled(p, e)
  {
    if s != [] {
      SettleMembers(p, s[1..]);
      assert s == [s[0]] + s[1..];
      forall d | d in Settle(p, s) ensures exists e :: e in s && d in Settled(p, e) {
        if d in Settled(p, s[0]) {
          assert s[0] in s;
        } else {
          assert d in Settle(p, s[1..]);
          var e :| e in s[1..] && d in Settled(p, e);
          assert e in s;
        }
      }
      forall d, e | e in s && d in Settled(p, e) ensures d in Settle(p, s) {
        if e != s[0] {
          assert e in s[1..];
          assert d in Settle(p, s[1..]);
        }
      }
    }
  }

  lemma SameId(p: Pass, e: Entry)
    ensures forall d :: d in Settled(p, e) ==> d.id == e.id
  {
  }

  /**
    Of the entries that no callback deleted, exactly the due ones that were to be served once are
    missing afterwards; the due others are there with their next deadline, the rest as they were.
   */
  lemma LeavesExactly(s: State, p: Pass, script: Script, e: Entry)
    requires Inv(s) && !Breaks(s, p, script) && (p.Expired? ==> p.now == s.clock)
    requires e in s.lists.Get(Listed(p)) && e.id !in AfterPass(s, p, script).gone
    ensures var after := AfterPass(s, p, script).state.lists.Get(Listed(p));
            && (e.id !in Ids(after) <==> Hit(p, e) && (e.once || p.Closing?))
            && (forall d :: d in Settled(p, e) ==> d in after)
  {
    hide Inv, Breaks, AfterPass, Evolved, Others, Timely;
    var (g, before) := (AfterPass(s, p, script), s.lists.Get(Listed(p)));
    PassShape(s, p, script);
    InvMembers(s, Listed(p), e);
    SettledLeaves(p, before, g.state.lists.Get(Listed(p)), g.gone, s.serial, e);
  }

  lemma SettledLeaves(p: Pass, before: seq<Entry>, after: seq<Entry>, gone: set<nat>, serial: nat, e: Entry)
    requires Evolved(Settle(p, before), after, gone, serial) && Distinct(before)
    requires e in before && e.id < serial && e.id !in gone
    ensures e.id !in Ids(after) <==> Hit(p, e) && (e.once || p.Closing?)
    ensures forall d :: d in Settled(p, e) ==> d in after
  {
    hide Evolved, Minus, Settle;
    var all := Settle(p, before);
    var news := EvolvedElim(all, after, gone, serial);
    MinusMembers(all, gone);
    SettleMembers(p, before);
    SameId(p, e);
    forall d | d in after && d.id == e.id ensures d in Settled(p, e) {
      var o :| o in before && d in Settled(p, o);
      SameId(p, o);
      OneId(before, o, e);
    }
    assert forall d :: d in Settled(p, e) ==> d in Minus(all, gone);
    assert forall d :: d in Minus(all, gone) ==> d in after;
    if Settled(p, e) != [] {
      var d := Settled(p, e)[0];
      assert d in Settled(p, e) && d in after;
      assert d.id in Ids(after);
    }
  }

  lemma OneId(s: seq<Entry>, d: Entry, e: Entry)
    requires Distinct(s) && d in s && e in s && d.id == e.id
    ensures d == e
  {
  }

  // ---------------------------------------------------------------- descriptor sets

  /** Another entry for the same descriptor. */
  ghost predicate Shared(list: seq<Entry>, e: Entry) {
    e.Waiter? && exists d :: d in list && d.Waiter? && d.id != e.id && d.fd == e.fd
  }

  /**
    Serving an error entry once clears a bit in the wrong set. The errors set still has an
    entry for each of its descriptors exactly when this one was not in it or has another entry.
   */
  lemma ErrorBacked(s: State, e: Entry)
    requires Inv(s) && e in s.lists.onError && Backed(s.sets.errors, s.lists.onError)
    ensures var t := Retire(s, Error, e);
            Backed(t.sets.errors, t.lists.onError) <==> e.fd !in s.sets.errors || Shared(s.lists.onError, e)
  {
    hide Inv, Retire;
    var list := s.lists.onError;
    var after := Retire(s, Error, e).lists.onError;
    RetiredMembers(s, Error, e);
    assert Retire(s, Error, e).sets.errors == s.sets.errors by { ErrorsStay(s, e); }
    if e.fd !in s.sets.errors || Shared(list, e) {
      forall fd | fd in s.sets.errors ensures exists d :: d in after && d.Waiter? && d.fd == fd {
        if fd == e.fd {
          var d :| d in list && d.Waiter? && d.id != e.id && d.fd == e.fd;
          assert d in after;
        } else {
          var d :| d in list && d.Waiter? && d.fd == fd;
          assert d in after;
        }
      }
    }
  }

  lemma InvMembers(s: State, k: Kind, e: Entry)
    requires Inv(s) && e in s.lists.Get(k)
    ensures Distinct(s.lists.Get(k)) && e.id < s.serial
  {
    Members(s, k, e);
  }

  lemma ErrorsStay(s: State, e: Entry)
    ensures Retire(s, Error, e).sets.errors == s.sets.errors
  {
  }

  lemma RetiredMembers(s: State, k: Kind, e: Entry)
    requires Inv(s) && e in s.lists.Get(k)
    ensures e.Waiter? <==> k != Timer
    ensures forall d :: d in Retire(s, k, e).lists.Get(k) <==> d in s.lists.Get(k) && d.id != e.id
    ensures forall d :: d in s.lists.Get(k) && d.id == e.id ==> d == e
  {
    hide Minus, Replaced, Distinct, Proper;
    var list := s.lists.Get(k);
    Members(s, k, e);
    forall d | d in list && d.id == e.id ensures d == e {
      OneId(list, d, e);
    }
    var i :| 0 <= i < |list| && list[i] == e;
    ReplacedAt(list, i, []);
    MinusOne(list, i);
    MinusMembers(list, {e.id});
    assert list[..i] + [] + list[i + 1..] == list[..i] + list[i + 1..];
  }

  /** Every entry of the list has its descriptor in the set. */
  ghost predicate Watched(fds: set<int>, list: seq<Entry>) {
    forall e :: e in list && e.Waiter? ==> e.fd in fds
  }

  /**
    A descriptor with two entries, one of which is deleted, is no longer watched for the other; nothing
    else goes wrong.
   */
  lemma DeleteWatched(s: State, k: Channel, fd: nat, cb: int)
    requires Inv(s) && Watched(s.sets.Get(k), s.lists.Get(k))
    ensures var t := Perform(s, Delete(k, fd, cb));
            var list := s.lists.Get(k); var i := Find(list, Wanted(Delete(k, fd, cb)));
            Watched(t.sets.Get(k), t.lists.Get(k)) <==> i == |list| || !Shared(list, list[i])
  {
    hide Minus, Distinct, Inv, Perform, Find;
    var list := s.lists.Get(k);
    var i := Find(list, Wanted(Delete(k, fd, cb)));
    Deleting(s, Delete(k, fd, cb), i);
    if i < |list| {
      var e := list[i];
      assert Distinct(list) by { InvMembers(s, k, e); }
      MinusOne(list, i);
      MinusMembers(list, {e.id});
      var after := Perform(s, Delete(k, fd, cb)).lists.Get(k);
      assert forall d :: d in after <==> d in list && d.id != e.id;
    }
  }

  /** Serving a one-time reader or writer clears the bit in the same way. */
  lemma RetireWatched(s: State, k: Channel, e: Entry)
    requires Inv(s) && Watched(s.sets.Get(k), s.lists.Get(k)) && e in s.lists.Get(k) && k != Error
    ensures var t := Retire(s, k, e); Watched(t.sets.Get(k), t.lists.Get(k)) <==> !Shared(s.lists.Get(k), e)
  {
    hide Inv, Retire;
    RetiredMembers(s, k, e);
    RetiredSet(s, k, e);
  }

  lemma RetiredSet(s: State, k: Channel, e: Entry)
    requires e.Waiter? && k != Error
    ensures Retire(s, k, e).sets.Get(k) == s.sets.Get(k) - {e.fd}
  {
  }

  /**
    Serving a one-time error entry clears the bit of the writers. Every write entry is still watched
    exactly when none of them waits for the descriptor with the error.
   */
  lemma ErrorForgetsWriters(s: State, e: Entry)
    requires Inv(s) && e in s.lists.onError && Watched(s.sets.writers, s.lists.onWrite)
    ensures var t := Retire(s, Error, e);
            Watched(t.sets.writers, t.lists.onWrite) <==>
            forall d :: d in s.lists.onWrite && d.Waiter? ==> d.fd != e.fd
  {
    hide Inv, Retire;
    RetiredMembers(s, Error, e);
    RetiredByError(s, e);
  }

  lemma RetiredByError(s: State, e: Entry)
    requires e.Waiter?
    ensures var t := Retire(s, Error, e);
            t.sets.writers == s.sets.writers - {e.fd} && t.lists.onWrite == s.lists.onWrite
  {
  }

  /** Registering never leaves an entry unwatched. */
  lemma RegisterWatched(s: State, k: Channel, fd: nat, cb: int, once: bool)
    requires Watched(s.sets.Get(k), s.lists.Get(k))
    ensures var t := Perform(s, Register(k, fd, cb, once)); Watched(t.sets.Get(k), t.lists.Get(k))
  {
  }

  /** A loop in which nothing is registered. */
  function Fresh(now: Moment): State {
    State(Lists([], [], [], [], [], []), 0, Sets({}, {}, {}), 0, now, false, 0, [])
  }

  lemma PerformTwo(s: State, a: Request, b: Request)
    ensures PerformAll(s, [a, b]) == Perform(Perform(s, a), b)
  {
    assert [a, b][1..] == [b] && [b][1..] == [];
    assert PerformAll(Perform(s, a), [b]) == PerformAll(Perform(Perform(s, a), b), []);
  }

  /** Two readers of descriptor 5, one of which is deleted: the other waits for a descriptor nobody watches. */
  lemma DeletedTwin(now: Moment)
    ensures var s := PerformAll(Fresh(now), [Register(Read, 5, 1, false), Register(Read, 5, 2, false)]);
            var t := Perform(s, Delete(Read, 5, 1));
            t.lists.onRead == [Waiter(1, 5, 2, false)] && t.sets.readers == {}
  {
    var a, b := Register(Read, 5, 1, false), Register(Read, 5, 2, false);
    PerformTwo(Fresh(now), a, b);
    var s := Perform(Perform(Fresh(now), a), b);
    assert s.lists.onRead == [Waiter(1, 5, 2, false), Waiter(0, 5, 1, false)];
    Deleting(s, Delete(Read, 5, 1), 1);
  }

  /** A one-time reader and another one of descriptor 5, which becomes readable: the same after the first is served. */
  lemma ServedTwin(now: Moment)
    ensures var s := PerformAll(Fresh(now), [Register(Read, 5, 2, false), Register(Read, 5, 1, true)]);
            var t := AfterPass(s, Readable(5), (e: Entry) => []).state;
            t.lists.onRead == [Waiter(0, 5, 2, false)] && t.sets.readers == {}
  {
    var a, b := Register(Read, 5, 2, false), Register(Read, 5, 1, true);
    hide Take, Along;
    PerformTwo(Fresh(now), a, b);
    var s := Perform(Perform(Fresh(now), a), b);
    var (d, e) := (Waiter(1, 5, 1, true), Waiter(0, 5, 2, false));
    assert s.lists.onRead == [d, e] && s.sets.readers == {5};
    var script: Script := (e: Entry) => [];
    QuietTake(Progress(s, {}, []), Readable(5), d, script);
    var g := Take(Progress(s, {}, []), Readable(5), d, script);
    assert Replaced([d, e], 1, []) == [e] by { assert [d, e][1..] == [e]; }
    assert g.state.lists.onRead == [e] && g.state.sets.readers == {};
    QuietTake(g, Readable(5), e, script);
    AlongTwo(Progress(s, {}, []), Readable(5), d, e, script);
    assert [d, e][..2] == [d, e];
  }

  lemma QuietTake(g: Progress, p: Pass, e: Entry, script: Script)
    requires script(e) == [] && Hit(p, e) && g.gone == {}
    ensures Take(g, p, e, script) == Progress(Finish(Noted(g.state, e), p, e), {}, g.served + [e])
  {
  }

  lemma AlongTwo(g: Progress, p: Pass, d: Entry, e: Entry, script: Script)
    ensures Along(g, p, [d, e], script) == Take(Take(g, p, d, script), p, e, script)
  {
    hide Take;
    assert [d, e][1..] == [e];
    AlongOne(Take(g, p, d, script), p, e, script);
  }

  /**
    A one-time error entry and a write entry for descriptor 5: after the error the
    descriptor is still in the set of errors, which nobody waits for, and the writer is forgotten.
   */
  lemma WrongSet(now: Moment)
    ensures var s := PerformAll(Fresh(now), [Register(Error, 5, 1, true), Register(Write, 5, 2, false)]);
            var t := AfterFirst(s, Error, 5, (e: Entry) => []);
            t.lists.onError == [] && t.sets.errors == {5} && t.lists.onWrite == [Waiter(1, 5, 2, false)]
                && t.sets.writers == {}
  {
    var a, b := Register(Error, 5, 1, true), Register(Write, 5, 2, false);
    PerformTwo(Fresh(now), a, b);
    var s := Perform(Perform(Fresh(now), a), b);
    var e := Waiter(0, 5, 1, true);
    assert s.lists.onError == [e] && s.sets.errors == {5} && s.sets.writers == {5};
    assert Replaced([e], 0, []) == [] by { assert [e][1..] == []; }
  }

  // ---------------------------------------------------------------- passes that break

  /** Two readers of descriptor 5 with the same callback, which deletes one of them: the one being served goes. */
  lemma SelfDeletingReader(now: Moment)
    ensures var s := PerformAll(Fresh(now), [Register(Read, 5, 1, false), Register(Read, 5, 1, false)]);
            Breaks(s, Readable(5), (e: Entry) => [Delete(Read, 5, 1)])
  {
    var a := Register(Read, 5, 1, false);
    PerformTwo(Fresh(now), a, a);
    var s := Perform(Perform(Fresh(now), a), a);
    var (d, e) := (Waiter(1, 5, 1, false), Waiter(0, 5, 1, false));
    assert s.lists.onRead == [d, e];
    var script: Script := (e: Entry) => [Delete(Read, 5, 1)];
    DeletesOne(s, d, script, 0);
    assert s.lists.onRead[..0] == [];
    UponNone(s, Readable(5), script);
    assert BreaksAt(s, Readable(5), script, 0);
  }

  /** A writer whose callback deletes it. */
  lemma SelfDeletingWriter(now: Moment)
    ensures var s := Perform(Fresh(now), Register(Write, 5, 1, true));
            FirstBreaks(s, Write, 5, (e: Entry) => [Delete(Write, 5, 1)])
  {
    var s := Perform(Fresh(now), Register(Write, 5, 1, true));
    var d := Waiter(0, 5, 1, true);
    assert s.lists.onWrite == [d];
    DeletesOne(s, d, (e: Entry) => [Delete(Write, 5, 1)], 0);
  }

  /** What a callback that makes one deletion deletes. */
  lemma DeletesOne(s: State, e: Entry, script: Script, i: nat)
    requires |script(e)| == 1 && script(e)[0].Delete?
    requires var list := s.lists.Get(Target(script(e)[0])); i < |list| && Wanted(script(e)[0])(list[i])
    requires forall j :: 0 <= j < i ==> !Wanted(script(e)[0])(s.lists.Get(Target(script(e)[0]))[j])
    ensures Deletes(s, e, script) == {s.lists.Get(Target(script(e)[0]))[i].id}
  {
    var (n, r) := (Noted(s, e), script(e)[0]);
    Deleting(n, r, i);
    assert script(e)[1..] == [];
    assert GoneAll(n, script(e)) == Gone(n, r) + GoneAll(Perform(n, r), []);
  }
}
