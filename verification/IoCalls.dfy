/**
  Who is called back for and who leaves, in terms of descriptors, callbacks and deadlines, whatever
  the callbacks ask for.
 */
module IoCalls {
  import opened IoTime
  import opened Common
  import opened IoSpec
  import opened IoWalk
  import opened IoPass
  import opened IoRound
  import opened IoLaws

  ghost predicate Concerned(e: Entry, fd: int) {
    e.Waiter? && e.fd == fd
  }

  /** Place `i` has the first entry for the descriptor. */
  ghost predicate FirstConcerned(list: seq<Entry>, fd: int, i: int) {
    0 <= i < |list| && Concerned(list[i], fd) && forall j :: 0 <= j < i ==> !Concerned(list[j], fd)
  }

  ghost predicate Asked(e: Entry, fd: int, cb: int) {
    e.Waiter? && e.fd == fd && e.cb == cb
  }

  /** Place `i` has the first entry with both descriptor and callback. */
  ghost predicate FirstAsked(list: seq<Entry>, fd: int, cb: int, i: int) {
    0 <= i < |list| && Asked(list[i], fd, cb) && forall j :: 0 <= j < i ==> !Asked(list[j], fd, cb)
  }

  ghost predicate FirstTimer(list: seq<Entry>, cb: int, i: int) {
    0 <= i < |list| && list[i].cb == cb && forall j :: 0 <= j < i ==> list[j].cb != cb
  }

  // ---------------------------------------------------------------- deletions

  /** The first entry that fits is taken out, and nothing else; without one nothing happens. */
  lemma DeletesAsked(s: State, k: Channel, fd: nat, cb: int)
    ensures var (list, t) := (s.lists.Get(k), Perform(s, Delete(k, fd, cb)));
            && (forall i :: FirstAsked(list, fd, cb, i) ==>
                  && t.lists.Get(k) == list[..i] + list[i + 1..] && t.sets.Get(k) == s.sets.Get(k) - {fd}
                  && Gone(s, Delete(k, fd, cb)) == {list[i].id})
            && ((forall e :: e in list ==> !Asked(e, fd, cb)) ==> t == s && Gone(s, Delete(k, fd, cb)) == {})
  {
    hide Perform, Gone, Find;
    var (list, r) := (s.lists.Get(k), Delete(k, fd, cb));
    forall i | FirstAsked(list, fd, cb, i)
      ensures Perform(s, r) == Without(s, r, i) && Gone(s, r) == {list[i].id}
    {
      assert forall j :: 0 <= j < i ==> !Asked(list[j], fd, cb);
      Deleting(s, r, i);
    }
    if forall e :: e in list ==> !Asked(e, fd, cb) {
      assert forall j :: 0 <= j < |list| ==> list[j] in list;
      Deleting(s, r, |list|);
    }
  }

  lemma DeletesTimer(s: State, cb: int)
    ensures var (list, t) := (s.lists.onTimer, Perform(s, DeleteTimer(cb)));
            && (forall i :: FirstTimer(list, cb, i) ==> t.lists.onTimer == list[..i] + list[i + 1..])
            && ((forall e :: e in list ==> e.cb != cb) ==> t == s)
  {
    hide Perform, Gone, Find;
    var (list, r) := (s.lists.onTimer, DeleteTimer(cb));
    forall i | FirstTimer(list, cb, i) ensures Perform(s, r) == Without(s, r, i) {
      Deleting(s, r, i);
    }
    if forall e :: e in list ==> e.cb != cb {
      assert forall j :: 0 <= j < |list| ==> list[j] in list;
      Deleting(s, r, |list|);
    }
  }

  // ---------------------------------------------------------------- only the first entry

  /** Of the entries for a descriptor only the first is called back for, and it leaves if it was there for one time. */
  lemma ServesFirst(s: State, k: Kind, fd: int, script: Script)
    requires Inv(s)
    ensures var (list, t) := (s.lists.Get(k), AfterFirst(s, k, fd, script));
            && (forall i :: FirstConcerned(list, fd, i) ==>
                  && First(s, k, fd) == i && t.calls == s.calls + [list[i]]
                  && (!FirstBreaks(s, k, fd, script) ==> (list[i] in t.lists.Get(k) <==> !list[i].once)))
            && ((forall e :: e in list ==> !Concerned(e, fd)) ==>
                  t == s && First(s, k, fd) == |list| && !FirstBreaks(s, k, fd, script))
  {
    hide Inv, Call, Retire, Evolved, Ids;
    var list := s.lists.Get(k);
    forall i | FirstConcerned(list, fd, i)
      ensures First(s, k, fd) == i && AfterFirst(s, k, fd, script).calls == s.calls + [list[i]]
      ensures !FirstBreaks(s, k, fd, script) ==>
                (list[i] in AfterFirst(s, k, fd, script).lists.Get(k) <==> !list[i].once)
    {
      FoundAt(s, k, fd, i);
      FirstServed(s, k, list[i], script);
    }
    if forall e :: e in list ==> !Concerned(e, fd) {
      assert forall j :: 0 <= j < |list| ==> list[j] in list;
    }
  }

  lemma FoundAt(s: State, k: Kind, fd: int, i: nat)
    requires FirstConcerned(s.lists.Get(k), fd, i)
    ensures First(s, k, fd) == i
  {
    var list, j := s.lists.Get(k), First(s, k, fd);
    assert j < |list| ==> For(fd)(list[j]) && Concerned(list[j], fd);
    assert For(fd)(list[i]);
  }

  lemma FirstServed(s: State, k: Kind, e: Entry, script: Script)
    requires Inv(s) && e in s.lists.Get(k)
    ensures var t := Call(s, e, script);
            && t.calls == s.calls + [e]
            && (e.id !in Deletes(s, e, script) ==> e in t.lists.Get(k) && e !in Retire(t, k, e).lists.Get(k))
            && Retire(t, k, e).calls == t.calls
  {
    hide Inv, PerformAll, Retire, Evolved, Ids, Deletes, Distinct;
    var t := Call(s, e, script);
    PerformAllCalls(Noted(s, e), script(e));
    FirstSeen(s, k, e, script);
    NotedInv(s, e);
    PerformAllKeeps(Noted(s, e), script(e));
    RetiredCalls(t, k, e);
    if e.id !in Deletes(s, e, script) {
      assert e in t.lists.Get(k);
      RetiredMembers(t, k, e);
    }
  }

  lemma RetiredCalls(s: State, k: Kind, e: Entry)
    ensures Retire(s, k, e).calls == s.calls
  {
  }

  /** The entries for a descriptor, in order. */
  ghost function ConcernedAmong(list: seq<Entry>, fd: int): seq<Entry> {
    if list == [] then [] else (if Concerned(list[0], fd) then [list[0]] else []) + ConcernedAmong(list[1..], fd)
  }

  /** The first of them, if there is any. */
  ghost function FirstAmong(list: seq<Entry>, fd: int): seq<Entry> {
    ConcernedAmong(list, fd)[..if ConcernedAmong(list, fd) == [] then 0 else 1]
  }

  lemma {:induction false} FirstFound(list: seq<Entry>, fd: int)
    ensures var i := Find(list, For(fd)); FirstAmong(list, fd) == if i == |list| then [] else [list[i]]
  {
    if list != [] && !Concerned(list[0], fd) {
      FirstFound(list[1..], fd);
    }
  }

  /** Whatever the callback asks for. */
  lemma FirstCalls(s: State, k: Kind, fd: int, script: Script)
    ensures AfterFirst(s, k, fd, script).calls == s.calls + FirstAmong(s.lists.Get(k), fd)
  {
    hide PerformAll, Retire, FirstAmong, FirstBreaks;
    var list, i := s.lists.Get(k), First(s, k, fd);
    FirstFound(list, fd);
    if i < |list| {
      PerformAllCalls(Noted(s, list[i]), script(list[i]));
      RetiredCalls(Call(s, list[i], script), k, list[i]);
    }
  }

  // ---------------------------------------------------------------- passes

  /** The timers that are overdue, in order. */
  ghost function OverdueAmong(list: seq<Entry>, now: Moment): seq<Entry> {
    if list == [] then [] else (if Overdue(list[0], now) then [list[0]] else []) + OverdueAmong(list[1..], now)
  }

  /**
    The timer at place `i` of the list as it was at the beginning is called back for once if it is overdue and
    no callback made before its turn deleted it, and otherwise not at all; nor is anything but overdue timers.
   */
  lemma TimerOnce(s: State, now: Moment, script: Script, i: nat)
    requires Inv(s) && i < |s.lists.onTimer|
    ensures var (e, g) := (s.lists.onTimer[i], AfterPass(s, Expired(now), script));
            && g.state.calls == s.calls + g.served
            && multiset(g.served)[e] ==
               (if Overdue(e, now) && e.id !in Upon(s, Expired(now), script, i).gone then 1 else 0)
            && forall d :: d in g.served ==> d in s.lists.onTimer && Overdue(d, now)
  {
    hide Inv, Upon;
    OncePerPass(s, Expired(now), script, i);
    ServedHit(s, Expired(now), script, |s.lists.onTimer|);
  }

  /** The same for the readers of a descriptor. */
  lemma ReaderOnce(s: State, fd: nat, script: Script, i: nat)
    requires Inv(s) && i < |s.lists.onRead|
    ensures var (e, g) := (s.lists.onRead[i], AfterPass(s, Readable(fd), script));
            && g.state.calls == s.calls + g.served
            && multiset(g.served)[e] ==
               (if Concerned(e, fd) && e.id !in Upon(s, Readable(fd), script, i).gone then 1 else 0)
            && forall d :: d in g.served ==> d in s.lists.onRead && Concerned(d, fd)
  {
    hide Inv, Upon;
    OncePerPass(s, Readable(fd), script, i);
    ServedHit(s, Readable(fd), script, |s.lists.onRead|);
  }

  /** When the loop is closed, every close entry has its turn. */
  lemma CloserOnce(s: State, script: Script, i: nat)
    requires Inv(s) && i < |s.lists.onClose|
    ensures var (e, g) := (s.lists.onClose[i], AfterPass(s, Closing, script));
            && g.state.calls == s.calls + g.served
            && multiset(g.served)[e] == (if e.id !in Upon(s, Closing, script, i).gone then 1 else 0)
            && forall d :: d in g.served ==> d in s.lists.onClose
  {
    hide Inv, Upon;
    OncePerPass(s, Closing, script, i);
  }

  /** Whom the callbacks for the first `i` entries were made for. */
  lemma ServedHit(s: State, p: Pass, script: Script, i: nat)
    requires i <= |s.lists.Get(Listed(p))|
    ensures var g := Upon(s, p, script, i);
            g.state.calls == s.calls + g.served
            && forall e :: e in g.served ==> e in s.lists.Get(Listed(p)) && Hit(p, e)
  {
    hide Along;
    var list := s.lists.Get(Listed(p));
    AlongCalls(Progress(s, {}, []), p, list[..i], script);
    AlongHit(Progress(s, {}, []), p, list[..i], script);
  }

  lemma {:induction false} AlongHit(g: Progress, p: Pass, list: seq<Entry>, script: Script)
    ensures forall e :: e in Along(g, p, list, script).served ==> e in g.served || (e in list && Hit(p, e))
    decreases |list|
  {
    hide Call, Deletes, Finish;
    if list != [] {
      AlongHit(Take(g, p, list[0], script), p, list[1..], script);
    }
  }

  /** Whether or not a pass breaks, it calls back only for entries that were there and due. */
  lemma PassCalls(s: State, p: Pass, script: Script)
    ensures var t := PassState(s, p, script);
            && s.calls <= t.calls
            && forall e :: e in t.calls[|s.calls|..] ==> e in s.lists.Get(Listed(p)) && Hit(p, e)
  {
    hide Upon, Harms, Deletes, PerformAll;
    var (list, i) := (s.lists.Get(Listed(p)), BreakFrom(s, p, script, 0));
    ServedHit(s, p, script, i);
    if i < |list| {
      PerformAllCalls(Noted(Upon(s, p, script, i).state, list[i]), script(list[i]));
    }
  }

  /** With callbacks that delete nothing, exactly the overdue timers are called back for, in order. */
  lemma GentleTimers(s: State, now: Moment, script: Script)
    requires OnlyAdds(script)
    ensures var t := PassState(s, Expired(now), script);
            t.calls == s.calls + OverdueAmong(s.lists.onTimer, now) && !Breaks(s, Expired(now), script)
  {
    hide Upon, AfterPass, PassState, Breaks, OnlyAdds;
    GentleCalls(s, Expired(now), script);
    HitsOverdue(s.lists.onTimer, now);
  }

  lemma GentleReaders(s: State, fd: nat, script: Script)
    requires OnlyAdds(script)
    ensures var t := PassState(s, Readable(fd), script);
            t.calls == s.calls + ConcernedAmong(s.lists.onRead, fd) && !Breaks(s, Readable(fd), script)
  {
    hide Upon, AfterPass, PassState, Breaks, OnlyAdds;
    GentleCalls(s, Readable(fd), script);
    HitsConcerned(s.lists.onRead, fd);
  }

  lemma GentleClosers(s: State, script: Script)
    requires OnlyAdds(script)
    ensures PassState(s, Closing, script).calls == s.calls + s.lists.onClose && !Breaks(s, Closing, script)
  {
    hide Upon, AfterPass, PassState, Breaks, OnlyAdds;
    GentleCalls(s, Closing, script);
    HitsAll(s.lists.onClose);
  }

  lemma GentleCalls(s: State, p: Pass, script: Script)
    requires OnlyAdds(script)
    ensures PassState(s, p, script).calls == s.calls + Hits(p, s.lists.Get(Listed(p))) && !Breaks(s, p, script)
  {
    hide Upon, PassState, Breaks, OnlyAdds;
    GentlePass(s, p, script);
    WholePass(s, p, script);
    ServedHit(s, p, script, |s.lists.Get(Listed(p))|);
  }

  lemma {:induction false} HitsOverdue(list: seq<Entry>, now: Moment)
    ensures Hits(Expired(now), list) == OverdueAmong(list, now)
  {
    if list != [] {
      HitsOverdue(list[1..], now);
    }
  }

  lemma {:induction false} HitsConcerned(list: seq<Entry>, fd: nat)
    ensures Hits(Readable(fd), list) == ConcernedAmong(list, fd)
  {
    if list != [] {
      HitsConcerned(list[1..], fd);
    }
  }

  lemma {:induction false} HitsAll(list: seq<Entry>)
    ensures Hits(Closing, list) == list
  {
    if list != [] {
      HitsAll(list[1..]);
    }
  }

  /**
    What a pass over the timers leaves, apart from those that callbacks deleted: a timer that is not overdue as
    it was, an overdue one-time timer not at all, any other one interval after the time of the pass.
   */
  lemma TimersLeft(s: State, now: Moment, script: Script, e: Entry)
    requires Inv(s) && !Breaks(s, Expired(now), script) && s.clock == now
    requires e in s.lists.onTimer && e.id !in AfterPass(s, Expired(now), script).gone
    ensures var after := AfterPass(s, Expired(now), script).state.lists.onTimer;
            && (!Overdue(e, now) ==> e in after)
            && (Overdue(e, now) && e.once ==> e.id !in Ids(after))
            && (Overdue(e, now) && !e.once ==>
                  exists d :: d in after && d.Alarm? && d == e.(deadline := d.deadline)
                    && Micros(d.deadline) == Micros(now) + Micros(e.timeout))
  {
    hide Inv, Breaks, AfterPass, Ids;
    LeavesExactly(s, Expired(now), script, e);
    if Overdue(e, now) && !e.once {
      var d := Settled(Expired(now), e)[0];
      assert d in Settled(Expired(now), e);
    } else if !Overdue(e, now) {
      assert e in Settled(Expired(now), e);
    }
  }

  /** What serving a readable descriptor leaves: all readers but its own that were there for one time. */
  lemma ReadersLeft(s: State, fd: nat, script: Script, e: Entry)
    requires Inv(s) && !Breaks(s, Readable(fd), script)
    requires e in s.lists.onRead && e.id !in AfterPass(s, Readable(fd), script).gone
    ensures var after := AfterPass(s, Readable(fd), script).state.lists.onRead;
            if Concerned(e, fd) && e.once then e.id !in Ids(after) else e in after
  {
    hide Inv, Breaks, AfterPass, Ids;
    LeavesExactly(s, Readable(fd), script, e);
    if !(Concerned(e, fd) && e.once) {
      assert e in Settled(Readable(fd), e);
    }
  }

  // ---------------------------------------------------------------- one descriptor

  /**
    The events of one descriptor, whatever the callbacks ask for: first the first entry for errors, then the
    readers that have their turn, then the first writer that is there by then.
   */
  lemma VisitCalls(s: State, i: nat, r: Environment, fds: Sets)
    requires !VisitBreaks(s, i, r, fds)
    ensures var e := AfterError(s, i, r, fds);
            AfterVisit(s, i, r, fds).calls == s.calls
              + (if i in fds.errors then FirstAmong(s.lists.onError, i) else [])
              + (if i in fds.readers then AfterPass(e, Readable(i), r.onRead(i)).served else [])
              + (if i in fds.writers then FirstAmong(AfterRead(e, i, r, fds).lists.onWrite, i) else [])
  {
    hide AfterFirst, FirstBreaks, PassState, Breaks, Upon, FirstAmong;
    var e := AfterError(s, i, r, fds);
    FirstCalls(s, Error, i, r.onError(i));
    WholePass(e, Readable(i), r.onRead(i));
    ServedHit(e, Readable(i), r.onRead(i), |e.lists.onRead|);
    FirstCalls(AfterRead(e, i, r, fds), Write, i, r.onWrite(i));
  }

  // ---------------------------------------------------------------- closing the loop

  /** The loop has been closed exactly when some callback asked for it, or it was closed before. */
  lemma {:induction false} StopCloses(s: State, rs: seq<Request>)
    ensures PerformAll(s, rs).closed <==> s.closed || exists r :: r in rs && r.Stop?
    decreases |rs|
  {
    if rs != [] {
      StopCloses(Perform(s, rs[0]), rs[1..]);
      assert rs == [rs[0]] + rs[1..];
    }
  }

  ghost predicate Stops(script: Script, e: Entry) {
    exists r :: r in script(e) && r.Stop?
  }

  lemma PassStops(s: State, p: Pass, script: Script)
    requires !Breaks(s, p, script)
    ensures PassState(s, p, script).closed <==>
            s.closed || exists e :: e in AfterPass(s, p, script).served && Stops(script, e)
  {
    hide Along, PassState, Breaks, Stops;
    var list := s.lists.Get(Listed(p));
    WholePass(s, p, script);
    AlongStops(Progress(s, {}, []), p, list[..|list|], script);
  }

  lemma {:induction false} AlongStops(g: Progress, p: Pass, list: seq<Entry>, script: Script)
    ensures var h := Along(g, p, list, script);
            && g.served <= h.served
            && (h.state.closed <==> g.state.closed || exists e :: e in h.served[|g.served|..] && Stops(script, e))
    decreases |list|
  {
    hide Take, Stops;
    if list != [] {
      var (f, h) := (Take(g, p, list[0], script), Along(g, p, list, script));
      TakeStops(g, p, list[0], script);
      AlongStops(f, p, list[1..], script);
      assert h.served[|g.served|..] == f.served[|g.served|..] + h.served[|f.served|..];
    }
  }

  lemma TakeStops(g: Progress, p: Pass, e: Entry, script: Script)
    ensures var (h, due) := (Take(g, p, e, script), Due(g, p, e));
            && h.served == g.served + (if due then [e] else [])
            && (h.state.closed <==> g.state.closed || (due && Stops(script, e)))
  {
    hide PerformAll, Deletes, Hit, Replaced, Kept, Cleared;
    StopCloses(Noted(g.state, e), script(e));
  }

  lemma FirstStops(s: State, k: Kind, fd: int, script: Script)
    ensures AfterFirst(s, k, fd, script).closed <==>
            s.closed || exists e :: e in FirstAmong(s.lists.Get(k), fd) && Stops(script, e)
  {
    hide PerformAll, FirstAmong, FirstBreaks, Replaced, Cleared;
    var list, i := s.lists.Get(k), First(s, k, fd);
    FirstFound(list, fd);
    if i < |list| {
      StopCloses(Noted(s, list[i]), script(list[i]));
      assert FirstAmong(list, fd)[0] == list[i];
      assert AfterFirst(s, k, fd, script).closed <==> s.closed || Stops(script, list[i]);
    }
  }
}
