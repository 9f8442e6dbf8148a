/** Rounds in which the callbacks ask for nothing: whom they are made for, and in which order. */
module IoQuiet {
  import opened IoTime
  import opened Common
  import opened IoSpec
  import opened IoWalk
  import opened IoPass
  import opened IoRound
  import opened IoLaws
  import opened IoCalls

  ghost predicate Silent(script: Script) {
    forall e :: script(e) == []
  }

  ghost predicate Quiet(r: Environment) {
    && Silent(r.onTimer)
    && (forall i :: 0 <= i < |r.signals| ==> Silent(r.signals[i].script))
    && (forall i :: Silent(r.onRead(i)) && Silent(r.onWrite(i)) && Silent(r.onError(i)))
  }

  /** Everything but the lists, the sets, the counter and the calls. */
  ghost predicate Steady(s: State, t: State) {
    t.clock == s.clock && t.serial == s.serial && t.maxfd == s.maxfd && t.closed == s.closed
  }

  /** The lists of all kinds but one are the same. */
  ghost predicate Apart(s: State, t: State, k: Kind) {
    forall j :: j != k ==> t.lists.Get(j) == s.lists.Get(j)
  }

  // ---------------------------------------------------------------- passes

  lemma {:induction false} SilentAlong(g: Progress, p: Pass, list: seq<Entry>, script: Script)
    requires Silent(script)
    ensures var h := Along(g, p, list, script); Steady(g.state, h.state) && Apart(g.state, h.state, Listed(p))
    decreases |list|
  {
    hide Silent, Take;
    if list != [] {
      SilentTake(g, p, list[0], script);
      SilentAlong(Take(g, p, list[0], script), p, list[1..], script);
    }
  }

  lemma SilentTake(g: Progress, p: Pass, e: Entry, script: Script)
    requires Silent(script)
    ensures var h := Take(g, p, e, script); Steady(g.state, h.state) && Apart(g.state, h.state, Listed(p))
  {
    hide Replaced, Cleared, Deletes, Hit, Kept;
    assert script(e) == [];
  }

  lemma SilentAdds(script: Script)
    requires Silent(script)
    ensures OnlyAdds(script)
  {
  }

  /** A pass calls back for the due entries and settles them. */
  lemma SilentPass(s: State, p: Pass, script: Script)
    requires Inv(s) && Silent(script) && (p.Expired? ==> p.now == s.clock)
    ensures var (list, t) := (s.lists.Get(Listed(p)), PassState(s, p, script));
            && !Breaks(s, p, script) && Inv(t) && Steady(s, t) && Apart(s, t, Listed(p))
            && t.calls == s.calls + Hits(p, list) && t.lists.Get(Listed(p)) == Settle(p, list)
  {
    hide Inv, Silent, Breaks, PassState, Along, Hits, Settle, Evolved, Others, Timely, OnlyAdds, Minus;
    var (list, g) := (s.lists.Get(Listed(p)), AfterPass(s, p, script));
    SilentAdds(script);
    GentleCalls(s, p, script);
    GentlePass(s, p, script);
    WholePass(s, p, script);
    PassShape(s, p, script);
    assert list[..|list|] == list;
    SilentAlong(Progress(s, {}, []), p, list, script);
    MinusNone(Settle(p, list), {});
    var news := EvolvedElim(Settle(p, list), g.state.lists.Get(Listed(p)), g.gone, s.serial);
    if news != [] {
      assert news[0] in g.state.lists.Get(Listed(p));
      InvMembers(g.state, Listed(p), news[0]);
      assert false;
    }
    NoEnds(Settle(p, list));
  }

  /** The readers of other descriptors are as they were. */
  lemma {:induction false} SettleApart(fd: nat, list: seq<Entry>, d: int)
    requires d != fd
    ensures ConcernedAmong(Settle(Readable(fd), list), d) == ConcernedAmong(list, d)
  {
    if list != [] {
      var (e, rest) := (Settled(Readable(fd), list[0]), Settle(Readable(fd), list[1..]));
      SettleApart(fd, list[1..], d);
      ConcernedAppend(e, rest, d);
      assert e == [list[0]] ==> e[1..] == [];
    }
  }

  lemma {:induction false} ConcernedAppend(a: seq<Entry>, b: seq<Entry>, fd: int)
    ensures ConcernedAmong(a + b, fd) == ConcernedAmong(a, fd) + ConcernedAmong(b, fd)
  {
    hide Concerned;
    if a == [] {
      assert a + b == b;
    } else {
      assert (a + b)[1..] == a[1..] + b;
      ConcernedAppend(a[1..], b, fd);
      Regroup(if Concerned(a[0], fd) then [a[0]] else [], ConcernedAmong(a[1..], fd), ConcernedAmong(b, fd));
    }
  }

  // ---------------------------------------------------------------- only the first entry

  /** The list without its first entry for the descriptor, if that was there for one time. */
  ghost function FirstGone(list: seq<Entry>, fd: int): seq<Entry> {
    if list == [] then []
    else if Concerned(list[0], fd) then (if list[0].once then list[1..] else list)
    else [list[0]] + FirstGone(list[1..], fd)
  }

  lemma SilentFirst(s: State, k: Kind, fd: int, script: Script)
    requires Inv(s) && Silent(script)
    ensures var (list, t) := (s.lists.Get(k), AfterFirst(s, k, fd, script));
            && !FirstBreaks(s, k, fd, script) && Inv(t) && Steady(s, t) && Apart(s, t, k)
            && t.calls == s.calls + FirstAmong(list, fd) && t.lists.Get(k) == FirstGone(list, fd)
  {
    hide Inv, Silent, FirstAmong, Retire, FirstGone, PerformAll, Distinct;
    var list, i := s.lists.Get(k), First(s, k, fd);
    FirstCalls(s, k, fd, script);
    FirstGoneAt(list, fd);
    if i < |list| {
      assert script(list[i]) == [] by { SilentAt(script, list[i]); }
      var t := Noted(s, list[i]);
      CallsNothing(s, list[i], script);
      NotedInv(s, list[i]);
      Retiring(t, k, i);
    }
  }

  lemma CallsNothing(s: State, e: Entry, script: Script)
    requires script(e) == []
    ensures Call(s, e, script) == Noted(s, e) && Deletes(s, e, script) == {}
  {
  }

  lemma SilentAt(script: Script, e: Entry)
    requires Silent(script)
    ensures script(e) == []
  {
  }

  lemma FindNext(list: seq<Entry>, fd: int)
    ensures Find(list, For(fd)) == if list == [] || Concerned(list[0], fd) then 0 else 1 + Find(list[1..], For(fd))
  {
  }

  lemma {:induction false} FirstGoneAt(list: seq<Entry>, fd: int)
    ensures var i := Find(list, For(fd));
            FirstGone(list, fd) == if i < |list| && list[i].once then list[..i] + list[i + 1..] else list
  {
    hide Find, For;
    FindNext(list, fd);
    if list != [] && !Concerned(list[0], fd) {
      FirstGoneAt(list[1..], fd);
      var i := Find(list[1..], For(fd));
      if i < |list[1..]| {
        assert list[..i + 1] == [list[0]] + list[1..][..i];
        assert list[i + 2..] == list[1..][i + 1..];
        Regroup([list[0]], list[1..][..i], list[1..][i + 1..]);
      }
    }
  }

  lemma Retiring(s: State, k: Kind, i: nat)
    requires Inv(s) && i < |s.lists.Get(k)|
    ensures var (list, t) := (s.lists.Get(k), Retire(s, k, s.lists.Get(k)[i]));
            && Inv(t) && Steady(s, t) && Apart(s, t, k) && t.calls == s.calls
            && t.lists.Get(k) == list[..i] + list[i + 1..]
  {
    hide Inv, Replaced, Cleared, Distinct;
    var list := s.lists.Get(k);
    RetireKeeps(s, k, list[i]);
    InvMembers(s, k, list[i]);
    ReplacedAt(list, i, []);
    NoEnds(list[..i]);
  }

  /** The entries for other descriptors are as they were. */
  lemma {:induction false} FirstGoneApart(list: seq<Entry>, fd: int, d: int)
    requires d != fd
    ensures ConcernedAmong(FirstGone(list, fd), d) == ConcernedAmong(list, d)
  {
    if list != [] && !Concerned(list[0], fd) {
      FirstGoneApart(list[1..], fd, d);
      assert ([list[0]] + FirstGone(list[1..], fd))[1..] == FirstGone(list[1..], fd);
    }
  }

  // ---------------------------------------------------------------- descriptors

  /** The events of one descriptor: the first entry for errors, all readers, the first writer. */
  ghost function VisitOf(l: Lists, i: nat, fds: Sets): seq<Entry> {
    (if i in fds.errors then FirstAmong(l.onError, i) else [])
    + (if i in fds.readers then ConcernedAmong(l.onRead, i) else [])
    + (if i in fds.writers then FirstAmong(l.onWrite, i) else [])
  }

  /** The same entries for a descriptor. */
  ghost predicate SameAt(l: Lists, m: Lists, d: int) {
    && ConcernedAmong(l.onError, d) == ConcernedAmong(m.onError, d)
    && ConcernedAmong(l.onRead, d) == ConcernedAmong(m.onRead, d)
    && ConcernedAmong(l.onWrite, d) == ConcernedAmong(m.onWrite, d)
  }

  lemma QuietError(s: State, i: nat, r: Environment, fds: Sets)
    requires Inv(s) && Quiet(r)
    ensures var t := AfterError(s, i, r, fds);
            && Inv(t) && Steady(s, t) && Apart(s, t, Error) && !FirstBreaks(s, Error, i, r.onError(i))
            && t.calls == s.calls + (if i in fds.errors then FirstAmong(s.lists.onError, i) else [])
            && forall d :: d != i ==> ConcernedAmong(t.lists.onError, d) == ConcernedAmong(s.lists.onError, d)
  {
    hide Inv, AfterFirst, FirstBreaks, Silent, FirstAmong;
    SilentFirst(s, Error, i, r.onError(i));
    forall d | d != i ensures ConcernedAmong(FirstGone(s.lists.onError, i), d) == ConcernedAmong(s.lists.onError, d) {
      FirstGoneApart(s.lists.onError, i, d);
    }
  }

  lemma QuietRead(s: State, i: nat, r: Environment, fds: Sets)
    requires Inv(s) && Quiet(r)
    ensures var t := AfterRead(s, i, r, fds);
            && Inv(t) && Steady(s, t) && Apart(s, t, Read) && !Breaks(s, Readable(i), r.onRead(i))
            && t.calls == s.calls + (if i in fds.readers then ConcernedAmong(s.lists.onRead, i) else [])
            && forall d :: d != i ==> ConcernedAmong(t.lists.onRead, d) == ConcernedAmong(s.lists.onRead, d)
  {
    hide Inv, PassState, Breaks, Silent, Settle;
    SilentPass(s, Readable(i), r.onRead(i));
    HitsConcerned(s.lists.onRead, i);
    forall d | d != i
      ensures ConcernedAmong(Settle(Readable(i), s.lists.onRead), d) == ConcernedAmong(s.lists.onRead, d)
    {
      SettleApart(i, s.lists.onRead, d);
    }
  }

  lemma QuietWrite(s: State, i: nat, r: Environment)
    requires Inv(s) && Quiet(r)
    ensures var t := AfterFirst(s, Write, i, r.onWrite(i));
            && Inv(t) && Steady(s, t) && Apart(s, t, Write) && !FirstBreaks(s, Write, i, r.onWrite(i))
            && t.calls == s.calls + FirstAmong(s.lists.onWrite, i)
            && forall d :: d != i ==> ConcernedAmong(t.lists.onWrite, d) == ConcernedAmong(s.lists.onWrite, d)
  {
    hide Inv, AfterFirst, FirstBreaks, Silent, FirstAmong;
    SilentFirst(s, Write, i, r.onWrite(i));
    forall d | d != i ensures ConcernedAmong(FirstGone(s.lists.onWrite, i), d) == ConcernedAmong(s.lists.onWrite, d) {
      FirstGoneApart(s.lists.onWrite, i, d);
    }
  }

  lemma QuietVisit(s: State, i: nat, r: Environment, fds: Sets)
    requires Inv(s) && Quiet(r)
    ensures var t := AfterVisit(s, i, r, fds);
            && !VisitBreaks(s, i, r, fds) && Inv(t) && Steady(s, t) && t.calls == s.calls + VisitOf(s.lists, i, fds)
            && t.lists.onTimer == s.lists.onTimer
            && forall d :: d != i ==> SameAt(s.lists, t.lists, d)
  {
    hide Inv, Quiet, AfterError, AfterRead, AfterFirst, FirstBreaks, Breaks, FirstAmong, ConcernedAmong;
    var e := AfterError(s, i, r, fds);
    var t := AfterRead(e, i, r, fds);
    QuietError(s, i, r, fds);
    QuietRead(e, i, r, fds);
    QuietWrite(t, i, r);
    var u := AfterVisit(s, i, r, fds);
    assert e.lists.onRead == e.lists.Get(Read) == s.lists.Get(Read);
    assert t.lists.onError == t.lists.Get(Error) == e.lists.Get(Error);
    assert t.lists.onWrite == t.lists.Get(Write) == e.lists.Get(Write) == s.lists.Get(Write);
    assert u.lists.onRead == u.lists.Get(Read) == t.lists.Get(Read);
    assert u.lists.onError == u.lists.Get(Error) == t.lists.Get(Error);
    assert u.lists.onTimer == u.lists.Get(Timer) == t.lists.Get(Timer) == e.lists.Get(Timer) == s.lists.Get(Timer);
  }

  /** All descriptors below `n`, in ascending order. */
  ghost function SweepOf(l: Lists, fds: Sets, n: nat): seq<Entry> {
    if n == 0 then [] else SweepOf(l, fds, n - 1) + VisitOf(l, n - 1, fds)
  }

  lemma VisitSame(l: Lists, m: Lists, i: nat, fds: Sets)
    requires SameAt(l, m, i)
    ensures VisitOf(l, i, fds) == VisitOf(m, i, fds)
  {
  }

  lemma {:induction false} QuietSweep(s: State, r: Environment, fds: Sets, n: nat)
    requires Inv(s) && Quiet(r)
    ensures var t := AfterSweep(s, r, fds, n);
            && !SweepBreaks(s, r, fds, n) && Inv(t) && Steady(s, t) && t.calls == s.calls + SweepOf(s.lists, fds, n)
            && t.lists.onTimer == s.lists.onTimer
            && forall d :: d >= n ==> SameAt(s.lists, t.lists, d)
  {
    hide Inv, Quiet, AfterVisit, VisitBreaks, VisitOf, ConcernedAmong;
    if n > 0 {
      var t := AfterSweep(s, r, fds, n - 1);
      QuietSweep(s, r, fds, n - 1);
      QuietVisit(t, n - 1, r, fds);
      VisitSame(s.lists, t.lists, n - 1, fds);
      Regroup(s.calls, SweepOf(s.lists, fds, n - 1), VisitOf(s.lists, n - 1, fds));
      var u := AfterSweep(s, r, fds, n);
      assert u == AfterVisit(t, n - 1, r, fds);
      forall d | d >= n ensures SameAt(s.lists, u.lists, d) {
        assert SameAt(s.lists, t.lists, d) && SameAt(t.lists, u.lists, d);
      }
    }
  }

  // ---------------------------------------------------------------- rounds

  /** Each signal reaches the first entry for it; one that was there for one time leaves the next signal to the next. */
  ghost function SignalsOf(list: seq<Entry>, signals: seq<Interrupt>): seq<Entry>
    decreases |signals|
  {
    if signals == [] then []
    else FirstAmong(list, signals[0].sig) + SignalsOf(FirstGone(list, signals[0].sig), signals[1..])
  }

  lemma {:induction false} QuietSignals(s: State, signals: seq<Interrupt>)
    requires Inv(s) && forall i :: 0 <= i < |signals| ==> Silent(signals[i].script)
    ensures var t := AfterSignals(s, signals);
            && !SignalsBreak(s, signals) && Inv(t) && Steady(s, t) && Apart(s, t, Signal)
            && t.calls == s.calls + SignalsOf(s.lists.onSignal, signals)
    decreases |signals|
  {
    hide Inv, Silent, AfterFirst, FirstBreaks, FirstAmong, FirstGone;
    if signals != [] {
      var (sig, script) := (signals[0].sig, signals[0].script);
      var t := AfterFirst(s, Signal, sig, script);
      SilentFirst(s, Signal, sig, script);
      QuietSignals(t, signals[1..]);
      assert t.lists.onSignal == FirstGone(s.lists.onSignal, sig);
      Regroup(s.calls, FirstAmong(s.lists.onSignal, sig), SignalsOf(t.lists.onSignal, signals[1..]));
    }
  }

  /**
    A round in which callbacks ask for nothing makes these calls: for the signals that interrupted the
    wait, for the timers that were overdue after it, in the order of their list, and then for every
    descriptor that was reported, in ascending order. It cannot break.
   */
  lemma QuietRound(s: State, r: Environment)
    requires Inv(s) && s.maxfd >= 0 && Quiet(r)
    ensures var fds := Sets(s.sets.readers * r.ready.readers, s.sets.writers * r.ready.writers,
                            s.sets.errors * r.ready.errors);
            var t := AfterRound(s, r);
            && !RoundBreaks(s, r) && t.clock == r.later && Inv(t)
            && t.calls == s.calls + SignalsOf(s.lists.onSignal, r.signals) + OverdueAmong(s.lists.onTimer, r.later)
                          + SweepOf(s.lists, fds, s.maxfd + 1)
  {
    hide Inv, Silent, AfterSignals, SignalsBreak, PassState, Breaks, AfterSweep, SweepBreaks, SignalsOf, SweepOf,
      OverdueAmong, Settle;
    var t := AfterSelect(s, r);
    var u := AfterTimers(t, r);
    NewClock(s, r.now);
    QuietSignals(s.(clock := r.now), r.signals);
    NewClock(t, r.later);
    SilentPass(t.(clock := r.later), Expired(r.later), r.onTimer);
    HitsOverdue(t.lists.onTimer, r.later);
    QuietSweep(u, r, Reported(s, r), s.maxfd + 1);
    assert t.lists.onTimer == t.lists.Get(Timer) == s.lists.onTimer;
    assert u.lists.onRead == u.lists.Get(Read) == t.lists.Get(Read) == s.lists.onRead;
    assert u.lists.onWrite == u.lists.Get(Write) == t.lists.Get(Write) == s.lists.onWrite;
    assert u.lists.onError == u.lists.Get(Error) == t.lists.Get(Error) == s.lists.onError;
    SweepSame(u.lists, s.lists, Reported(s, r), s.maxfd + 1);
  }

  lemma {:induction false} SweepSame(l: Lists, m: Lists, fds: Sets, n: nat)
    requires l.onRead == m.onRead && l.onWrite == m.onWrite && l.onError == m.onError
    ensures SweepOf(l, fds, n) == SweepOf(m, fds, n)
  {
    if n > 0 {
      SweepSame(l, m, fds, n - 1);
    }
  }
}
