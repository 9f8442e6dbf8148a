/** The event loop. */
module Io {
  import opened IoTime
  import opened IoSpec
  import opened IoWalk
  import opened IoPass
  import opened IoRound
  import opened IoLaws
  import opened IoCalls
  import opened IoQuiet
  import opened Common

  function Head(s: seq<Entry>): Option<Entry> {
    if s == [] then None else Some(s[0])
  }

  class Loop {
    var lists: Lists
    var entries: int
    var sets: Sets
    var maxfd: int
    var clock: Moment
    var closed: bool
    var serial: nat
    var timeout: Moment
    ghost var calls: seq<Entry>

    ghost function Now(): State
      reads this
    {
      State(lists, entries, sets, maxfd, clock, closed, serial, calls)
    }

    ghost predicate Valid()
      reads this
    {
      Inv(Now())
    }

    constructor (now: Moment)
      ensures Valid() && lists == Lists([], [], [], [], [], []) && sets == Sets({}, {}, {}) && clock == now
      ensures timeout == Timeval(1, 0) && calls == []
    {
      lists, entries, sets, maxfd := Lists([], [], [], [], [], []), 0, Sets({}, {}, {}), 0;
      clock, closed, serial, timeout, calls := now, false, 0, Timeval(1, 0), [];
      new;
      Empty(Now());
    }

    /** Allocation may fail, and then nothing happens. */
    method RegSignal(sig: int, cb: int, once: bool, memory: bool) returns (code: int)
      requires Valid()
      modifies this
      ensures Valid() && timeout == old(timeout) && code == (if memory then 0 else -1)
      ensures Now() == if memory then Perform(old(Now()), RegisterSignal(sig, cb, once)) else old(Now())
      ensures memory ==> lists.onSignal == [Waiter(old(serial), sig, cb, once)] + old(lists.onSignal)
    {
      if !memory {
        return -1;
      }
      PerformKeeps(Now(), RegisterSignal(sig, cb, once));
      lists := lists.Put(Signal, [Waiter(serial, sig, cb, once)] + lists.onSignal);
      serial, entries := serial + 1, entries + 1;
      return 0;
    }

    method Reg(k: Channel, fd: nat, cb: int, once: bool, memory: bool) returns (code: int)
      requires Valid()
      modifies this
      ensures Valid() && timeout == old(timeout) && code == (if memory then 0 else -1)
      ensures Now() == if memory then Perform(old(Now()), Register(k, fd, cb, once)) else old(Now())
      ensures memory ==>
        && lists.Get(k) == [Waiter(old(serial), fd, cb, once)] + old(lists.Get(k))
        && sets.Get(k) == old(sets.Get(k)) + {fd} && maxfd == (if old(maxfd) < fd then fd else old(maxfd))
    {
      if !memory {
        return -1;
      }
      PerformKeeps(Now(), Register(k, fd, cb, once));
      lists := lists.Put(k, [Waiter(serial, fd, cb, once)] + lists.Get(k));
      serial, entries := serial + 1, entries + 1;
      sets := sets.Put(k, sets.Get(k) + {fd});
      maxfd := if maxfd < fd then fd else maxfd;
      return 0;
    }

    method RegTimer(interval: Moment, cb: int, once: bool, memory: bool) returns (code: int)
      requires Valid()
      modifies this
      ensures Valid() && timeout == old(timeout) && code == (if memory then 0 else -1)
      ensures Now() == if memory then Perform(old(Now()), RegisterTimer(interval, cb, once)) else old(Now())
      ensures memory ==> lists.onTimer != [] && var e := lists.onTimer[0];
          && lists.onTimer == [e] + old(lists.onTimer)
          && e.Alarm? && e == Alarm(old(serial), interval, e.deadline, cb, once)
          && Micros(e.deadline) == Micros(clock) + Micros(interval)
    {
      if !memory {
        return -1;
      }
      PerformKeeps(Now(), RegisterTimer(interval, cb, once));
      lists := lists.Put(Timer, [Alarm(serial, interval, Sum(clock, interval), cb, once)] + lists.onTimer);
      serial, entries := serial + 1, entries + 1;
      return 0;
    }

    /** Close entries are not counted. */
    method RegClose(cb: int, memory: bool) returns (code: int)
      requires Valid()
      modifies this
      ensures Valid() && timeout == old(timeout) && code == (if memory then 0 else -1)
      ensures Now() == if memory then Perform(old(Now()), RegisterClose(cb)) else old(Now())
      ensures memory ==> lists.onClose == [Waiter(old(serial), 0, cb, true)] + old(lists.onClose)
    {
      if !memory {
        return -1;
      }
      PerformKeeps(Now(), RegisterClose(cb));
      lists := lists.Put(Close, [Waiter(serial, 0, cb, true)] + lists.onClose);
      serial := serial + 1;
      return 0;
    }

    method Del(k: Channel, fd: nat, cb: int) returns (code: int)
      requires Valid()
      modifies this
      ensures Valid() && timeout == old(timeout) && Now() == Perform(old(Now()), Delete(k, fd, cb))
      ensures code == if Gone(old(Now()), Delete(k, fd, cb)) == {} then 1 else 0
      ensures forall i :: FirstAsked(old(lists.Get(k)), fd, cb, i) ==>
          && lists.Get(k) == old(lists.Get(k))[..i] + old(lists.Get(k))[i + 1..]
          && sets.Get(k) == old(sets.Get(k)) - {fd} && code == 0
      ensures (forall e :: e in old(lists.Get(k)) ==> !Asked(e, fd, cb)) ==> Now() == old(Now()) && code == 1
    {
      var list, i := lists.Get(k), 0;
      ghost var r := Delete(k, fd, cb);
      hide Inv, Perform, Gone, FirstAsked, Asked;
      PerformKeeps(Now(), r);
      DeletesAsked(Now(), k, fd, cb);
      while i < |list|
        invariant 0 <= i <= |list| && forall j :: 0 <= j < i ==> !Wanted(r)(list[j])
      {
        if list[i].Waiter? && list[i].fd == fd && list[i].cb == cb {
          Deleting(Now(), r, i);
          lists := lists.Put(k, list[..i] + list[i + 1..]);
          entries := entries - 1;
          sets := sets.Put(k, sets.Get(k) - {fd});
          return 0;
        }
        i := i + 1;
      }
      Deleting(Now(), r, i);
      return 1;
    }

    /** Reports success whether or not there was such a timer. */
    method DelTimer(cb: int) returns (code: int)
      requires Valid()
      modifies this
      ensures Valid() && timeout == old(timeout) && Now() == Perform(old(Now()), DeleteTimer(cb)) && code == 0
      ensures forall i :: FirstTimer(old(lists.onTimer), cb, i) ==>
          lists.onTimer == old(lists.onTimer)[..i] + old(lists.onTimer)[i + 1..]
      ensures (forall e :: e in old(lists.onTimer) ==> e.cb != cb) ==> Now() == old(Now())
    {
      var list, i := lists.onTimer, 0;
      ghost var r := DeleteTimer(cb);
      hide Inv, Perform, Gone, FirstTimer;
      PerformKeeps(Now(), r);
      DeletesTimer(Now(), cb);
      while i < |list|
        invariant 0 <= i <= |list| && forall j :: 0 <= j < i ==> !Wanted(r)(list[j])
      {
        if list[i].cb == cb {
          Deleting(Now(), r, i);
          lists := lists.Put(Timer, list[..i] + list[i + 1..]);
          entries := entries - 1;
          return 0;
        }
        i := i + 1;
      }
      Deleting(Now(), r, i);
      return 0;
    }

    /** The callback of an entry; whatever it asks for is done at once. */
    method Callback(e: Entry, script: Script)
      requires Valid()
      modifies this
      ensures Valid() && timeout == old(timeout) && Now() == Call(old(Now()), e, script)
    {
      var rs, i := script(e), 0;
      NotedInv(Now(), e);
      calls := calls + [e];
      assert rs[0..] == rs;
      while i < |rs|
        invariant 0 <= i <= |rs| && Valid() && timeout == old(timeout)
        invariant PerformAll(Now(), rs[i..]) == Call(old(Now()), e, script)
      {
        assert rs[i..][1..] == rs[i + 1..];
        var code;
        match rs[i] {
          case RegisterSignal(sig, cb, once) => code := RegSignal(sig, cb, once, true);
          case Register(k, fd, cb, once) => code := Reg(k, fd, cb, once, true);
          case RegisterTimer(interval, cb, once) => code := RegTimer(interval, cb, once, true);
          case RegisterClose(cb) => code := RegClose(cb, true);
          case Delete(k, fd, cb) => code := Del(k, fd, cb);
          case DeleteTimer(cb) => code := DelTimer(cb);
          case Stop => Shut();
        }
        i := i + 1;
      }
    }

    /** The loop ends after the present round. */
    method Shut()
      requires Valid()
      modifies this
      ensures Valid() && closed && timeout == old(timeout) && Now() == Perform(old(Now()), Stop)
    {
      PerformKeeps(Now(), Stop);
      closed := true;
    }

    /** Takes an entry out of its list. */
    method Leave(k: Kind, e: Entry)
      requires Valid() && e in lists.Get(k)
      modifies this
      ensures Valid() && timeout == old(timeout) && Now() == Retire(old(Now()), k, e)
    {
      RetireKeeps(Now(), k, e);
      lists := lists.Put(k, Replaced(lists.Get(k), e.id, []));
      if k != Close {
        entries := entries - 1;
      }
      sets := Cleared(sets, k, e);
    }

    method Serve(p: Pass, e: Entry)
      requires Valid() && e in lists.Get(Listed(p))
      modifies this
      ensures Valid() && timeout == old(timeout) && Now() == Finish(old(Now()), p, e)
    {
      FinishKeeps(Now(), p, e);
      if e.once || p.Closing? {
        Leave(Listed(p), e);
      } else if p.Expired? {
        lists := lists.Put(Timer, Replaced(lists.onTimer, e.id, Kept(p, e)));
      }
    }

    /**
      Walks one list with the `next` entry read before each callback. When a callback has
      deleted the entry being served or that next one, the walk would go on through freed
      memory: `dangling` reports it and the walk stops there.
     */
    method Walk(p: Pass, script: Script) returns (dangling: bool)
      requires Valid() && (p.Expired? ==> p.now == clock)
      modifies this
      ensures Valid() && timeout == old(timeout) && clock == old(clock) && serial >= old(serial) && maxfd >= old(maxfd)
      ensures dangling <==> Breaks(old(Now()), p, script)
      ensures Now() == PassState(old(Now()), p, script)
    {
      hide Inv, Standing, Shaped, Breaks, BrokeOff, AfterPass, PassState, Harms, Call, Finish, Hit, Following, Ids;
      ghost var s0 := Now();
      var k := Listed(p);
      ghost var w := Start(s0, p, script);
      var cur := Head(lists.Get(k));
      while cur.Some?
        invariant timeout == old(timeout) && Standing(s0, Now(), p, script, w) && cur == Head(w.todo)
        decreases |w.todo|
      {
        var e := cur.value;
        var next := Head(Following(lists.Get(k), e.id));
        ghost var s := Now();
        Noticed(s0, s, p, script, w);
        if Hit(p, e) {
          Callback(e, script);
          if e.id !in Ids(lists.Get(k)) || (next.Some? && next.value.id !in Ids(lists.Get(k))) {
            Broken(s0, s, p, script, w);
            BrokenPass(s0, p, script, Now());
            return true;
          }
          w := Served(s0, s, p, script, w);
          Serve(p, e);
        } else {
          w := NotServed(s0, s, p, script, w);
        }
        cur := next;
      }
      Finished(s0, Now(), p, script, w);
      ShapedRest(s0, p, AfterPass(s0, p, script));
      WholePass(s0, p, script);
      return false;
    }

    /** All entries for the descriptor are served. */
    method HandleReadable(fd: nat, script: Script) returns (dangling: bool)
      requires Valid()
      modifies this
      ensures Valid() && timeout == old(timeout) && clock == old(clock) && maxfd >= old(maxfd) && serial >= old(serial)
      ensures dangling <==> Breaks(old(Now()), Readable(fd), script)
      ensures Now() == PassState(old(Now()), Readable(fd), script)
      ensures old(calls) <= calls
          && forall e :: e in calls[|old(calls)|..] ==> e in old(lists.onRead) && Concerned(e, fd)
      ensures OnlyAdds(script) ==> !dangling && calls == old(calls) + ConcernedAmong(old(lists.onRead), fd)
    {
      hide Inv, Breaks, PassState, OnlyAdds;
      PassCalls(Now(), Readable(fd), script);
      if OnlyAdds(script) {
        GentleReaders(Now(), fd, script);
      }
      dangling := Walk(Readable(fd), script);
    }

    /** All timers that are overdue at `now` are served; afterwards none is overdue. */
    method HandleTimers(now: Moment, script: Script) returns (dangling: bool)
      requires Valid()
      modifies this
      ensures Valid() && timeout == old(timeout) && clock == now && maxfd >= old(maxfd) && serial >= old(serial)
      ensures dangling <==> Breaks(old(Now()).(clock := now), Expired(now), script)
      ensures Now() == PassState(old(Now()).(clock := now), Expired(now), script)
      ensures !dangling ==> forall e :: e in lists.onTimer && e.Alarm? && Micros(e.timeout) >= 0 ==>
          !Overdue(e, now)
      ensures old(calls) <= calls
          && forall e :: e in calls[|old(calls)|..] ==> e in old(lists.onTimer) && Overdue(e, now)
      ensures OnlyAdds(script) ==> !dangling && calls == old(calls) + OverdueAmong(old(lists.onTimer), now)
    {
      hide Inv, Breaks, AfterPass, PassState, OnlyAdds;
      NewClock(Now(), now);
      clock := now;
      ghost var s := Now();
      PassCalls(s, Expired(now), script);
      if OnlyAdds(script) {
        GentleTimers(s, now, script);
      }
      dangling := Walk(Expired(now), script);
      if !dangling {
        WholePass(s, Expired(now), script);
        PassNoneOverdue(s, now, script);
      }
    }

    method HandleClose(script: Script) returns (dangling: bool)
      requires Valid()
      modifies this
      ensures Valid() && timeout == old(timeout) && clock == old(clock) && maxfd >= old(maxfd) && serial >= old(serial)
      ensures dangling <==> Breaks(old(Now()), Closing, script)
      ensures Now() == PassState(old(Now()), Closing, script)
      ensures old(calls) <= calls && forall e :: e in calls[|old(calls)|..] ==> e in old(lists.onClose)
      ensures OnlyAdds(script) ==> !dangling && calls == old(calls) + old(lists.onClose)
    {
      hide Inv, Breaks, PassState, OnlyAdds;
      PassCalls(Now(), Closing, script);
      if OnlyAdds(script) {
        GentleClosers(Now(), script);
      }
      dangling := Walk(Closing, script);
    }

    /** Writable descriptors, descriptors with errors and signals: only the first entry is served. */
    method HandleFirst(k: Kind, fd: int, script: Script) returns (dangling: bool, code: int)
      requires Valid() && (k.Write? || k.Error? || k.Signal?)
      modifies this
      ensures Valid() && timeout == old(timeout) && clock == old(clock) && maxfd >= old(maxfd) && serial >= old(serial)
      ensures Now() == AfterFirst(old(Now()), k, fd, script)
      ensures dangling <==> FirstBreaks(old(Now()), k, fd, script)
      ensures code == if First(old(Now()), k, fd) == |old(lists.Get(k))| then 0 else 1
      ensures forall i :: FirstConcerned(old(lists.Get(k)), fd, i) ==>
          var e := old(lists.Get(k))[i];
          && code == 1 && calls == old(calls) + [e]
          && (!dangling ==> (e in lists.Get(k) <==> !e.once))
      ensures (forall e :: e in old(lists.Get(k)) ==> !Concerned(e, fd)) ==>
          Now() == old(Now()) && code == 0 && !dangling
    {
      hide Inv, Call, Retire, Evolved, Ids, FirstConcerned, Concerned;
      ServesFirst(Now(), k, fd, script);
      var list, i := lists.Get(k), 0;
      while i < |list|
        invariant 0 <= i <= |list| && i <= Find(list, For(fd))
      {
        var e := list[i];
        if e.Waiter? && e.fd == fd {
          ghost var s := Now();
          FirstSeen(s, k, e, script);
          Callback(e, script);
          if e.id !in Ids(lists.Get(k)) {
            return true, 1;
          }
          if e.once {
            s := Now();
            Leave(k, e);
            RetireRest(s, k, e);
          }
          return false, 1;
        }
        i := i + 1;
      }
      return false, 0;
    }

    /**
      One round of the loop. Select may clear any of the bits that were set for it. Every
      descriptor that it left set is dispatched, because none is above the highest one; callbacks
      can raise the highest one meanwhile, but not without end.
     */
    method Round(r: Environment) returns (dangling: bool, handled: nat, timers: nat, wait: Moment)
      requires Valid()
      modifies this
      ensures Valid() && timeout == old(timeout) && serial >= old(serial)
      ensures dangling <==> RoundBreaks(old(Now()), r)
      ensures Now() == AfterRound(old(Now()), r)
      ensures Quiet(r) ==>
        var fds := Sets(old(sets.readers) * r.ready.readers, old(sets.writers) * r.ready.writers,
                        old(sets.errors) * r.ready.errors);
        && !dangling && clock == r.later
        && calls == old(calls) + SignalsOf(old(lists.onSignal), r.signals) + OverdueAmong(old(lists.onTimer), r.later)
                    + SweepOf(old(lists), fds, old(maxfd) + 1)
      ensures !dangling ==> handled == |old(sets.readers) * r.ready.readers| + |old(sets.writers) * r.ready.writers|
                                       + |old(sets.errors) * r.ready.errors|
      ensures !dangling ==> Sleep(AfterSelect(old(Now()), r).lists.onTimer, r.now, timeout, timers, wait)
    {
      hide Inv, Breaks, AfterPass, PassState, AfterSweep, SweepBreaks, AfterSignals, SignalsBreak, Sleep, Quiet,
        SignalsOf, SweepOf, OverdueAmong, Overdue, OnlyAdds;
      ghost var s := Now();
      Bounded(s);
      if Quiet(r) {
        QuietRound(s, r);
      }
      var fds := Sets(sets.readers * r.ready.readers, sets.writers * r.ready.writers, sets.errors * r.ready.errors);
      ghost var top := maxfd;
      assert fds == Reported(s, r);
      NewClock(s, r.now);
      clock, handled := r.now, 0;
      dangling, timers, wait := Select(r.signals);
      if dangling {
        return;
      }
      dangling := HandleTimers(r.later, r.onTimer);
      if dangling {
        return;
      }
      dangling, handled := Sweep(r, fds, top);
    }

    /**
      Waits. Every signal interrupts select: its callback runs, the time to sleep is computed
      again, and select is called again.
     */
    method Select(signals: seq<Interrupt>) returns (dangling: bool, timers: nat, wait: Moment)
      requires Valid()
      modifies this
      ensures Valid() && timeout == old(timeout) && serial >= old(serial) && maxfd >= old(maxfd)
      ensures dangling <==> SignalsBreak(old(Now()), signals)
      ensures Now() == AfterSignals(old(Now()), signals)
      ensures clock == old(clock) && (!dangling ==> Sleep(lists.onTimer, clock, timeout, timers, wait))
    {
      hide Inv, First, AfterFirst, FirstBreaks, AfterSignals, SignalsBreak, Sleep, FirstConcerned, Concerned, Ids;
      timers, wait := SleepTime();
      var i := 0;
      assert signals[0..] == signals;
      while i < |signals|
        invariant Valid() && timeout == old(timeout) && serial >= old(serial) && maxfd >= old(maxfd) && i <= |signals|
        invariant AfterSignals(Now(), signals[i..]) == AfterSignals(old(Now()), signals)
        invariant SignalsBreak(Now(), signals[i..]) == SignalsBreak(old(Now()), signals)
        invariant clock == old(clock) && Sleep(lists.onTimer, clock, timeout, timers, wait)
      {
        SignalsNext(Now(), signals, i);
        var code;
        dangling, code := HandleFirst(Signal, signals[i].sig, signals[i].script);
        if dangling {
          return;
        }
        timers, wait := SleepTime();
        i := i + 1;
      }
      SignalsEnd(Now());
      assert signals[i..] == [];
      dangling := false;
    }

    method SleepTime() returns (timers: nat, wait: Moment)
      requires Valid()
      ensures Sleep(lists.onTimer, clock, timeout, timers, wait)
    {
      hide Inv, Nearest, Deadlines, Micros, Before, Sleep;
      Bounded(Now());
      timers, wait := Timeout(timeout, clock, Deadlines(lists.onTimer));
      SleepsUntil(lists.onTimer, clock, timeout, timers, wait);
    }

    /** Goes through the descriptors, looking at the highest one again each time. */
    method Sweep(r: Environment, fds: Sets, ghost top: nat) returns (dangling: bool, handled: nat)
      requires Valid() && top <= maxfd
      requires forall x :: x in fds.readers || x in fds.writers || x in fds.errors ==> 0 <= x <= top
      modifies this
      ensures Valid() && timeout == old(timeout) && serial >= old(serial)
      ensures dangling <==> SweepBreaks(old(Now()), r, fds, top + 1)
      ensures Now() == AfterSweep(old(Now()), r, fds, top + 1)
      ensures !dangling ==> handled == |fds.readers| + |fds.writers| + |fds.errors|
    {
      hide Inv, AfterVisit, VisitBreaks, AfterSweep, SweepBreaks;
      ghost var s := Now();
      Upto0(fds.errors);
      Upto0(fds.readers);
      Upto0(fds.writers);
      SweepNone(s, r, fds);
      dangling, handled := false, 0;
      var i := 0;
      while i < maxfd + 1
        invariant Valid() && timeout == old(timeout) && serial >= old(serial) && 0 <= i && maxfd >= top
        invariant !dangling && !SweepBreaks(s, r, fds, i) && Now() == AfterSweep(s, r, fds, i)
        invariant handled == |Upto(fds.errors, i)| + |Upto(fds.readers, i)| + |Upto(fds.writers, i)|
        decreases if i <= top then top + 1 - i else 0, maxfd + 1 - i
      {
        UptoNext(fds.errors, i);
        UptoNext(fds.readers, i);
        UptoNext(fds.writers, i);
        SweepNext(s, r, fds, i);
        var n;
        dangling, n := Visit(i, r, fds);
        if dangling {
          SweepBeyond(s, r, fds, top, i + 1);
          return;
        }
        handled := handled + n;
        i := i + 1;
      }
      SweepBeyond(s, r, fds, top, i);
      UptoAll(fds.errors, i);
      UptoAll(fds.readers, i);
      UptoAll(fds.writers, i);
    }

    /** The events of one descriptor: first errors, then what can be read, then what can be written. */
    method Visit(i: nat, r: Environment, fds: Sets) returns (dangling: bool, handled: nat)
      requires Valid()
      modifies this
      ensures Valid() && timeout == old(timeout) && serial >= old(serial) && maxfd >= old(maxfd)
      ensures i !in fds.errors && i !in fds.readers && i !in fds.writers ==> maxfd == old(maxfd)
      ensures dangling <==> VisitBreaks(old(Now()), i, r, fds)
      ensures Now() == AfterVisit(old(Now()), i, r, fds)
      ensures Quiet(r) ==> !dangling && calls == old(calls) + VisitOf(old(lists), i, fds)
      ensures !dangling ==>
        handled == (if i in fds.errors then 1 else 0) + (if i in fds.readers then 1 else 0)
            + (if i in fds.writers then 1 else 0)
    {
      hide Inv, Breaks, PassState, AfterFirst, FirstBreaks, Quiet, Concerned, FirstConcerned, VisitOf,
        ConcernedAmong, OnlyAdds, First, Ids;
      if Quiet(r) {
        QuietVisit(Now(), i, r, fds);
      }
      var code;
      dangling, handled := false, 0;
      if i in fds.errors {
        dangling, code := HandleFirst(Error, i, r.onError(i));
        if dangling {
          return;
        }
        handled := handled + 1;
      }
      if i in fds.readers {
        dangling := HandleReadable(i, r.onRead(i));
        if dangling {
          return;
        }
        handled := handled + 1;
      }
      if i in fds.writers {
        dangling, code := HandleFirst(Write, i, r.onWrite(i));
        if dangling {
          return;
        }
        handled := handled + 1;
      }
    }

    /**
      The loop itself, for as many rounds as the surroundings last. It ends when nothing is
      registered any more or a callback has closed it, and then the close entries are served.
     */
    method Run(rounds: seq<Environment>, onClose: Script) returns (dangling: bool, ended: bool)
      requires Valid()
      modifies this
      ensures Valid() && timeout == old(timeout)
      ensures var (first, last) := (old(Now()).(closed := false), AfterRounds(old(Now()).(closed := false), rounds));
              if RoundsBreak(first, rounds) then dangling && !ended && Now() == last
              else
                && (ended <==> last.entries <= 0 || last.closed)
                && (dangling <==> ended && Breaks(last, Closing, onClose))
                && Now() == if ended then PassState(last, Closing, onClose) else last
      ensures !dangling && ended ==> forall e :: e in lists.onClose ==> e.id >= old(serial)
    {
      hide Inv, Breaks, AfterPass, PassState, AfterRound, RoundBreaks, AfterRounds, RoundsBreak, Sleep;
      closed := false;
      NewClock(old(Now()), clock);
      var i := 0;
      ghost var first := Now();
      assert rounds[0..] == rounds;
      while i < |rounds| && entries > 0 && !closed
        invariant Valid() && timeout == old(timeout) && serial >= old(serial) && i <= |rounds|
        invariant AfterRounds(Now(), rounds[i..]) == AfterRounds(first, rounds)
        invariant RoundsBreak(Now(), rounds[i..]) == RoundsBreak(first, rounds)
      {
        Bounded(Now());
        RoundsNext(Now(), rounds, i);
        var handled, timers, wait;
        dangling, handled, timers, wait := Round(rounds[i]);
        if dangling {
          return true, false;
        }
        i := i + 1;
      }
      RoundsEnd(Now(), rounds[i..]);
      if entries > 0 && !closed {
        return false, false;
      }
      ghost var last := Now();
      dangling := HandleClose(onClose);
      if !dangling {
        WholePass(last, Closing, onClose);
        PassCloses(last, onClose);
      }
      ended := true;
    }
  }

  lemma Empty(s: State)
    requires s.lists == Lists([], [], [], [], [], []) && s.sets == Sets({}, {}, {}) && s.entries == 0 && s.maxfd == 0
    ensures Inv(s)
  {
    assert forall k :: s.lists.Get(k) == [];
  }
}
