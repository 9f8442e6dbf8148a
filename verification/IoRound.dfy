/** What one round of the event loop does, and any number of them, as a function of what the surroundings do. */
module IoRound {
  import opened IoTime
  import opened IoSpec
  import opened IoWalk
  import opened IoPass

  /** A signal that interrupts select, and what the callback for it does. */
  datatype Interrupt = Interrupt(sig: int, script: Script)

  /**
    What happens in one round: the time at its beginning, the signals that interrupt select one after the other,
    what select reports in the end, the time after it, and what each callback does.
   */
  datatype Environment = Environment(
    now: Moment, signals: seq<Interrupt>, ready: Sets, later: Moment, onTimer: Script,
    onRead: nat -> Script, onWrite: nat -> Script, onError: nat -> Script)

  // ---------------------------------------------------------------- only the first entry

  function For(fd: int): Entry -> bool {
    (e: Entry) => e.Waiter? && e.fd == fd
  }

  /** The place of the first entry for a descriptor. */
  function First(s: State, k: Kind, fd: int): (i: nat)
    ensures i <= |s.lists.Get(k)|
  {
    Find(s.lists.Get(k), For(fd))
  }

  /** The callback of that entry deletes the entry itself. */
  ghost predicate FirstBreaks(s: State, k: Kind, fd: int, script: Script) {
    var list, i := s.lists.Get(k), First(s, k, fd);
    i < |list| && list[i].id in Deletes(s, list[i], script)
  }

  /** It is called back for and, if it was to be served once, it leaves. */
  ghost function AfterFirst(s: State, k: Kind, fd: int, script: Script): State {
    var list, i := s.lists.Get(k), First(s, k, fd);
    if i == |list| then s
    else
      var t := Call(s, list[i], script);
      if list[i].once && !FirstBreaks(s, k, fd, script) then Retire(t, k, list[i]) else t
  }

  lemma FirstSeen(s: State, k: Kind, e: Entry, script: Script)
    requires Inv(s) && e in s.lists.Get(k)
    ensures var t := Call(s, e, script);
            && t.serial >= s.serial && t.clock == s.clock && t.maxfd >= s.maxfd
            && (e.id !in Ids(t.lists.Get(k)) <==> e.id in Deletes(s, e, script))
            && (e.id in Ids(t.lists.Get(k)) ==> e in t.lists.Get(k))
  {
    hide Evolved, Call, Deletes, Ids;
    Members(s, k, e);
    Missing(s, k, e, script, e);
    CallEvolves(s, e, script, k);
  }

  lemma RetireRest(s: State, k: Kind, e: Entry)
    ensures var t := Retire(s, k, e); t.clock == s.clock && t.maxfd == s.maxfd && t.serial == s.serial
  {
  }

  // ---------------------------------------------------------------- one descriptor

  /** The descriptors that select was asked about and reported. */
  function Reported(s: State, r: Environment): Sets {
    Sets(s.sets.readers * r.ready.readers, s.sets.writers * r.ready.writers, s.sets.errors * r.ready.errors)
  }

  ghost function AfterError(s: State, i: nat, r: Environment, fds: Sets): State {
    if i in fds.errors then AfterFirst(s, Error, i, r.onError(i)) else s
  }

  ghost function AfterRead(s: State, i: nat, r: Environment, fds: Sets): State {
    if i in fds.readers then PassState(s, Readable(i), r.onRead(i)) else s
  }

  /** Errors first, then reading, then writing; what breaks is the end. */
  ghost function AfterVisit(s: State, i: nat, r: Environment, fds: Sets): State {
    var e := AfterError(s, i, r, fds);
    var t := AfterRead(e, i, r, fds);
    if i in fds.errors && FirstBreaks(s, Error, i, r.onError(i)) then e
    else if i !in fds.writers || (i in fds.readers && Breaks(e, Readable(i), r.onRead(i))) then t
    else AfterFirst(t, Write, i, r.onWrite(i))
  }

  ghost predicate VisitBreaks(s: State, i: nat, r: Environment, fds: Sets) {
    var e := AfterError(s, i, r, fds);
    || (i in fds.errors && FirstBreaks(s, Error, i, r.onError(i)))
    || (i in fds.readers && Breaks(e, Readable(i), r.onRead(i)))
    || (i in fds.writers && FirstBreaks(AfterRead(e, i, r, fds), Write, i, r.onWrite(i)))
  }

  // ---------------------------------------------------------------- all descriptors

  /** The descriptors below `n`, in ascending order, up to one that breaks. */
  ghost function AfterSweep(s: State, r: Environment, fds: Sets, n: nat): State {
    if n == 0 then s
    else
      var t := AfterSweep(s, r, fds, n - 1);
      if SweepBreaks(s, r, fds, n - 1) then t else AfterVisit(t, n - 1, r, fds)
  }

  ghost predicate SweepBreaks(s: State, r: Environment, fds: Sets, n: nat) {
    n > 0 && (SweepBreaks(s, r, fds, n - 1) || VisitBreaks(AfterSweep(s, r, fds, n - 1), n - 1, r, fds))
  }

  lemma SweepNone(s: State, r: Environment, fds: Sets)
    ensures AfterSweep(s, r, fds, 0) == s && !SweepBreaks(s, r, fds, 0)
  {
  }

  lemma SweepNext(s: State, r: Environment, fds: Sets, n: nat)
    ensures AfterSweep(s, r, fds, n + 1)
         == if SweepBreaks(s, r, fds, n) then AfterSweep(s, r, fds, n)
             else AfterVisit(AfterSweep(s, r, fds, n), n, r, fds)
    ensures SweepBreaks(s, r, fds, n + 1) <==>
              SweepBreaks(s, r, fds, n) || VisitBreaks(AfterSweep(s, r, fds, n), n, r, fds)
  {
  }

  /** Above the highest reported descriptor nothing happens. */
  lemma {:induction false} SweepBeyond(s: State, r: Environment, fds: Sets, top: nat, n: nat)
    requires forall x :: x in fds.readers || x in fds.writers || x in fds.errors ==> x <= top
    ensures n > top ==> AfterSweep(s, r, fds, n) == AfterSweep(s, r, fds, top + 1)
    ensures n > top ==> (SweepBreaks(s, r, fds, n) <==> SweepBreaks(s, r, fds, top + 1))
    ensures n <= top + 1 && SweepBreaks(s, r, fds, n) ==>
              SweepBreaks(s, r, fds, top + 1) && AfterSweep(s, r, fds, top + 1) == AfterSweep(s, r, fds, n)
    decreases if n > top then n - top - 1 else top + 1 - n
  {
    hide Breaks, FirstBreaks, AfterFirst, PassState;
    if n > top + 1 {
      SweepBeyond(s, r, fds, top, n - 1);
    } else if n <= top {
      SweepBeyond(s, r, fds, top, n + 1);
      SweepNext(s, r, fds, n);
    }
  }

  /** The members of a set below a bound. */
  ghost function Upto(s: set<int>, i: nat): set<int> {
    set x | x in s && 0 <= x < i
  }

  lemma Upto0(s: set<int>)
    ensures |Upto(s, 0)| == 0
  {
  }

  lemma UptoNext(s: set<int>, i: nat)
    ensures |Upto(s, i + 1)| == |Upto(s, i)| + if i in s then 1 else 0
  {
    if i in s {
      assert Upto(s, i + 1) == Upto(s, i) + {i};
    } else {
      assert Upto(s, i + 1) == Upto(s, i);
    }
  }

  lemma UptoAll(s: set<int>, i: nat)
    requires forall x :: x in s ==> 0 <= x < i
    ensures Upto(s, i) == s
  {
  }

  // ---------------------------------------------------------------- rounds

  /** The signals that interrupt select: for each, the first entry is served. */
  ghost function AfterSignals(s: State, signals: seq<Interrupt>): State
    decreases |signals|
  {
    if signals == [] then s
    else
      var t := AfterFirst(s, Signal, signals[0].sig, signals[0].script);
      if FirstBreaks(s, Signal, signals[0].sig, signals[0].script) then t else AfterSignals(t, signals[1..])
  }

  ghost predicate SignalsBreak(s: State, signals: seq<Interrupt>)
    decreases |signals|
  {
    && signals != []
    && (|| FirstBreaks(s, Signal, signals[0].sig, signals[0].script)
        || SignalsBreak(AfterFirst(s, Signal, signals[0].sig, signals[0].script), signals[1..]))
  }

  lemma SignalsNext(s: State, signals: seq<Interrupt>, i: nat)
    requires i < |signals|
    ensures var (t, broken) := (AfterFirst(s, Signal, signals[i].sig, signals[i].script),
                                FirstBreaks(s, Signal, signals[i].sig, signals[i].script));
            && AfterSignals(s, signals[i..]) == (if broken then t else AfterSignals(t, signals[i + 1..]))
            && (SignalsBreak(s, signals[i..]) <==> broken || SignalsBreak(t, signals[i + 1..]))
  {
    hide AfterFirst, FirstBreaks;
    assert signals[i..][1..] == signals[i + 1..];
  }

  lemma SignalsEnd(s: State)
    ensures AfterSignals(s, []) == s && !SignalsBreak(s, [])
  {
  }

  /** The state when select has returned and the time has been read again. */
  ghost function AfterSelect(s: State, r: Environment): State {
    AfterSignals(s.(clock := r.now), r.signals)
  }

  ghost predicate SelectBreaks(s: State, r: Environment) {
    SignalsBreak(s.(clock := r.now), r.signals)
  }

  ghost function AfterTimers(s: State, r: Environment): State {
    PassState(s.(clock := r.later), Expired(r.later), r.onTimer)
  }

  ghost predicate TimersBreak(s: State, r: Environment) {
    Breaks(s.(clock := r.later), Expired(r.later), r.onTimer)
  }

  /** Signals, then the overdue timers, and then every descriptor that was reported; what breaks is the end. */
  ghost function AfterRound(s: State, r: Environment): State
    requires s.maxfd >= 0
  {
    var t := AfterSelect(s, r);
    if SelectBreaks(s, r) then t
    else if TimersBreak(t, r) then AfterTimers(t, r)
    else AfterSweep(AfterTimers(t, r), r, Reported(s, r), s.maxfd + 1)
  }

  ghost predicate RoundBreaks(s: State, r: Environment)
    requires s.maxfd >= 0
  {
    var t := AfterSelect(s, r);
    || SelectBreaks(s, r)
    || TimersBreak(t, r)
    || SweepBreaks(AfterTimers(t, r), r, Reported(s, r), s.maxfd + 1)
  }

  /**
    Rounds follow each other as long as something is registered, nobody has closed the loop and none
    of the rounds breaks.
   */
  ghost function AfterRounds(s: State, rounds: seq<Environment>): State
    decreases |rounds|
  {
    if rounds == [] || s.entries <= 0 || s.closed || s.maxfd < 0 then s
    else if RoundBreaks(s, rounds[0]) then AfterRound(s, rounds[0])
    else AfterRounds(AfterRound(s, rounds[0]), rounds[1..])
  }

  ghost predicate RoundsBreak(s: State, rounds: seq<Environment>)
    decreases |rounds|
  {
    && rounds != [] && s.entries > 0 && !s.closed && s.maxfd >= 0
    && (RoundBreaks(s, rounds[0]) || RoundsBreak(AfterRound(s, rounds[0]), rounds[1..]))
  }

  lemma RoundsNext(s: State, rounds: seq<Environment>, i: nat)
    requires i < |rounds| && s.entries > 0 && !s.closed && s.maxfd >= 0
    ensures var (t, broken) := (AfterRound(s, rounds[i]), RoundBreaks(s, rounds[i]));
            && AfterRounds(s, rounds[i..]) == (if broken then t else AfterRounds(t, rounds[i + 1..]))
            && (RoundsBreak(s, rounds[i..]) <==> broken || RoundsBreak(t, rounds[i + 1..]))
  {
    hide AfterRound, RoundBreaks;
    assert rounds[i..][1..] == rounds[i + 1..];
  }

  lemma RoundsEnd(s: State, rounds: seq<Environment>)
    requires rounds == [] || s.entries <= 0 || s.closed
    ensures AfterRounds(s, rounds) == s && !RoundsBreak(s, rounds)
  {
  }

  lemma Bounded(s: State)
    requires Inv(s)
    ensures forall x :: x in s.sets.readers || x in s.sets.writers || x in s.sets.errors ==> 0 <= x <= s.maxfd
    ensures forall e :: e in s.lists.onTimer ==> e.Alarm?
    ensures s.maxfd >= 0
  {
    assert s.sets.readers == s.sets.Get(Read) && s.sets.writers == s.sets.Get(Write)
        && s.sets.errors == s.sets.Get(Error);
    forall e | e in s.lists.onTimer ensures e.Alarm? {
      Members(s, Timer, e);
    }
  }

  lemma NewClock(s: State, now: Moment)
    ensures Inv(s) <==> Inv(s.(clock := now))
    ensures Inv(s) <==> Inv(s.(closed := false))
  {
  }

  function Deadlines(s: seq<Entry>): (r: seq<Moment>)
    ensures (forall e :: e in s ==> e.Alarm?) ==> |r| == |s|
  {
    if s == [] then [] else (if s[0].Alarm? then [s[0].deadline] else []) + Deadlines(s[1..])
  }

  /** The deadlines are those of the timers. */
  lemma {:induction false} DeadlinesOf(s: seq<Entry>)
    ensures forall e :: e in s && e.Alarm? ==> e.deadline in Deadlines(s)
    ensures forall d :: d in Deadlines(s) ==> exists e :: e in s && e.Alarm? && e.deadline == d
  {
    if s != [] {
      DeadlinesOf(s[1..]);
      assert s == [s[0]] + s[1..];
      forall d | d in Deadlines(s) ensures exists e :: e in s && e.Alarm? && e.deadline == d {
        if d in Deadlines(s[1..]) {
          var e :| e in s[1..] && e.Alarm? && e.deadline == d;
          assert e in s;
        } else {
          assert s[0] in s;
        }
      }
    }
  }

  ghost predicate Overdue(e: Entry, now: Moment) {
    e.Alarm? && Micros(e.deadline) < Micros(now)
  }

  /**
    How long select may wait: without limit exactly when there are no timers; not at all when one is
    overdue; and otherwise at most the default and the time left to every deadline, one of which it is.
   */
  ghost predicate Sleep(timers: seq<Entry>, now: Moment, timeout: Moment, limits: nat, wait: Moment) {
    && (limits == 0 <==> timers == [])
    && ((exists e :: e in timers && Overdue(e, now)) ==> wait == Timeval(0, 0))
    && ((forall e :: e in timers ==> !Overdue(e, now)) ==>
          && Micros(wait) <= Micros(timeout)
          && (forall e :: e in timers && e.Alarm? ==> Micros(wait) <= Micros(e.deadline) - Micros(now))
          && (|| Micros(wait) == Micros(timeout)
              || exists e :: e in timers && e.Alarm? && Micros(wait) == Micros(e.deadline) - Micros(now)))
  }

  /** The minimum over the deadlines is such a time. */
  lemma SleepsUntil(timers: seq<Entry>, now: Moment, timeout: Moment, limits: nat, wait: Moment)
    requires (forall e :: e in timers ==> e.Alarm?) && (limits == 0 <==> Deadlines(timers) == [])
    requires var list := Deadlines(timers);
             && ((exists d :: d in list && Before(d, now)) ==> wait == Timeval(0, 0))
             && ((forall d :: d in list ==> !Before(d, now)) ==> Micros(wait) == Nearest(Micros(timeout), now, list))
    ensures Sleep(timers, now, timeout, limits, wait)
  {
    hide Nearest, Deadlines, Micros;
    DeadlinesOf(timers);
    NearestIsLeast(Micros(timeout), now, Deadlines(timers));
  }
}
