/**
  A pass over a list of entries that calls back for some of them, while the callbacks add
  entries at the front and delete others.
 */
module IoWalk {
  import opened IoTime
  import opened Common
  import opened IoSpec

  datatype Pass = Readable(fd: nat) | Expired(now: Moment) | Closing

  function Listed(p: Pass): Kind {
    match p
    case Readable(_) => Read
    case Expired(_) => Timer
    case Closing => Close
  }

  predicate Hit(p: Pass, e: Entry) {
    match p
    case Readable(fd) => e.Waiter? && e.fd == fd
    case Expired(now) => e.Alarm? && Before(e.deadline, now)
    case Closing => true
  }

  /** What an entry leaves in its list once it has been called back for. */
  function Kept(p: Pass, e: Entry): seq<Entry> {
    if e.once || p.Closing? then []
    else if p.Expired? && e.Alarm? then [e.(deadline := Sum(p.now, e.timeout))]
    else [e]
  }

  function Settled(p: Pass, e: Entry): seq<Entry> {
    if Hit(p, e) then Kept(p, e) else [e]
  }

  /** What a pass makes of a list when the callbacks do nothing. */
  function Settle(p: Pass, s: seq<Entry>): seq<Entry> {
    if s == [] then [] else Settled(p, s[0]) + Settle(p, s[1..])
  }

  lemma {:induction false} SettleAppend(p: Pass, s: seq<Entry>, t: seq<Entry>)
    ensures Settle(p, s + t) == Settle(p, s) + Settle(p, t)
  {
    if s == [] {
      assert s + t == t;
    } else {
      assert (s + t)[1..] == s[1..] + t;
      SettleAppend(p, s[1..], t);
    }
  }

  lemma {:induction false} SettleIds(p: Pass, s: seq<Entry>)
    ensures Ids(Settle(p, s)) <= Ids(s)
  {
    if s != [] {
      SettleIds(p, s[1..]);
      IdsAppend([s[0]], s[1..]);
      assert s == [s[0]] + s[1..];
      IdsAppend(Settled(p, s[0]), Settle(p, s[1..]));
    }
  }

  lemma IdsAppend(s: seq<Entry>, t: seq<Entry>)
    ensures Ids(s + t) == Ids(s) + Ids(t)
  {
    assert forall e :: e in s + t <==> e in s || e in t;
  }

  /** The entries behind the one with this identity. */
  function Following(s: seq<Entry>, id: nat): seq<Entry> {
    if s == [] then [] else if s[0].id == id then s[1..] else Following(s[1..], id)
  }

  /** The list with other entries in the place of the one with this identity. */
  function Replaced(s: seq<Entry>, id: nat, others: seq<Entry>): seq<Entry> {
    if s == [] then [] else if s[0].id == id then others + s[1..] else [s[0]] + Replaced(s[1..], id, others)
  }

  lemma {:induction false} AtEntry(front: seq<Entry>, e: Entry, rest: seq<Entry>, others: seq<Entry>)
    requires e.id !in Ids(front)
    ensures Following(front + [e] + rest, e.id) == rest
    ensures Replaced(front + [e] + rest, e.id, others) == front + others + rest
  {
    var s := front + [e] + rest;
    if front == [] {
      assert s == [e] + rest;
      assert s[1..] == rest;
    } else {
      assert front[0] in front;
      assert s[1..] == front[1..] + [e] + rest;
      assert forall x :: x in front[1..] ==> x in front;
      AtEntry(front[1..], e, rest, others);
      assert [front[0]] + (front[1..] + others + rest) == front + others + rest;
    }
  }

  /**
    Where a pass stands. Of the list as it was at the beginning, `past` has been dealt with
    and `ahead` has not; the list as it is now is `done` and then `todo`. `gone` is everything
    that callbacks have deleted.
   */
  datatype Position = Position(past: seq<Entry>, ahead: seq<Entry>, done: seq<Entry>, todo: seq<Entry>, gone: set<nat>)

  ghost predicate Holds(w: Position, p: Pass, serial: nat) {
    && Distinct(w.past + w.ahead)
    && Evolved(Settle(p, w.past), w.done, w.gone, serial)
    && w.todo == Minus(w.ahead, w.gone)
  }

  lemma Begin(list: seq<Entry>, p: Pass, serial: nat)
    requires Distinct(list)
    ensures Holds(Position([], list, [], list, {}), p, serial)
  {
    hide Distinct, Evolved, Minus;
    MinusNone(list, {});
    EvolvedSame([], serial);
    NoEnds(list);
  }

  /** A callback at a place where the entry being served is the first of those left to do. */
  lemma Called(w: Position, p: Pass, serial: nat, list: seq<Entry>, more: set<nat>, late: nat) returns (w': Position)
    requires Holds(w, p, serial) && serial <= late
    requires Evolved(w.done + w.todo, list, more, late)
    ensures Holds(w', p, serial)
    ensures w'.past == w.past && w'.ahead == w.ahead && w'.gone == w.gone + more
    ensures list == w'.done + w'.todo && w'.todo == Minus(w.todo, more)
  {
    hide Evolved, Minus, Distinct;
    var news := EvolvedElim(w.done + w.todo, list, more, late);
    MinusAppend(w.done, w.todo, more);
    var done := news + Minus(w.done, more);
    Regroup(news, Minus(w.done, more), Minus(w.todo, more));
    EvolvedIntro(w.done, news, done, more, late);
    EvolvedTwice(Settle(p, w.past), w.done, done, w.gone, more, serial, late);
    MinusTwice(w.ahead, w.gone, more);
    w' := Position(w.past, w.ahead, done, Minus(w.todo, more), w.gone + more);
  }

  lemma DistinctApart(s: seq<Entry>, t: seq<Entry>)
    requires Distinct(s + t)
    ensures Ids(s) !! Ids(t)
  {
    forall d, e | d in s && e in t ensures d.id != e.id {
      var i :| 0 <= i < |s| && s[i] == d;
      var j :| 0 <= j < |t| && t[j] == e;
      assert (s + t)[i] == d && (s + t)[|s| + j] == e;
    }
  }

  /** More of the old list: a part that is gone and a part that is not. */
  lemma EvolvedMore(before: seq<Entry>, after: seq<Entry>, gone: set<nat>, serial: nat, dead: seq<Entry>,
      live: seq<Entry>)
    requires Evolved(before, after, gone, serial) && Ids(dead) <= gone && Ids(live) !! gone
    ensures Evolved(before + (dead + live), after + live, gone, serial)
  {
    hide Evolved, Minus, Ids;
    var news := EvolvedElim(before, after, gone, serial);
    MinusAppend(before, dead + live, gone);
    MinusAppend(dead, live, gone);
    MinusAll(dead, gone);
    MinusNone(live, gone);
    assert [] + live == live;
    Regroup(news, Minus(before, gone), live);
    EvolvedIntro(before + (dead + live), news, after + live, gone, serial);
  }

  /** The entry at the head of what is left, found in the list of the beginning. */
  lemma {:induction false} Skip(ahead: seq<Entry>, gone: set<nat>, e: Entry, todo: seq<Entry>)
    returns (skipped: seq<Entry>, rest: seq<Entry>)
    requires Minus(ahead, gone) == [e] + todo
    ensures ahead == skipped + [e] + rest && Ids(skipped) <= gone && Minus(rest, gone) == todo && e.id !in gone
    decreases |ahead|
  {
    if ahead[0].id in gone {
      skipped, rest := Skip(ahead[1..], gone, e, todo);
      skipped := [ahead[0]] + skipped;
    } else {
      skipped, rest := [], ahead[1..];
      assert ([e] + todo)[1..] == todo;
      assert ahead == [ahead[0]] + ahead[1..];
    }
  }

  /** On to the next entry, past those that were deleted before their turn. */
  lemma Advanced(w: Position, p: Pass, serial: nat, skipped: seq<Entry>, e: Entry, rest: seq<Entry>)
    returns (w': Position)
    requires Holds(w, p, serial) && w.ahead == skipped + [e] + rest && Ids(skipped) <= w.gone && e.id !in w.gone
    ensures Holds(w', p, serial)
    ensures w'.past == w.past + (skipped + [e]) && w'.ahead == rest && w'.gone == w.gone
    ensures w'.done == w.done + Settled(p, e) && w.todo == [e] + w'.todo
  {
    hide Evolved, Minus, Ids, Distinct;
    var step := skipped + [e];
    SettleAppend(p, w.past, step);
    SettleAppend(p, skipped, [e]);
    One(p, e);
    SettleIds(p, skipped);
    SettleIds(p, [e]);
    IdsSplit(skipped, e, rest);
    EvolvedMore(Settle(p, w.past), w.done, w.gone, serial, Settle(p, skipped), Settled(p, e));
    Regroup(w.past, step, rest);
    MinusAppend(step, rest, w.gone);
    MinusAppend(skipped, [e], w.gone);
    MinusAll(skipped, w.gone);
    MinusNone([e], w.gone);
    assert [] + [e] == [e];
    w' := Position(w.past + step, rest, w.done + Settled(p, e), Minus(rest, w.gone), w.gone);
  }

  lemma One(p: Pass, e: Entry)
    ensures Settle(p, [e]) == Settled(p, e)
  {
    assert [e][1..] == [];
  }

  lemma IdsSplit(s: seq<Entry>, e: Entry, t: seq<Entry>)
    ensures Ids(s + [e] + t) == Ids(s) + {e.id} + Ids(t) && Ids([e]) == {e.id}
  {
    IdsAppend(s + [e], t);
    IdsAppend(s, [e]);
    assert forall x :: x in [e] <==> x == e;
  }

  // ---------------------------------------------------------------- after a callback

  /**
    An entry that was to be served once leaves. The set that loses its descriptor is the
    one of its own kind, but for errors it is the set of the writers.
   */
  function Cleared(sets: Sets, k: Kind, e: Entry): Sets {
    if !e.Waiter? then sets
    else match k
      case Read => sets.(readers := sets.readers - {e.fd})
      case Write => sets.(writers := sets.writers - {e.fd})
      case Error => sets.(writers := sets.writers - {e.fd})
      case _ => sets
  }

  function Retire(s: State, k: Kind, e: Entry): State {
    s.(lists := s.lists.Put(k, Replaced(s.lists.Get(k), e.id, [])),
       entries := s.entries - (if k == Close then 0 else 1),
       sets := Cleared(s.sets, k, e))
  }

  function Finish(s: State, p: Pass, e: Entry): State {
    if e.once || p.Closing? then Retire(s, Listed(p), e)
    else if p.Expired? then s.(lists := s.lists.Put(Timer, Replaced(s.lists.onTimer, e.id, Kept(p, e))))
    else s
  }

  lemma BackedFewer(fds: set<int>, less: set<int>, list: seq<Entry>)
    requires Backed(fds, list) && less <= fds
    ensures Backed(less, list)
  {
  }

  lemma ReplacedAt(s: seq<Entry>, i: nat, others: seq<Entry>)
    requires Distinct(s) && i < |s|
    ensures Replaced(s, s[i].id, others) == s[..i] + others + s[i + 1..]
  {
    assert s == s[..i] + [s[i]] + s[i + 1..];
    AtEntry(s[..i], s[i], s[i + 1..], others);
  }

  lemma RetireKeeps(s: State, k: Kind, e: Entry)
    requires Inv(s) && e in s.lists.Get(k)
    ensures Inv(Retire(s, k, e))
  {
    hide Proper, Backed, Replaced, Below, Cleared;
    var list := s.lists.Get(k);
    assert Distinct(list) && Fits(k, e, s.serial) by { Members(s, k, e); }
    var i :| 0 <= i < |list| && list[i] == e;
    ReplacedAt(list, i, []);
    assert list[..i] + [] + list[i + 1..] == list[..i] + list[i + 1..];
    hide Distinct;
    RemoveKeeps(s, k, i);
    ClearedBelow(s.sets, k, e, s.maxfd);
    ClearedSets(s.sets, k, e);
    var t := Retire(s, k, e);
    assert t.lists.Get(k) == list[..i] + list[i + 1..];
    match k {
      case Read => BackedLess(s.sets.readers, list, e.fd, i);
      case Write => BackedLess(s.sets.writers, list, e.fd, i);
      case Error => BackedFewer(s.sets.writers, s.sets.writers - {e.fd}, s.lists.onWrite);
      case _ =>
    }
  }

  lemma ClearedBelow(sets: Sets, k: Kind, e: Entry, maxfd: int)
    requires Below(sets, maxfd)
    ensures Below(Cleared(sets, k, e), maxfd)
  {
    assert forall c: Channel :: Cleared(sets, k, e).Get(c) <= sets.Get(c);
  }

  lemma ClearedSets(sets: Sets, k: Kind, e: Entry)
    ensures Cleared(sets, k, e).readers == if e.Waiter? && k == Read then sets.readers - {e.fd} else sets.readers
    ensures Cleared(sets, k, e).writers == if e.Waiter? && (k == Write || k == Error) then sets.writers - {e.fd}
        else sets.writers
  {
  }

  lemma Members(s: State, k: Kind, e: Entry)
    requires Proper(s.lists, s.serial) && e in s.lists.Get(k)
    ensures Distinct(s.lists.Get(k)) && Fits(k, e, s.serial)
  {
  }

  lemma RearmKeeps(s: State, p: Pass, e: Entry)
    requires Inv(s) && p.Expired? && e in s.lists.onTimer && !e.once
    ensures Inv(Finish(s, p, e))
  {
    hide Proper, Backed, Replaced, Distinct, Kept;
    var list := s.lists.onTimer;
    Members(s, Timer, e);
    var i :| 0 <= i < |list| && list[i] == e;
    ReplacedAt(list, i, Kept(p, e));
    KeptOne(p, e);
    var after := list[i := Kept(p, e)[0]];
    assert list[..i] + Kept(p, e) + list[i + 1..] == after;
    SameIds(list, i, after[i]);
    forall d | d in after ensures Fits(Timer, d, s.serial) {
      if d in list {
        Members(s, Timer, d);
      }
    }
    ProperPut(s.lists, Timer, after, s.serial, s.serial);
    CountPut(s.lists, Timer, after);
  }

  lemma KeptOne(p: Pass, e: Entry)
    requires p.Expired? && e.Alarm? && !e.once
    ensures var k := Kept(p, e); |k| == 1 && k[0].id == e.id && k[0].Alarm? && k == [k[0]]
  {
  }

  lemma SameIds(s: seq<Entry>, i: nat, e: Entry)
    requires i < |s| && Distinct(s) && e.id == s[i].id
    ensures Distinct(s[i := e]) && forall d :: d in s[i := e] ==> d in s || d == e
  {
  }

  lemma FinishKeeps(s: State, p: Pass, e: Entry)
    requires Inv(s) && e in s.lists.Get(Listed(p))
    ensures Inv(Finish(s, p, e))
  {
    if e.once || p.Closing? {
      RetireKeeps(s, Listed(p), e);
    } else if p.Expired? {
      RearmKeeps(s, p, e);
    }
  }

  /** In the list that is walked, the entry is exchanged for what it leaves. */
  lemma FinishList(s: State, p: Pass, front: seq<Entry>, e: Entry, rest: seq<Entry>)
    requires s.lists.Get(Listed(p)) == front + [e] + rest && Distinct(front + [e] + rest)
    requires p.Expired? ==> e.Alarm?
    ensures Finish(s, p, e).lists.Get(Listed(p)) == front + Kept(p, e) + rest
    ensures forall k :: k != Listed(p) ==> Finish(s, p, e).lists.Get(k) == s.lists.Get(k)
    ensures var t := Finish(s, p, e); t.serial == s.serial && t.clock == s.clock && t.maxfd == s.maxfd
  {
    DistinctApart(front + [e], rest);
    assert front + [e] + rest == front + ([e] + rest);
    DistinctApart(front, [e] + rest);
    IdsAppend([e], rest);
    assert e in [e];
    AtEntry(front, e, rest, Kept(p, e));
  }

  /** An old entry that is still in the list has not been deleted. */
  lemma Survives(before: seq<Entry>, after: seq<Entry>, gone: set<nat>, serial: nat, e: Entry)
    requires Evolved(before, after, gone, serial) && e.id < serial && e.id in Ids(after)
    ensures e.id !in gone
  {
    hide Minus, Evolved;
    var news := EvolvedElim(before, after, gone, serial);
    MinusMembers(before, gone);
  }

  /** Timers registered from identity `serial` on are to go off one interval after the time of the loop. */
  ghost predicate Timely(l: Lists, serial: nat, clock: Moment) {
    forall e :: e in l.onTimer && e.Alarm? && e.id >= serial ==> e.deadline == Sum(clock, e.timeout)
  }

  lemma PerformTimely(s: State, r: Request, serial: nat)
    requires Timely(s.lists, serial, s.clock)
    ensures Timely(Perform(s, r).lists, serial, s.clock)
  {
    var after := Perform(s, r).lists.onTimer;
    forall e | e in after && e.Alarm? && e.id >= serial ensures e.deadline == Sum(s.clock, e.timeout) {
      if e !in s.lists.onTimer {
        assert r.RegisterTimer?;
      }
    }
  }

  lemma {:induction false} PerformAllTimely(s: State, rs: seq<Request>, serial: nat)
    requires Timely(s.lists, serial, s.clock)
    ensures Timely(PerformAll(s, rs).lists, serial, s.clock)
    decreases |rs|
  {
    if rs != [] {
      PerformTimely(s, rs[0], serial);
      PerformAllTimely(Perform(s, rs[0]), rs[1..], serial);
    }
  }

  lemma FinishTimely(s: State, p: Pass, front: seq<Entry>, e: Entry, rest: seq<Entry>, serial: nat)
    requires Timely(s.lists, serial, s.clock) && (p.Expired? ==> p.now == s.clock && e.Alarm?)
    requires s.lists.Get(Listed(p)) == front + [e] + rest && Distinct(front + [e] + rest)
    ensures Timely(Finish(s, p, e).lists, serial, s.clock)
  {
    FinishList(s, p, front, e, rest);
  }

  /** After a pass over the timers none with a proper interval is overdue. */
  lemma NoneOverdue(before: seq<Entry>, l: Lists, gone: set<nat>, serial: nat, now: Moment)
    requires Evolved(Settle(Expired(now), before), l.onTimer, gone, serial) && Timely(l, serial, now)
    ensures forall e :: e in l.onTimer && e.Alarm? && Micros(e.timeout) >= 0 ==> !Before(e.deadline, now)
  {
    hide Minus, Evolved, Settle;
    var news := EvolvedElim(Settle(Expired(now), before), l.onTimer, gone, serial);
    MinusMembers(Settle(Expired(now), before), gone);
    SettledTimers(before, now);
  }

  lemma {:induction false} SettledTimers(s: seq<Entry>, now: Moment)
    ensures forall e :: e in Settle(Expired(now), s) && e.Alarm? && Micros(e.timeout) >= 0 ==> !Before(e.deadline, now)
  {
    if s != [] {
      SettledTimers(s[1..], now);
    }
  }
}
