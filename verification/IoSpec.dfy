/**
  The registrations of an event loop: who waits for what, and the redundant record of it
  that is handed to select. Callbacks are sequences of requests to the loop.
 */
module IoSpec {
  import opened IoTime
  import opened Common

  datatype Kind = Signal | Read | Write | Error | Timer | Close

  /** The kinds that are tied to a descriptor. */
  type Channel = k: Kind | k.Read? || k.Write? || k.Error? witness Read

  /** `id` tells one allocation from another. */
  datatype Entry =
    | Waiter(id: nat, fd: int, cb: int, once: bool)
    | Alarm(id: nat, timeout: Moment, deadline: Moment, cb: int, once: bool)

  datatype Lists = Lists(onSignal: seq<Entry>, onRead: seq<Entry>, onWrite: seq<Entry>, onError: seq<Entry>,
                         onTimer: seq<Entry>, onClose: seq<Entry>) {
    function Get(k: Kind): seq<Entry> {
      match k
      case Signal => onSignal
      case Read => onRead
      case Write => onWrite
      case Error => onError
      case Timer => onTimer
      case Close => onClose
    }

    function Put(k: Kind, s: seq<Entry>): (r: Lists)
      ensures r.Get(k) == s && forall j :: j != k ==> r.Get(j) == Get(j)
    {
      match k
      case Signal => this.(onSignal := s)
      case Read => this.(onRead := s)
      case Write => this.(onWrite := s)
      case Error => this.(onError := s)
      case Timer => this.(onTimer := s)
      case Close => this.(onClose := s)
    }

    /** Close entries do not keep the loop alive and are not counted. */
    function Count(): nat {
      |onSignal| + |onRead| + |onWrite| + |onError| + |onTimer|
    }
  }

  datatype Sets = Sets(readers: set<int>, writers: set<int>, errors: set<int>) {
    function Get(k: Channel): set<int> {
      match k
      case Read => readers
      case Write => writers
      case Error => errors
    }

    function Put(k: Channel, s: set<int>): (r: Sets)
      ensures r.Get(k) == s && forall j: Channel :: j != k ==> r.Get(j) == Get(j)
    {
      match k
      case Read => this.(readers := s)
      case Write => this.(writers := s)
      case Error => this.(errors := s)
    }
  }

  /** `serial` is the next identity to hand out; `calls` records every callback made so far. */
  datatype State = State(lists: Lists, entries: int, sets: Sets, maxfd: int, clock: Moment, closed: bool, serial: nat,
                         calls: seq<Entry>)

  datatype Request =
    | RegisterSignal(sig: int, cb: int, once: bool)
    | Register(channel: Channel, fd: nat, cb: int, once: bool)
    | RegisterTimer(timeout: Moment, cb: int, once: bool)
    | RegisterClose(cb: int)
    | Delete(channel: Channel, fd: nat, cb: int)
    | DeleteTimer(cb: int)
    | Stop

  // ---------------------------------------------------------------- lists of entries

  /** The entries whose identities are not in `gone`. */
  function Minus(s: seq<Entry>, gone: set<nat>): seq<Entry> {
    if s == [] then []
    else if s[0].id in gone then Minus(s[1..], gone)
    else [s[0]] + Minus(s[1..], gone)
  }

  function Ids(s: seq<Entry>): set<nat> {
    set e | e in s :: e.id
  }

  ghost predicate Distinct(s: seq<Entry>) {
    forall i, j :: 0 <= i < j < |s| ==> s[i].id != s[j].id
  }

  lemma {:induction false} MinusAppend(s: seq<Entry>, t: seq<Entry>, gone: set<nat>)
    ensures Minus(s + t, gone) == Minus(s, gone) + Minus(t, gone)
  {
    if s == [] {
      assert s + t == t;
    } else {
      assert (s + t)[1..] == s[1..] + t;
      MinusAppend(s[1..], t, gone);
    }
  }

  lemma {:induction false} MinusTwice(s: seq<Entry>, a: set<nat>, b: set<nat>)
    ensures Minus(Minus(s, a), b) == Minus(s, a + b)
  {
    if s != [] {
      MinusTwice(s[1..], a, b);
    }
  }

  lemma {:induction false} MinusNone(s: seq<Entry>, gone: set<nat>)
    requires Ids(s) !! gone
    ensures Minus(s, gone) == s
  {
    if s != [] {
      assert s[0] in s && s[0].id in Ids(s);
      assert forall e :: e in s[1..] ==> e in s;
      MinusNone(s[1..], gone);
    }
  }

  lemma {:induction false} MinusAll(s: seq<Entry>, gone: set<nat>)
    requires Ids(s) <= gone
    ensures Minus(s, gone) == []
  {
    if s != [] {
      assert s[0] in s && s[0].id in Ids(s);
      assert forall e :: e in s[1..] ==> e in s;
      MinusAll(s[1..], gone);
    }
  }

  lemma {:induction false} MinusMembers(s: seq<Entry>, gone: set<nat>)
    ensures forall e :: e in Minus(s, gone) <==> e in s && e.id !in gone
    ensures |Minus(s, gone)| <= |s|
    ensures Distinct(s) ==> Distinct(Minus(s, gone))
  {
    if s != [] {
      MinusMembers(s[1..], gone);
      assert s == [s[0]] + s[1..];
      if Distinct(s) {
        assert Distinct(s[1..]);
        forall i | 0 <= i < |Minus(s[1..], gone)| ensures Minus(s[1..], gone)[i].id != s[0].id {
          assert Minus(s[1..], gone)[i] in s[1..];
        }
      }
    }
  }

  /** Removing one entry out of the middle. */
  lemma {:induction false} MinusOne(s: seq<Entry>, i: nat)
    requires i < |s| && Distinct(s)
    ensures Minus(s, {s[i].id}) == s[..i] + s[i + 1..]
  {
    assert Distinct(s[1..]);
    if i == 0 {
      MinusNone(s[1..], {s[0].id});
    } else {
      MinusOne(s[1..], i - 1);
      assert s[..i] + s[i + 1..] == [s[0]] + (s[1..][..i - 1] + s[1..][i..]);
    }
  }

  /** The first entry with this callback and, where it matters, this descriptor; the length if there is none. */
  function Find(s: seq<Entry>, wanted: Entry -> bool): (i: nat)
    ensures i <= |s| && (i < |s| ==> wanted(s[i]))
    ensures forall j :: 0 <= j < i ==> !wanted(s[j])
  {
    if s == [] || wanted(s[0]) then 0 else 1 + Find(s[1..], wanted)
  }

  // ---------------------------------------------------------------- requests

  function Insert(s: State, k: Kind, e: Entry): State {
    s.(lists := s.lists.Put(k, [e] + s.lists.Get(k)),
       entries := s.entries + (if k == Close then 0 else 1),
       serial := s.serial + 1)
  }

  /** What a deletion looks for. */
  function Wanted(r: Request): Entry -> bool
    requires r.Delete? || r.DeleteTimer?
  {
    if r.Delete? then (e: Entry) => e.Waiter? && e.fd == r.fd && e.cb == r.cb
    else (e: Entry) => e.cb == r.cb
  }

  function Target(r: Request): Kind
    requires r.Delete? || r.DeleteTimer?
  {
    if r.Delete? then r.channel else Timer
  }

  function Without(s: State, r: Request, i: nat): State
    requires (r.Delete? || r.DeleteTimer?) && i < |s.lists.Get(Target(r))|
  {
    var k, list := Target(r), s.lists.Get(Target(r));
    var t := s.(lists := s.lists.Put(k, list[..i] + list[i + 1..]), entries := s.entries - 1);
    if r.Delete? then t.(sets := s.sets.Put(r.channel, s.sets.Get(r.channel) - {r.fd})) else t
  }

  function Perform(s: State, r: Request): State {
    match r
    case RegisterSignal(sig, cb, once) => Insert(s, Signal, Waiter(s.serial, sig, cb, once))
    case Register(k, fd, cb, once) =>
      Insert(s, k, Waiter(s.serial, fd, cb, once))
      .(sets := s.sets.Put(k, s.sets.Get(k) + {fd}), maxfd := Max(s.maxfd, fd))
    case RegisterTimer(timeout, cb, once) => Insert(s, Timer, Alarm(s.serial, timeout, Sum(s.clock, timeout), cb, once))
    case RegisterClose(cb) => Insert(s, Close, Waiter(s.serial, 0, cb, true))
    case Stop => s.(closed := true)
    case _ =>
      var k, list := Target(r), s.lists.Get(Target(r));
      var i := Find(list, Wanted(r));
      if i == |list| then s else Without(s, r, i)
  }

  function PerformAll(s: State, rs: seq<Request>): State
    decreases |rs|
  {
    if rs == [] then s else PerformAll(Perform(s, rs[0]), rs[1..])
  }

  /** The identities that a request removes. */
  ghost function Gone(s: State, r: Request): set<nat> {
    if r.Delete? || r.DeleteTimer? then
      var list := s.lists.Get(Target(r));
      var i := Find(list, Wanted(r));
      if i == |list| then {} else {list[i].id}
    else {}
  }

  ghost function GoneAll(s: State, rs: seq<Request>): set<nat>
    decreases |rs|
  {
    if rs == [] then {} else Gone(s, rs[0]) + GoneAll(Perform(s, rs[0]), rs[1..])
  }

  // ---------------------------------------------------------------- what always holds

  /** An entry sits in a list of its own sort and is older than the next identity. */
  ghost predicate Fits(k: Kind, e: Entry, serial: nat) {
    e.id < serial && (e.Alarm? <==> k == Timer)
  }

  ghost predicate Proper(l: Lists, serial: nat) {
    && (forall k :: Distinct(l.Get(k)))
    && (forall k, e :: e in l.Get(k) ==> Fits(k, e, serial))
    && (forall j, k :: j != k ==> Ids(l.Get(j)) !! Ids(l.Get(k)))
  }

  /** Every descriptor in the set belongs to some entry of the list. */
  ghost predicate Backed(fds: set<int>, list: seq<Entry>) {
    forall fd :: fd in fds ==> exists e :: e in list && e.Waiter? && e.fd == fd
  }

  ghost predicate Below(sets: Sets, maxfd: int) {
    forall k: Channel, fd :: fd in sets.Get(k) ==> 0 <= fd <= maxfd
  }

  ghost predicate Inv(s: State) {
    && Proper(s.lists, s.serial)
    && s.entries == s.lists.Count()
    && Backed(s.sets.readers, s.lists.onRead)
    && Backed(s.sets.writers, s.lists.onWrite)
    && Below(s.sets, s.maxfd)
    && s.maxfd >= 0
  }

  lemma CountPut(l: Lists, k: Kind, list: seq<Entry>)
    ensures l.Put(k, list).Count() == l.Count() + if k == Close then 0 else |list| - |l.Get(k)|
  {
  }

  lemma ProperPut(l: Lists, k: Kind, list: seq<Entry>, before: nat, serial: nat)
    requires Proper(l, before) && before <= serial && Distinct(list)
    requires forall e :: e in list ==> Fits(k, e, serial)
    requires forall e :: e in list ==> e in l.Get(k) || e.id >= before || exists d :: d in l.Get(k) && d.id == e.id
    ensures Proper(l.Put(k, list), serial)
  {
    hide Distinct;
    var m := l.Put(k, list);
    forall j | j != k ensures Ids(list) !! Ids(l.Get(j)) {
      assert Ids(l.Get(k)) !! Ids(l.Get(j));
      forall e | e in list ensures e.id !in Ids(l.Get(j)) {
        if e in l.Get(k) {
          assert e.id in Ids(l.Get(k));
        }
      }
    }
    forall i, j | i != j ensures Ids(m.Get(i)) !! Ids(m.Get(j)) {
      assert i != k && j != k ==> Ids(l.Get(i)) !! Ids(l.Get(j));
    }
  }

  lemma InsertKeeps(s: State, k: Kind, e: Entry)
    requires Proper(s.lists, s.serial) && s.entries == s.lists.Count()
    requires e.id == s.serial && (e.Alarm? <==> k == Timer)
    ensures Proper(Insert(s, k, e).lists, s.serial + 1)
    ensures Insert(s, k, e).entries == Insert(s, k, e).lists.Count()
  {
    var list := s.lists.Get(k);
    assert forall i :: 0 <= i < |list| ==> list[i] in list && Fits(k, list[i], s.serial);
    ProperPut(s.lists, k, [e] + list, s.serial, s.serial + 1);
    CountPut(s.lists, k, [e] + list);
  }

  lemma RemoveKeeps(s: State, k: Kind, i: nat)
    requires Proper(s.lists, s.serial) && i < |s.lists.Get(k)|
    ensures var list := s.lists.Get(k); var l := s.lists.Put(k, list[..i] + list[i + 1..]);
            Proper(l, s.serial) && l.Count() == s.lists.Count() - if k == Close then 0 else 1
  {
    var list := s.lists.Get(k);
    var shorter := list[..i] + list[i + 1..];
    MinusOne(list, i);
    MinusMembers(list, {list[i].id});
    ProperPut(s.lists, k, shorter, s.serial, s.serial);
    CountPut(s.lists, k, shorter);
  }

  lemma BackedMore(fds: set<int>, list: seq<Entry>, fd: nat, e: Entry)
    requires Backed(fds, list) && e.Waiter? && e.fd == fd
    ensures Backed(fds + {fd}, [e] + list)
  {
    assert e in [e] + list;
    forall x | x in fds ensures exists d :: d in [e] + list && d.Waiter? && d.fd == x {
      var d :| d in list && d.Waiter? && d.fd == x;
      assert d in [e] + list;
    }
  }

  lemma BackedLess(fds: set<int>, list: seq<Entry>, fd: int, i: nat)
    requires Backed(fds, list) && i < |list| && list[i].Waiter? && list[i].fd == fd
    ensures Backed(fds - {fd}, list[..i] + list[i + 1..])
  {
    forall x | x in fds - {fd} ensures exists d :: d in list[..i] + list[i + 1..] && d.Waiter? && d.fd == x {
      var d :| d in list && d.Waiter? && d.fd == x;
      var j :| 0 <= j < |list| && list[j] == d;
      assert d == (list[..i] + list[i + 1..])[if j < i then j else j - 1];
    }
  }

  lemma PerformKeeps(s: State, r: Request)
    requires Inv(s)
    ensures Inv(Perform(s, r))
  {
    hide Proper, Backed, Find;
    match r
    case RegisterSignal(sig, cb, once) => InsertKeeps(s, Signal, Waiter(s.serial, sig, cb, once));
    case Register(k, fd, cb, once) =>
      var e := Waiter(s.serial, fd, cb, once);
      InsertKeeps(s, k, e);
      if k == Read {
        BackedMore(s.sets.readers, s.lists.onRead, fd, e);
      } else if k == Write {
        BackedMore(s.sets.writers, s.lists.onWrite, fd, e);
      }
    case RegisterTimer(timeout, cb, once) =>
      InsertKeeps(s, Timer, Alarm(s.serial, timeout, Sum(s.clock, timeout), cb, once));
    case RegisterClose(cb) => InsertKeeps(s, Close, Waiter(s.serial, 0, cb, true));
    case Stop =>
    case DeleteTimer(cb) => DeleteKeeps(s, r);
    case Delete(k, fd, cb) => DeleteKeeps(s, r);
  }

  /** A deletion in terms of the place where the entry was found. */
  lemma Deleting(s: State, r: Request, i: nat)
    requires r.Delete? || r.DeleteTimer?
    requires var list := s.lists.Get(Target(r)); i <= |list| && (i < |list| ==> Wanted(r)(list[i]))
    requires forall j :: 0 <= j < i ==> !Wanted(r)(s.lists.Get(Target(r))[j])
    ensures var list := s.lists.Get(Target(r));
            Find(list, Wanted(r)) == i
            && (i == |list| ==> Perform(s, r) == s && Gone(s, r) == {})
            && (i < |list| ==> Perform(s, r) == Without(s, r, i) && Gone(s, r) == {list[i].id})
  {
  }

  lemma DeleteKeeps(s: State, r: Request)
    requires Inv(s) && (r.Delete? || r.DeleteTimer?)
    ensures Inv(Perform(s, r))
  {
    hide Perform, Proper, Backed, Find;
    var k, list := Target(r), s.lists.Get(Target(r));
    var i := Find(list, Wanted(r));
    Deleting(s, r, i);
    if i < |list| {
      RemoveKeeps(s, k, i);
      var t := Without(s, r, i);
      assert forall c: Channel :: t.sets.Get(c) <= s.sets.Get(c);
      if r.Delete? && k == Read {
        BackedLess(s.sets.readers, list, r.fd, i);
      } else if r.Delete? && k == Write {
        BackedLess(s.sets.writers, list, r.fd, i);
      }
    }
  }

  // ---------------------------------------------------------------- what callbacks can do to a list

  /** New entries in front, the old ones behind them except those that are gone. */
  ghost predicate Evolved(before: seq<Entry>, after: seq<Entry>, gone: set<nat>, serial: nat) {
    var n := |after| - |Minus(before, gone)|;
    && n >= 0
    && after[n..] == Minus(before, gone)
    && forall e :: e in after[..n] ==> e.id >= serial
  }

  lemma EvolvedIntro(before: seq<Entry>, news: seq<Entry>, after: seq<Entry>, gone: set<nat>, serial: nat)
    requires after == news + Minus(before, gone)
    requires forall e :: e in news ==> e.id >= serial
    ensures Evolved(before, after, gone, serial)
  {
    assert after[|news|..] == Minus(before, gone) && after[..|news|] == news;
  }

  lemma EvolvedElim(before: seq<Entry>, after: seq<Entry>, gone: set<nat>, serial: nat) returns (news: seq<Entry>)
    requires Evolved(before, after, gone, serial)
    ensures after == news + Minus(before, gone)
    ensures forall e :: e in news ==> e.id >= serial
  {
    news := after[..|after| - |Minus(before, gone)|];
  }

  lemma EvolvedSame(list: seq<Entry>, serial: nat)
    ensures Evolved(list, list, {}, serial)
  {
    MinusNone(list, {});
    EvolvedIntro(list, [], list, {}, serial);
  }

  lemma EvolvedTwice(a: seq<Entry>, b: seq<Entry>, c: seq<Entry>, gone: set<nat>, more: set<nat>, early: nat, late: nat)
    requires Evolved(a, b, gone, early) && Evolved(b, c, more, late) && early <= late
    ensures Evolved(a, c, gone + more, early)
  {
    hide Evolved, Minus;
    var news := EvolvedElim(a, b, gone, early);
    var newer := EvolvedElim(b, c, more, late);
    MinusAppend(news, Minus(a, gone), more);
    MinusTwice(a, gone, more);
    MinusMembers(news, more);
    Regroup(newer, Minus(news, more), Minus(a, gone + more));
    EvolvedIntro(a, newer + Minus(news, more), c, gone + more, early);
  }

  lemma DeleteEvolves(s: State, r: Request, k: Kind)
    requires Proper(s.lists, s.serial) && (r.Delete? || r.DeleteTimer?)
    ensures Evolved(s.lists.Get(k), Perform(s, r).lists.Get(k), Gone(s, r), s.serial)
    ensures Perform(s, r).serial == s.serial && Perform(s, r).clock == s.clock && Perform(s, r).maxfd == s.maxfd
  {
    hide Perform, Gone, Find, Evolved, Distinct, Minus;
    var list, full := s.lists.Get(k), s.lists.Get(Target(r));
    var i := Find(full, Wanted(r));
    Deleting(s, r, i);
    if i == |full| {
      MinusNone(list, {});
    } else if k == Target(r) {
      MinusOne(full, i);
    } else {
      assert Ids(full) !! Ids(list);
      assert full[i].id in Ids(full);
      MinusNone(list, {full[i].id});
    }
    NoEnds(Minus(list, Gone(s, r)));
    EvolvedIntro(list, [], Perform(s, r).lists.Get(k), Gone(s, r), s.serial);
  }

  lemma PerformEvolves(s: State, r: Request, k: Kind)
    requires Proper(s.lists, s.serial)
    ensures Evolved(s.lists.Get(k), Perform(s, r).lists.Get(k), Gone(s, r), s.serial)
    ensures Perform(s, r).serial >= s.serial && Perform(s, r).clock == s.clock && Perform(s, r).maxfd >= s.maxfd
  {
    hide Proper, Evolved, Minus;
    if r.Delete? || r.DeleteTimer? {
      DeleteEvolves(s, r, k);
    } else {
      var list, after := s.lists.Get(k), Perform(s, r).lists.Get(k);
      MinusNone(list, {});
      NoEnds(list);
      if after == list {
        EvolvedIntro(list, [], after, {}, s.serial);
      } else {
        EvolvedIntro(list, [after[0]], after, {}, s.serial);
      }
    }
  }

  lemma {:induction false} PerformAllKeeps(s: State, rs: seq<Request>)
    requires Inv(s)
    ensures Inv(PerformAll(s, rs))
    decreases |rs|
  {
    if rs != [] {
      PerformKeeps(s, rs[0]);
      PerformAllKeeps(Perform(s, rs[0]), rs[1..]);
    }
  }

  lemma {:induction false} PerformAllEvolves(s: State, rs: seq<Request>, k: Kind)
    requires Inv(s)
    ensures var t := PerformAll(s, rs);
            Evolved(s.lists.Get(k), t.lists.Get(k), GoneAll(s, rs), s.serial)
            && t.serial >= s.serial && t.clock == s.clock && t.maxfd >= s.maxfd
    decreases |rs|
  {
    hide Evolved, Proper;
    if rs == [] {
      EvolvedSame(s.lists.Get(k), s.serial);
    } else {
      var t := Perform(s, rs[0]);
      PerformEvolves(s, rs[0], k);
      PerformKeeps(s, rs[0]);
      PerformAllEvolves(t, rs[1..], k);
      EvolvedTwice(s.lists.Get(k), t.lists.Get(k), PerformAll(t, rs[1..]).lists.Get(k),
                   Gone(s, rs[0]), GoneAll(t, rs[1..]), s.serial, t.serial);
    }
  }
}
