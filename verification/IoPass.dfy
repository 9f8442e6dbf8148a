/**
  What a pass over a list does, told from the list as it was at the beginning: every entry in
  its turn is called back for if it is due and no callback before it deleted it. The
  walk along the links, whose list changes under it, comes to the same.
 */
module IoPass {
  import opened IoTime
  import opened Common
  import opened IoSpec
  import opened IoWalk

  /** What the callback of an entry asks of the loop. */
  type Script = Entry -> seq<Request>

  function Noted(s: State, e: Entry): State {
    s.(calls := s.calls + [e])
  }

  /** The callback of an entry. */
  function Call(s: State, e: Entry, script: Script): State {
    PerformAll(Noted(s, e), script(e))
  }

  ghost function Deletes(s: State, e: Entry, script: Script): set<nat> {
    GoneAll(Noted(s, e), script(e))
  }

  /** How far a pass has come: the state, what callbacks have deleted, and whom they were made for. */
  datatype Progress = Progress(state: State, gone: set<nat>, served: seq<Entry>)

  predicate Due(g: Progress, p: Pass, e: Entry) {
    e.id !in g.gone && Hit(p, e)
  }

  ghost function Take(g: Progress, p: Pass, e: Entry, script: Script): Progress {
    if Due(g, p, e)
    then Progress(Finish(Call(g.state, e, script), p, e), g.gone + Deletes(g.state, e, script), g.served + [e])
    else g
  }

  ghost function Along(g: Progress, p: Pass, list: seq<Entry>, script: Script): Progress
    decreases |list|
  {
    if list == [] then g else Along(Take(g, p, list[0], script), p, list[1..], script)
  }

  /** What the callbacks for the first `i` entries of the list come to. */
  ghost function Upon(s: State, p: Pass, script: Script, i: nat): Progress
    requires i <= |s.lists.Get(Listed(p))|
  {
    Along(Progress(s, {}, []), p, s.lists.Get(Listed(p))[..i], script)
  }

  ghost function AfterPass(s: State, p: Pass, script: Script): Progress {
    Upon(s, p, script, |s.lists.Get(Listed(p))|)
  }

  /** The callback of an entry deletes that entry, or the one that is next in the list at that time. */
  ghost predicate BreaksAt(s: State, p: Pass, script: Script, i: nat)
    requires i < |s.lists.Get(Listed(p))|
  {
    var list, g := s.lists.Get(Listed(p)), Upon(s, p, script, i);
    Due(g, p, list[i]) && Harms(g.state, list[i], Minus(list[i + 1..], g.gone), script)
  }

  ghost predicate Harms(s: State, e: Entry, rest: seq<Entry>, script: Script) {
    var more := Deletes(s, e, script);
    e.id in more || (rest != [] && rest[0].id in more)
  }

  ghost predicate Breaks(s: State, p: Pass, script: Script) {
    exists i :: 0 <= i < |s.lists.Get(Listed(p))| && BreaksAt(s, p, script, i)
  }

  /** The first place from `i` on at which a pass breaks, or the end. */
  ghost function BreakFrom(s: State, p: Pass, script: Script, i: nat): (r: nat)
    requires i <= |s.lists.Get(Listed(p))|
    ensures i <= r <= |s.lists.Get(Listed(p))| && (r < |s.lists.Get(Listed(p))| ==> BreaksAt(s, p, script, r))
    ensures forall j :: i <= j < r ==> !BreaksAt(s, p, script, j)
    decreases |s.lists.Get(Listed(p))| - i
  {
    if i == |s.lists.Get(Listed(p))| || BreaksAt(s, p, script, i) then i else BreakFrom(s, p, script, i + 1)
  }

  /** The state that a pass ends in: after all of it, or after the first callback that broke it. */
  ghost function PassState(s: State, p: Pass, script: Script): State {
    var list, i := s.lists.Get(Listed(p)), BreakFrom(s, p, script, 0);
    if i == |list| then AfterPass(s, p, script).state else Call(Upon(s, p, script, i).state, list[i], script)
  }

  lemma WholePass(s: State, p: Pass, script: Script)
    ensures !Breaks(s, p, script) ==> PassState(s, p, script) == AfterPass(s, p, script).state
  {
  }

  lemma BrokenPass(s: State, p: Pass, script: Script, t: State)
    requires BrokeOff(s, p, script, t)
    ensures PassState(s, p, script) == t
  {
  }

  /** The state in which a pass broke off: after the first callback that did the harm. */
  ghost predicate BrokeOff(s: State, p: Pass, script: Script, t: State) {
    exists i :: 0 <= i < |s.lists.Get(Listed(p))| && BreaksAt(s, p, script, i)
      && (forall j :: 0 <= j < i ==> !BreaksAt(s, p, script, j))
      && t == Call(Upon(s, p, script, i).state, s.lists.Get(Listed(p))[i], script)
  }

  // ---------------------------------------------------------------- the reference

  lemma {:induction false} AlongAppend(g: Progress, p: Pass, a: seq<Entry>, b: seq<Entry>, script: Script)
    ensures Along(g, p, a + b, script) == Along(Along(g, p, a, script), p, b, script)
    decreases |a|
  {
    if a == [] {
      assert a + b == b;
    } else {
      hide Take;
      assert (a + b)[1..] == a[1..] + b;
      AlongAppend(Take(g, p, a[0], script), p, a[1..], b, script);
    }
  }

  /** Entries that are gone already are passed over. */
  lemma {:induction false} AlongGone(g: Progress, p: Pass, list: seq<Entry>, script: Script)
    requires Ids(list) <= g.gone
    ensures Along(g, p, list, script) == g
    decreases |list|
  {
    if list != [] {
      assert list[0] in list && list[0].id in Ids(list);
      assert forall e :: e in list[1..] ==> e in list;
      AlongGone(g, p, list[1..], script);
    }
  }

  lemma AlongOne(g: Progress, p: Pass, e: Entry, script: Script)
    ensures Along(g, p, [e], script) == Take(g, p, e, script)
  {
    hide Take;
    assert [e][1..] == [];
  }

  /** One entry more. */
  lemma UponNext(s: State, p: Pass, script: Script, i: nat)
    requires i < |s.lists.Get(Listed(p))|
    ensures Upon(s, p, script, i + 1) == Take(Upon(s, p, script, i), p, s.lists.Get(Listed(p))[i], script)
  {
    hide Take, Along;
    var list := s.lists.Get(Listed(p));
    assert list[..i + 1] == list[..i] + [list[i]];
    AlongAppend(Progress(s, {}, []), p, list[..i], [list[i]], script);
    AlongOne(Upon(s, p, script, i), p, list[i], script);
  }

  /** Entries that are gone: nothing happens at them, and nothing breaks. */
  lemma {:induction false} UponGone(s: State, p: Pass, script: Script, i: nat, j: nat)
    requires i <= j <= |s.lists.Get(Listed(p))|
    requires Ids(s.lists.Get(Listed(p))[i..j]) <= Upon(s, p, script, i).gone
    ensures Upon(s, p, script, j) == Upon(s, p, script, i)
    ensures forall m :: i <= m < j ==> !BreaksAt(s, p, script, m)
    decreases j - i
  {
    hide Along, Upon, BreaksAt, Take, Ids;
    if i < j {
      var list := s.lists.Get(Listed(p));
      IdsFront(list, i, j);
      UponGone(s, p, script, i, j - 1);
      UponNext(s, p, script, j - 1);
      NotDue(s, p, script, j - 1);
    }
  }

  lemma IdsFront(list: seq<Entry>, i: nat, j: nat)
    requires i < j <= |list|
    ensures Ids(list[i..j - 1]) <= Ids(list[i..j]) && list[j - 1].id in Ids(list[i..j])
  {
    assert forall e :: e in list[i..j - 1] ==> e in list[i..j];
    assert list[j - 1] == list[i..j][j - 1 - i];
  }

  lemma NotDue(s: State, p: Pass, script: Script, i: nat)
    requires i < |s.lists.Get(Listed(p))| && s.lists.Get(Listed(p))[i].id in Upon(s, p, script, i).gone
    ensures !BreaksAt(s, p, script, i)
    ensures Take(Upon(s, p, script, i), p, s.lists.Get(Listed(p))[i], script) == Upon(s, p, script, i)
  {
  }

  lemma {:induction false} AlongCalls(g: Progress, p: Pass, list: seq<Entry>, script: Script)
    ensures var h := Along(g, p, list, script);
            && g.served <= h.served
            && h.state.calls == g.state.calls + h.served[|g.served|..]
    decreases |list|
  {
    hide Take;
    if list != [] {
      TakeCalls(g, p, list[0], script);
      AlongCalls(Take(g, p, list[0], script), p, list[1..], script);
    } else {
      assert g.served[|g.served|..] == [];
    }
  }

  lemma TakeCalls(g: Progress, p: Pass, e: Entry, script: Script)
    ensures var (h, more) := (Take(g, p, e, script), if Due(g, p, e) then [e] else []);
            h.served == g.served + more && h.state.calls == g.state.calls + more
  {
    hide PerformAll;
    PerformAllCalls(Noted(g.state, e), script(e));
  }

  lemma {:induction false} PerformAllCalls(s: State, rs: seq<Request>)
    ensures PerformAll(s, rs).calls == s.calls
    decreases |rs|
  {
    if rs != [] {
      PerformAllCalls(Perform(s, rs[0]), rs[1..]);
    }
  }

  // ---------------------------------------------------------------- the walk

  ghost predicate Others(before: Lists, after: Lists, k: Kind, gone: set<nat>, serial: nat) {
    forall j :: j != k ==> Evolved(before.Get(j), after.Get(j), gone, serial)
  }

  /** What holds between two entries of a walk that began in state `s0`. */
  ghost predicate Standing(s0: State, s: State, p: Pass, script: Script, w: Position) {
    && Sound(s0, s, p, w)
    && w.past + w.ahead == s0.lists.Get(Listed(p))
    && Upon(s0, p, script, |w.past|).state == s && Upon(s0, p, script, |w.past|).gone == w.gone
    && (forall i :: 0 <= i < |w.past| ==> !BreaksAt(s0, p, script, i))
  }

  ghost predicate Sound(s0: State, s: State, p: Pass, w: Position) {
    && Inv(s) && s.clock == s0.clock && s.serial >= s0.serial && s.maxfd >= s0.maxfd
    && Timely(s.lists, s0.serial, s.clock)
    && Holds(w, p, s0.serial) && s.lists.Get(Listed(p)) == w.done + w.todo
    && Others(s0.lists, s.lists, Listed(p), w.gone, s0.serial)
  }

  lemma Start(s: State, p: Pass, script: Script) returns (w: Position)
    requires Inv(s)
    ensures Standing(s, s, p, script, w) && w.todo == s.lists.Get(Listed(p))
  {
    hide Holds, Evolved;
    var list := s.lists.Get(Listed(p));
    w := Position([], list, [], list, {});
    NoEnds(list);
    Begin(list, p, s.serial);
    forall j ensures Evolved(s.lists.Get(j), s.lists.Get(j), {}, s.serial) {
      EvolvedSame(s.lists.Get(j), s.serial);
    }
    forall e | e in s.lists.onTimer ensures e.id < s.serial {
      Members(s, Timer, e);
    }
  }

  /** Where the first entry left to do stood at the beginning, and what its turn means there. */
  lemma Turn(s0: State, s: State, p: Pass, script: Script, w: Position) returns (skipped: seq<Entry>, rest: seq<Entry>)
    requires Standing(s0, s, p, script, w) && w.todo != []
    ensures w.ahead == skipped + [w.todo[0]] + rest && Ids(skipped) <= w.gone && w.todo[0].id !in w.gone
    ensures var (i, list) := (|w.past| + |skipped|, s0.lists.Get(Listed(p)));
            && i < |list| && list[i] == w.todo[0]
            && Upon(s0, p, script, i).state == s && Upon(s0, p, script, i).gone == w.gone
            && Upon(s0, p, script, i + 1) == Take(Upon(s0, p, script, i), p, w.todo[0], script)
            && (forall j :: 0 <= j < i ==> !BreaksAt(s0, p, script, j))
            && (BreaksAt(s0, p, script, i) <==> Hit(p, w.todo[0]) && Harms(s, w.todo[0], w.todo[1..], script))
  {
    hide Inv, Others, Timely, Evolved, Distinct, Along, Upon, Take, Minus, Ids, Harms;
    var e, list := w.todo[0], s0.lists.Get(Listed(p));
    assert w.todo == [e] + w.todo[1..];
    skipped, rest := Skip(w.ahead, w.gone, e, w.todo[1..]);
    var i := |w.past| + |skipped|;
    assert list == w.past + (skipped + [e] + rest);
    assert list[i] == e && list[|w.past|..i] == skipped && list[i + 1..] == rest;
    UponGone(s0, p, script, |w.past|, i);
    UponNext(s0, p, script, i);
  }

  /** An entry that is not due is passed by. */
  lemma NotServed(s0: State, s: State, p: Pass, script: Script, w: Position) returns (w': Position)
    requires Standing(s0, s, p, script, w) && w.todo != [] && !Hit(p, w.todo[0])
    ensures Standing(s0, s, p, script, w') && w'.todo == w.todo[1..]
  {
    hide Inv, Others, Timely, Holds, BreaksAt, Upon;
    var e := w.todo[0];
    var skipped, rest := Turn(s0, s, p, script, w);
    w' := Advanced(w, p, s0.serial, skipped, e, rest);
    Regroup(w.past, skipped + [e], rest);
    Stepped(w.done, e, w'.todo);
  }

  lemma Stepped(done: seq<Entry>, e: Entry, todo: seq<Entry>)
    ensures done + ([e] + todo) == done + [e] + todo && ([e] + todo)[1..] == todo
  {
  }

  lemma NotedInv(s: State, e: Entry)
    ensures Inv(Noted(s, e)) <==> Inv(s)
  {
  }

  /** Callbacks can do no more to a list than add in front and delete. */
  lemma CallEvolves(s: State, e: Entry, script: Script, k: Kind)
    requires Inv(s)
    ensures var t := Call(s, e, script);
            && Inv(t) && t.serial >= s.serial && t.clock == s.clock && t.maxfd >= s.maxfd
            && Evolved(s.lists.Get(k), t.lists.Get(k), Deletes(s, e, script), s.serial)
  {
    hide Inv, Evolved;
    NotedInv(s, e);
    PerformAllKeeps(Noted(s, e), script(e));
    PerformAllEvolves(Noted(s, e), script(e), k);
  }

  lemma CallSound(s0: State, s: State, p: Pass, script: Script, w: Position, e: Entry) returns (w': Position)
    requires Sound(s0, s, p, w)
    ensures Sound(s0, Call(s, e, script), p, w')
    ensures w'.past == w.past && w'.ahead == w.ahead && w'.gone == w.gone + Deletes(s, e, script)
    ensures w'.todo == Minus(w.todo, Deletes(s, e, script))
  {
    hide Inv, Evolved, Timely, Holds, PerformAll, Deletes;
    var t, k, more := Call(s, e, script), Listed(p), Deletes(s, e, script);
    CallEvolves(s, e, script, k);
    forall j | j != k ensures Evolved(s0.lists.Get(j), t.lists.Get(j), w.gone + more, s0.serial) {
      CallEvolves(s, e, script, j);
      EvolvedTwice(s0.lists.Get(j), s.lists.Get(j), t.lists.Get(j), w.gone, more, s0.serial, s.serial);
    }
    PerformAllTimely(Noted(s, e), script(e), s0.serial);
    w' := Called(w, p, s0.serial, t.lists.Get(k), more, s.serial);
  }

  /** What holds of the entry that the walk has come to. */
  lemma Current(s: State, p: Pass, done: seq<Entry>, todo: seq<Entry>)
    requires Inv(s) && s.lists.Get(Listed(p)) == done + todo && todo != []
    ensures var (list, e) := (s.lists.Get(Listed(p)), todo[0]);
            && list == done + [e] + todo[1..] && Distinct(done + [e] + todo[1..]) && e in list
            && Following(list, e.id) == todo[1..]
            && (p.Expired? ==> e.Alarm?)
            && (forall d :: d in todo ==> d.id < s.serial && d in list)
  {
    var list, e := s.lists.Get(Listed(p)), todo[0];
    Stepped(done, e, todo[1..]);
    assert todo == [e] + todo[1..];
    forall d | d in todo ensures d.id < s.serial && d in list {
      Members(s, Listed(p), d);
    }
    Members(s, Listed(p), e);
    DistinctApart(done, todo);
    AtEntry(done, e, todo[1..], []);
  }

  lemma FinishSound(s0: State, s: State, p: Pass, w: Position, skipped: seq<Entry>, e: Entry, rest: seq<Entry>)
    returns (w': Position)
    requires Sound(s0, s, p, w) && Hit(p, e) && (p.Expired? ==> p.now == s0.clock)
    requires w.ahead == skipped + [e] + rest && Ids(skipped) <= w.gone && e.id !in w.gone
    ensures Sound(s0, Finish(s, p, e), p, w') && e in s.lists.Get(Listed(p))
    ensures w'.past == w.past + (skipped + [e]) && w'.ahead == rest && w'.gone == w.gone && w.todo == [e] + w'.todo
  {
    hide Inv, Evolved, Timely, Holds, Distinct, Ids, Finish, Following;
    w' := Advanced(w, p, s0.serial, skipped, e, rest);
    assert w.todo[0] == e && w.todo[1..] == w'.todo;
    Current(s, p, w.done, w.todo);
    FinishKeeps(s, p, e);
    FinishList(s, p, w.done, e, w'.todo);
    FinishTimely(s, p, w.done, e, w'.todo, s0.serial);
  }

  /** What serving the current entry does, when its callback spares it and the next one. */
  lemma Served(s0: State, s: State, p: Pass, script: Script, w: Position) returns (w': Position)
    requires Standing(s0, s, p, script, w) && w.todo != [] && Hit(p, w.todo[0]) && (p.Expired? ==> p.now == s0.clock)
    ensures var (e, t) := (w.todo[0], Call(s, w.todo[0], script));
            !Harms(s, e, w.todo[1..], script) ==>
              && e in t.lists.Get(Listed(p)) && Inv(t)
              && Standing(s0, Finish(t, p, e), p, script, w')
              && |w'.todo| < |w.todo| && (w'.todo == [] <==> w.todo[1..] == [])
              && (w'.todo != [] ==> w'.todo[0] == w.todo[1])
  {
    hide Inv, Sound, BreaksAt, Upon, Deletes, Call, Finish, Ids;
    w' := w;
    if Harms(s, w.todo[0], w.todo[1..], script) {
      return;
    }
    var e, more := w.todo[0], Deletes(s, w.todo[0], script);
    var skipped, rest := Turn(s0, s, p, script, w);
    var w1 := CallSound(s0, s, p, script, w, e);
    w' := FinishSound(s0, Call(s, e, script), p, w1, skipped, e, rest);
    SoundInv(s0, Call(s, e, script), p, w1);
    Regroup(w.past, skipped + [e], rest);
    MinusHead(w.todo, more);
    assert w'.todo == w1.todo[1..];
  }

  lemma SoundInv(s0: State, s: State, p: Pass, w: Position)
    requires Sound(s0, s, p, w)
    ensures Inv(s)
  {
  }

  lemma MinusHead(s: seq<Entry>, gone: set<nat>)
    requires s != [] && s[0].id !in gone && (|s| > 1 ==> s[1].id !in gone)
    ensures var r := Minus(s, gone);
            && r != [] && r[0] == s[0] && |r| <= |s| && (|r| == 1 <==> |s| == 1) && (|s| > 1 ==> r[1] == s[1])
  {
    assert Minus(s, gone) == [s[0]] + Minus(s[1..], gone);
    MinusMembers(s, gone);
    if |s| > 1 {
      assert Minus(s[1..], gone) == [s[1]] + Minus(s[1..][1..], gone);
    }
  }

  /** An entry is missing from the list after a callback exactly when the callback deleted it. */
  lemma Missing(s: State, k: Kind, e: Entry, script: Script, d: Entry)
    requires Inv(s) && d in s.lists.Get(k) && d.id < s.serial
    ensures d.id !in Ids(Call(s, e, script).lists.Get(k)) <==> d.id in Deletes(s, e, script)
    ensures d.id !in Deletes(s, e, script) ==> d in Call(s, e, script).lists.Get(k)
  {
    hide Inv, Evolved, Minus, Call, Deletes;
    var list, after, more := s.lists.Get(k), Call(s, e, script).lists.Get(k), Deletes(s, e, script);
    CallEvolves(s, e, script, k);
    if d.id in Ids(after) {
      Survives(list, after, more, s.serial, d);
    }
    if d.id !in more {
      var news := EvolvedElim(list, after, more, s.serial);
      MinusMembers(list, more);
      assert d in Minus(list, more) && d in after;
    }
  }

  /** What the walk can see of the harm a callback did. */
  lemma Noticed(s0: State, s: State, p: Pass, script: Script, w: Position)
    requires Standing(s0, s, p, script, w) && w.todo != []
    ensures var ids := Ids(Call(s, w.todo[0], script).lists.Get(Listed(p)));
            Harms(s, w.todo[0], w.todo[1..], script) <==> w.todo[0].id !in ids || (|w.todo| > 1 && w.todo[1].id !in ids)
    ensures Inv(s) && Following(s.lists.Get(Listed(p)), w.todo[0].id) == w.todo[1..]
  {
    hide Inv, BreaksAt, Upon, Deletes, Call, Ids, Others, Timely, Holds, Distinct, Following;
    Current(s, p, w.done, w.todo);
    Missing(s, Listed(p), w.todo[0], script, w.todo[0]);
    if |w.todo| > 1 {
      Missing(s, Listed(p), w.todo[0], script, w.todo[1]);
    }
  }

  lemma Broken(s0: State, s: State, p: Pass, script: Script, w: Position)
    requires Standing(s0, s, p, script, w) && w.todo != [] && Hit(p, w.todo[0])
    ensures var (e, t) := (w.todo[0], Call(s, w.todo[0], script));
            Harms(s, e, w.todo[1..], script) ==>
              && Breaks(s0, p, script) && BrokeOff(s0, p, script, t)
              && t.clock == s0.clock && t.serial >= s0.serial && t.maxfd >= s0.maxfd
  {
    hide Inv, BreaksAt, Upon, Deletes, Call, Ids, Others, Timely, Holds, Harms;
    var skipped, rest := Turn(s0, s, p, script, w);
    CallEvolves(s, w.todo[0], script, Listed(p));
  }

  lemma Finished(s0: State, s: State, p: Pass, script: Script, w: Position)
    requires Standing(s0, s, p, script, w) && w.todo == []
    ensures s == AfterPass(s0, p, script).state && !Breaks(s0, p, script)
    ensures Shaped(s0, p, AfterPass(s0, p, script))
  {
    hide Inv, BreaksAt, Upon, Others, Timely, Evolved, Minus, Settle, Distinct;
    var list := s0.lists.Get(Listed(p));
    AllGone(w.ahead, w.gone);
    assert list[|w.past|..|list|] == w.ahead;
    UponGone(s0, p, script, |w.past|, |list|);
    SettleAppend(p, w.past, w.ahead);
    SettleIds(p, w.ahead);
    EvolvedMore(Settle(p, w.past), w.done, w.gone, s0.serial, Settle(p, w.ahead), []);
    NoEnds(Settle(p, w.ahead));
    NoEnds(w.done);
  }

  lemma AllGone(s: seq<Entry>, gone: set<nat>)
    requires Minus(s, gone) == []
    ensures Ids(s) <= gone
  {
    MinusMembers(s, gone);
    assert forall e :: e in s && e.id !in gone ==> e in Minus(s, gone);
  }

  /**
    What a whole pass makes of the lists: in front what callbacks registered, behind it the old
    entries that they did not delete, each settled if it was due; all other lists likewise.
   */
  ghost predicate Shaped(s: State, p: Pass, g: Progress) {
    && Inv(g.state) && g.state.clock == s.clock && g.state.serial >= s.serial && g.state.maxfd >= s.maxfd
    && Evolved(Settle(p, s.lists.Get(Listed(p))), g.state.lists.Get(Listed(p)), g.gone, s.serial)
    && Others(s.lists, g.state.lists, Listed(p), g.gone, s.serial)
    && Timely(g.state.lists, s.serial, s.clock)
  }

  /** Every pass that does not break has that shape. */
  lemma PassShape(s: State, p: Pass, script: Script)
    requires Inv(s) && !Breaks(s, p, script) && (p.Expired? ==> p.now == s.clock)
    ensures Shaped(s, p, AfterPass(s, p, script))
  {
    hide Inv, Standing, Shaped;
    var w := Start(s, p, script);
    Follow(s, s, p, script, w);
  }

  lemma {:induction false} Follow(s0: State, s: State, p: Pass, script: Script, w: Position)
    requires Standing(s0, s, p, script, w) && !Breaks(s0, p, script) && (p.Expired? ==> p.now == s0.clock)
    ensures Shaped(s0, p, AfterPass(s0, p, script))
    decreases |w.todo|
  {
    hide Standing, Shaped, Breaks, Harms, Call, Finish, AfterPass;
    if w.todo == [] {
      Finished(s0, s, p, script, w);
    } else if Hit(p, w.todo[0]) {
      NoHarm(s0, s, p, script, w);
      var w' := Served(s0, s, p, script, w);
      Follow(s0, Finish(Call(s, w.todo[0], script), p, w.todo[0]), p, script, w');
    } else {
      var w' := NotServed(s0, s, p, script, w);
      Follow(s0, s, p, script, w');
    }
  }

  lemma NoHarm(s0: State, s: State, p: Pass, script: Script, w: Position)
    requires Standing(s0, s, p, script, w) && w.todo != [] && Hit(p, w.todo[0])
    ensures !Breaks(s0, p, script) ==> !Harms(s, w.todo[0], w.todo[1..], script)
  {
    hide Standing, BreaksAt, Harms;
    var skipped, rest := Turn(s0, s, p, script, w);
  }

  lemma ShapedRest(s: State, p: Pass, g: Progress)
    requires Shaped(s, p, g)
    ensures Inv(g.state) && g.state.clock == s.clock && g.state.serial >= s.serial && g.state.maxfd >= s.maxfd
  {
  }

  /** After a pass over the timers none with a proper interval is overdue, not even a new one. */
  lemma PassNoneOverdue(s: State, now: Moment, script: Script)
    requires Inv(s) && s.clock == now && !Breaks(s, Expired(now), script)
    ensures var t := AfterPass(s, Expired(now), script).state;
            forall e :: e in t.lists.onTimer && e.Alarm? && Micros(e.timeout) >= 0 ==> !Before(e.deadline, now)
  {
    hide Inv, Breaks, AfterPass, Evolved, Others, Timely, Settle;
    var g := AfterPass(s, Expired(now), script);
    PassShape(s, Expired(now), script);
    NoneOverdue(s.lists.onTimer, g.state.lists, g.gone, s.serial, now);
  }

  /** Nothing that was there before the loop was closed is left waiting for it. */
  lemma PassCloses(s: State, script: Script)
    requires Inv(s) && !Breaks(s, Closing, script)
    ensures forall e :: e in AfterPass(s, Closing, script).state.lists.onClose ==> e.id >= s.serial
  {
    hide Inv, Breaks, AfterPass, Evolved, Others, Timely, Settle;
    var g := AfterPass(s, Closing, script);
    PassShape(s, Closing, script);
    AllSettled(s.lists.onClose);
    var news := EvolvedElim([], g.state.lists.onClose, g.gone, s.serial);
  }

  lemma {:induction false} AllSettled(s: seq<Entry>)
    ensures Settle(Closing, s) == []
  {
    if s != [] {
      AllSettled(s[1..]);
    }
  }
}
