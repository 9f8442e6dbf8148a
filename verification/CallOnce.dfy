/**
  The call-once protocol: a spin on a status word guards the creation of a lock, and the lock
  makes late callers wait for the callback. Any number of threads, interleaved step by step;
  every read and every write of the shared status is a step of its own.
 */
module CallOnce {

  /** Where a caller is. The first line is the loop, the second the thread that won the swap, the third a waiter. */
  datatype Pc =
    | Check | Dispatch | Swap
    | Init | EnterFirst | SetTwo | Call | Calling | SetThree | LeaveFirst
    | EnterWait | LeaveWait
    | Returned

  datatype Owner = Free | Held(thread: nat)

  /**
    The shared state, the threads, and a record of what happened: how often the lock was created,
    the callback started and finished, whether a thread used the lock before it existed, and which
    thread won the swap.
   */
  datatype State = State(
    status: nat, lock: Owner, pcs: seq<Pc>,
    inits: nat, started: nat, finished: nat, misused: bool, winner: Owner)

  function Start(threads: nat): State {
    State(0, Free, seq(threads, _ => Check), 0, 0, 0, false, Free)
  }

  predicate Blocked(s: State, t: nat)
    requires t < |s.pcs|
  {
    s.pcs[t].Returned? || ((s.pcs[t].EnterFirst? || s.pcs[t].EnterWait?) && s.lock.Held?)
  }

  /** The next step of thread `t`; a blocked thread stays where it is. */
  function Step(s: State, t: nat): (s': State)
    requires t < |s.pcs|
    ensures |s'.pcs| == |s.pcs|
  {
    if Blocked(s, t) then s else
      match s.pcs[t]
      case Check => Goto(s, t, if s.status < 3 then Dispatch else Returned)
      case Dispatch => Goto(s, t, if s.status == 0 then Swap else if s.status == 2 then EnterWait else Check)
      case Swap => if s.status == 0 then Goto(s, t, Init).(status := 1, winner := Held(t)) else Goto(s, t, Check)
      case Init => Goto(s, t, EnterFirst).(inits := s.inits + 1)
      case EnterFirst => Goto(s, t, SetTwo).(lock := Held(t), misused := s.misused || s.inits == 0)
      case SetTwo => Goto(s, t, Call).(status := 2)
      case Call => Goto(s, t, Calling).(started := s.started + 1)
      case Calling => Goto(s, t, SetThree).(finished := s.finished + 1)
      case SetThree => Goto(s, t, LeaveFirst).(status := 3)
      case LeaveFirst => Goto(s, t, Returned).(lock := Free)
      case EnterWait => Goto(s, t, LeaveWait).(lock := Held(t), misused := s.misused || s.inits == 0)
      case LeaveWait => Goto(s, t, Check).(lock := Free)
      case Returned => s
  }

  function Goto(s: State, t: nat, pc: Pc): (s': State)
    requires t < |s.pcs|
    ensures |s'.pcs| == |s.pcs|
  {
    s.(pcs := s.pcs[t := pc])
  }

  /** A run: in each step the scheduler picks a thread. Picks that name no thread are skipped. */
  function Run(s: State, schedule: seq<nat>): (s': State)
    ensures |s'.pcs| == |s.pcs|
    decreases |schedule|
  {
    if schedule == [] then s
    else Run(if schedule[0] < |s.pcs| then Step(s, schedule[0]) else s, schedule[1..])
  }

  // ----- The invariant -----

  predicate Winning(pc: Pc) {
    pc.Init? || pc.EnterFirst? || pc.SetTwo? || pc.Call? || pc.Calling? || pc.SetThree? || pc.LeaveFirst?
  }

  /** What the shared state is while the winner is at `pc`. */
  predicate WinnerAt(s: State, w: nat, pc: Pc) {
    match pc
    case Init => s.status == 1 && s.lock == Free && s.inits == 0 && s.started == 0 && s.finished == 0
    case EnterFirst => s.status == 1 && s.lock == Free && s.inits == 1 && s.started == 0 && s.finished == 0
    case SetTwo => s.status == 1 && s.lock == Held(w) && s.inits == 1 && s.started == 0 && s.finished == 0
    case Call => s.status == 2 && s.lock == Held(w) && s.inits == 1 && s.started == 0 && s.finished == 0
    case Calling => s.status == 2 && s.lock == Held(w) && s.inits == 1 && s.started == 1 && s.finished == 0
    case SetThree => s.status == 2 && s.lock == Held(w) && s.inits == 1 && s.started == 1 && s.finished == 1
    case LeaveFirst => s.status == 3 && s.lock == Held(w) && s.inits == 1 && s.started == 1 && s.finished == 1
    case Returned => s.status == 3 && s.inits == 1 && s.started == 1 && s.finished == 1 && s.lock != Held(w)
    case _ => false
  }

  /** What holds of a thread that did not win. */
  predicate OtherAt(s: State, t: nat, pc: Pc) {
    && !Winning(pc)
    && (pc.EnterWait? ==> s.status >= 2)
    && (pc.LeaveWait? <==> s.lock == Held(t))
    && (pc.LeaveWait? ==> s.status == 3)
    && (pc.Returned? ==> s.status == 3)
  }

  ghost predicate Inv(s: State) {
    && !s.misused
    && (s.winner.Free? ==>
          s.status == 0 && s.lock == Free && s.inits == 0 && s.started == 0 && s.finished == 0)
    && (s.winner.Held? ==> s.winner.thread < |s.pcs| && WinnerAt(s, s.winner.thread, s.pcs[s.winner.thread]))
    && (s.lock.Held? ==> s.lock.thread < |s.pcs|)
    && forall t :: 0 <= t < |s.pcs| && s.winner != Held(t) ==> OtherAt(s, t, s.pcs[t])
  }

  /** A step of one thread leaves every other thread in a place that fits the new shared state. */
  lemma StepKeepsOther(s: State, t: nat, u: nat)
    requires Inv(s) && t < |s.pcs| && u < |s.pcs| && u != t && s.winner != Held(u)
    ensures OtherAt(Step(s, t), u, s.pcs[u])
  {
    assert OtherAt(s, u, s.pcs[u]);
    assert s.winner != Held(t) ==> OtherAt(s, t, s.pcs[t]);
  }

  /** A step of another thread leaves the winner where the shared state says it is. */
  lemma StepKeepsWinner(s: State, t: nat)
    requires Inv(s) && t < |s.pcs| && s.winner.Held? && s.winner != Held(t)
    ensures WinnerAt(Step(s, t), s.winner.thread, s.pcs[s.winner.thread])
  {
    assert OtherAt(s, t, s.pcs[t]);
  }

  lemma StepKeepsInv(s: State, t: nat)
    requires Inv(s) && t < |s.pcs|
    ensures Inv(Step(s, t))
  {
    var s' := Step(s, t);
    assert s.winner != Held(t) ==> OtherAt(s, t, s.pcs[t]);
    if s.winner.Held? && s.winner != Held(t) {
      StepKeepsWinner(s, t);
    }
    forall u | 0 <= u < |s'.pcs| && s'.winner != Held(u) ensures OtherAt(s', u, s'.pcs[u]) {
      if u != t {
        StepKeepsOther(s, t, u);
      }
    }
  }

  lemma {:induction false} RunKeepsInv(s: State, schedule: seq<nat>)
    requires Inv(s)
    ensures Inv(Run(s, schedule))
    decreases |schedule|
  {
    if schedule != [] {
      var t := schedule[0];
      if t < |s.pcs| {
        StepKeepsInv(s, t);
        RunKeepsInv(Step(s, t), schedule[1..]);
      } else {
        RunKeepsInv(s, schedule[1..]);
      }
    }
  }

  /**
    For any number of callers and any interleaving: the callback starts at most once, the lock is
    created at most once and never used before that, and no caller has returned unless the callback
    has finished.
   */
  lemma CalledOnce(threads: nat, schedule: seq<nat>)
    ensures var s := Run(Start(threads), schedule);
      && s.started <= 1 && s.finished <= s.started && s.inits <= 1 && !s.misused
      && (forall t :: 0 <= t < |s.pcs| && s.pcs[t].Returned? ==> s.finished == 1)
      && (forall t, u :: 0 <= t < u < |s.pcs| ==> !(Winning(s.pcs[t]) && Winning(s.pcs[u])))
      && (forall t, u :: 0 <= t < u < |s.pcs| ==> !(InsideLock(s.pcs[t]) && InsideLock(s.pcs[u])))
  {
    RunKeepsInv(Start(threads), schedule);
    var s := Run(Start(threads), schedule);
    forall t | 0 <= t < |s.pcs| && InsideLock(s.pcs[t]) ensures s.lock == Held(t) {
      assert s.winner != Held(t) ==> OtherAt(s, t, s.pcs[t]);
    }
  }

  /** Between entering and leaving the lock. */
  predicate InsideLock(pc: Pc) {
    pc.SetTwo? || pc.Call? || pc.Calling? || pc.SetThree? || pc.LeaveFirst? || pc.LeaveWait?
  }

  // ----- Every fair run comes to the end -----

  predicate AllReturned(s: State) {
    forall t :: 0 <= t < |s.pcs| ==> s.pcs[t].Returned?
  }

  /** How far a thread is from the swap, while nobody has won it. */
  function ToSwap(pc: Pc): nat {
    match pc
    case Check => 2
    case Dispatch => 1
    case _ => 0
  }

  /** How far the winner is from announcing that the callback is done. */
  function ToDone(pc: Pc): nat {
    match pc
    case Init => 6
    case EnterFirst => 5
    case SetTwo => 4
    case Call => 3
    case Calling => 2
    case _ => 1
  }

  /** How far a thread is from returning, once that has been announced. */
  function ToReturn(pc: Pc): nat {
    match pc
    case Returned => 0
    case Check => 1
    case LeaveFirst => 1
    case EnterWait => 3
    case _ => 2
  }

  function Sum(pcs: seq<Pc>, distance: Pc -> nat): nat {
    if pcs == [] then 0 else distance(pcs[0]) + Sum(pcs[1..], distance)
  }

  lemma {:induction false} SumUpdate(pcs: seq<Pc>, t: nat, pc: Pc, distance: Pc -> nat)
    requires t < |pcs|
    ensures Sum(pcs[t := pc], distance) == Sum(pcs, distance) - distance(pcs[t]) + distance(pc)
  {
    if t == 0 {
      assert pcs[t := pc][1..] == pcs[1..];
    } else {
      SumUpdate(pcs[1..], t - 1, pc, distance);
      assert pcs[t := pc][1..] == pcs[1..][t - 1 := pc];
    }
  }

  lemma {:induction false} SumBound(pcs: seq<Pc>, distance: Pc -> nat, most: nat)
    requires forall pc :: distance(pc) <= most
    ensures Sum(pcs, distance) <= most * |pcs|
  {
    if pcs != [] {
      SumBound(pcs[1..], distance, most);
    }
  }

  /**
    What is left to do at most, counted in fair rounds: first somebody has to win the swap, then the winner has
    to get through the callback, and then everybody has to leave.
   */
  function Rank(s: State): nat {
    if s.status >= 3 then Sum(s.pcs, ToReturn)
    else if s.winner.Held? && s.winner.thread < |s.pcs| then 3 * |s.pcs| + ToDone(s.pcs[s.winner.thread])
    else 3 * |s.pcs| + 7 + Sum(s.pcs, ToSwap)
  }

  /** A step of this thread brings the end nearer. */
  predicate Productive(s: State, t: nat)
    requires t < |s.pcs|
  {
    !Blocked(s, t) && (s.status >= 3 || s.winner.Free? || s.winner == Held(t))
  }

  lemma StepRank(s: State, t: nat)
    requires Inv(s) && t < |s.pcs|
    ensures Productive(s, t) ==> Rank(Step(s, t)) < Rank(s)
    ensures !Productive(s, t) ==> Rank(Step(s, t)) == Rank(s)
  {
    hide Sum;
    var s' := Step(s, t);
    assert s.winner != Held(t) ==> OtherAt(s, t, s.pcs[t]);
    SumUpdate(s.pcs, t, s'.pcs[t], ToReturn);
    SumUpdate(s.pcs, t, s'.pcs[t], ToSwap);
    SumBound(s'.pcs, ToReturn, 3);
    assert Blocked(s, t) || s'.pcs == s.pcs[t := s'.pcs[t]];
  }

  /** Somebody whose step brings the end nearer: the holder of the lock, else the winner on its way, else anyone. */
  ghost function Pick(s: State): (t: nat)
    requires Inv(s) && !AllReturned(s)
    ensures t < |s.pcs| && Productive(s, t)
  {
    if s.lock.Held? then
      assert s.winner != s.lock ==> OtherAt(s, s.lock.thread, s.pcs[s.lock.thread]);
      s.lock.thread
    else if s.winner.Held? && !s.pcs[s.winner.thread].Returned? then s.winner.thread
    else
      var t :| 0 <= t < |s.pcs| && !s.pcs[t].Returned?;
      assert s.winner != Held(t) ==> OtherAt(s, t, s.pcs[t]);
      t
  }

  /** A step that brings nothing nearer leaves the one to pick as it was. */
  lemma PickStays(s: State, t: nat)
    requires Inv(s) && t < |s.pcs| && !Productive(s, t) && !AllReturned(s)
    ensures Inv(Step(s, t)) && !AllReturned(Step(s, t)) && Pick(Step(s, t)) == Pick(s) && Pick(s) != t
  {
    StepKeepsInv(s, t);
    if !Blocked(s, t) {
      var w := s.winner.thread;
      assert OtherAt(s, t, s.pcs[t]);
      assert !s.pcs[w].Returned? && Step(s, t).pcs[w] == s.pcs[w];
    }
  }

  lemma {:induction false} RunRank(s: State, schedule: seq<nat>)
    requires Inv(s)
    ensures Rank(Run(s, schedule)) <= Rank(s)
    decreases |schedule|
  {
    hide Rank, Step;
    if schedule != [] {
      var t := schedule[0];
      if t < |s.pcs| {
        StepRank(s, t);
        StepKeepsInv(s, t);
        RunRank(Step(s, t), schedule[1..]);
      } else {
        RunRank(s, schedule[1..]);
      }
    }
  }

  /** A schedule that picks the right thread at least once brings the end nearer. */
  lemma {:induction false} RoundProgresses(s: State, schedule: seq<nat>)
    requires Inv(s) && !AllReturned(s) && Pick(s) in schedule
    ensures Rank(Run(s, schedule)) < Rank(s)
    decreases |schedule|
  {
    hide Rank, Step, Pick, Productive, AllReturned, Inv;
    var (t, rest) := (schedule[0], schedule[1..]);
    assert schedule == [t] + rest;
    if t >= |s.pcs| {
      RoundProgresses(s, rest);
    } else {
      StepRank(s, t);
      StepKeepsInv(s, t);
      if Productive(s, t) {
        RunRank(Step(s, t), rest);
      } else {
        PickStays(s, t);
        RoundProgresses(Step(s, t), rest);
      }
    }
  }

  /** A round picks every thread at least once, in any order and as often as it likes. */
  ghost predicate Round(schedule: seq<nat>, threads: nat) {
    forall t :: 0 <= t < threads ==> t in schedule
  }

  function Flatten(rounds: seq<seq<nat>>): seq<nat> {
    if rounds == [] then [] else rounds[0] + Flatten(rounds[1..])
  }

  lemma {:induction false} RunAppend(s: State, a: seq<nat>, b: seq<nat>)
    ensures Run(s, a + b) == Run(Run(s, a), b)
    decreases |a|
  {
    if a == [] {
      assert a + b == b;
    } else {
      assert (a + b)[1..] == a[1..] + b;
      RunAppend(if a[0] < |s.pcs| then Step(s, a[0]) else s, a[1..], b);
    }
  }

  /** Nothing moves once all have returned. */
  lemma {:induction false} RunReturned(s: State, schedule: seq<nat>)
    requires AllReturned(s)
    ensures Run(s, schedule) == s
    decreases |schedule|
  {
    if schedule != [] {
      RunReturned(s, schedule[1..]);
    }
  }

  lemma {:induction false} RoundsFinish(s: State, rounds: seq<seq<nat>>)
    requires Inv(s) && Rank(s) <= |rounds| && forall r :: r in rounds ==> Round(r, |s.pcs|)
    ensures AllReturned(Run(s, Flatten(rounds)))
    decreases |rounds|
  {
    hide Rank, Pick, AllReturned, Inv, Run;
    if AllReturned(s) {
      RunReturned(s, Flatten(rounds));
    } else {
      StepRank(s, Pick(s));
      var s' := Run(s, rounds[0]);
      RunKeepsInv(s, rounds[0]);
      assert Round(rounds[0], |s.pcs|);
      RoundProgresses(s, rounds[0]);
      RoundsFinish(s', rounds[1..]);
      RunAppend(s, rounds[0], Flatten(rounds[1..]));
    }
  }

  lemma StartRank(threads: nat)
    ensures Inv(Start(threads)) && Rank(Start(threads)) <= 5 * threads + 7
  {
    SumBound(Start(threads).pcs, ToSwap, 2);
  }

  /**
    Whatever has happened before, any schedule that gives each of n callers at least one turn in each of 5n+7 rounds
    ends with all of them returned: the spin does not go on for ever, and nobody waits in vain for the lock.
   */
  lemma FairRunsEnd(threads: nat, prefix: seq<nat>, rounds: seq<seq<nat>>)
    requires |rounds| >= 5 * threads + 7 && forall r :: r in rounds ==> Round(r, threads)
    ensures AllReturned(Run(Start(threads), prefix + Flatten(rounds)))
  {
    hide Rank, Run, Inv, AllReturned;
    var s := Start(threads);
    StartRank(threads);
    RunKeepsInv(s, prefix);
    RunRank(s, prefix);
    RoundsFinish(Run(s, prefix), rounds);
    RunAppend(s, prefix, Flatten(rounds));
  }
}
