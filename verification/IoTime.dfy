/** Times of day with a second and a microsecond part, and how long the loop may sleep. */
module IoTime {

  datatype Timeval = Timeval(sec: int, usec: int)

  /** The part below a second of a well-formed time is never negative, whatever the sign of the whole. */
  type Moment = t: Timeval | 0 <= t.usec < 1_000_000 witness Timeval(0, 0)

  function Micros(t: Timeval): int {
    t.sec * 1_000_000 + t.usec
  }

  function Sum(a: Moment, b: Moment): (r: Moment)
    ensures Micros(r) == Micros(a) + Micros(b)
  {
    if a.usec + b.usec >= 1_000_000
    then Timeval(a.sec + b.sec + 1, a.usec + b.usec - 1_000_000)
    else Timeval(a.sec + b.sec, a.usec + b.usec)
  }

  function Difference(a: Moment, b: Moment): (r: Moment)
    ensures Micros(r) == Micros(a) - Micros(b)
  {
    if a.usec - b.usec < 0
    then Timeval(a.sec - b.sec - 1, a.usec - b.usec + 1_000_000)
    else Timeval(a.sec - b.sec, a.usec - b.usec)
  }

  /** Comparison field by field is comparison of the whole. */
  predicate Before(a: Moment, b: Moment)
    ensures Before(a, b) <==> Micros(a) < Micros(b)
  {
    if a.sec == b.sec then a.usec < b.usec else a.sec < b.sec
  }

  function Max(a: int, b: int): int {
    if a < b then b else a
  }

  function Min(a: int, b: int): int {
    if a < b then a else b
  }

  /** The least of a limit and the time left until every deadline. */
  function Nearest(limit: int, now: Moment, deadlines: seq<Moment>): int
    decreases |deadlines|
  {
    if deadlines == [] then limit
    else Nearest(Min(limit, Micros(deadlines[0]) - Micros(now)), now, deadlines[1..])
  }

  lemma {:induction false} NearestIsLeast(limit: int, now: Moment, deadlines: seq<Moment>)
    ensures Nearest(limit, now, deadlines) <= limit
    ensures forall d :: d in deadlines ==> Nearest(limit, now, deadlines) <= Micros(d) - Micros(now)
    ensures Nearest(limit, now, deadlines) == limit
            || exists d :: d in deadlines && Nearest(limit, now, deadlines) == Micros(d) - Micros(now)
    decreases |deadlines|
  {
    if deadlines != [] {
      var least := Min(limit, Micros(deadlines[0]) - Micros(now));
      NearestIsLeast(least, now, deadlines[1..]);
      assert deadlines == [deadlines[0]] + deadlines[1..];
      if Nearest(least, now, deadlines[1..]) != least {
        var d :| d in deadlines[1..] && Nearest(least, now, deadlines[1..]) == Micros(d) - Micros(now);
        assert d in deadlines;
      }
    }
  }

  /** The first `n` deadlines and then the others. */
  lemma {:induction false} NearestSplit(limit: int, now: Moment, deadlines: seq<Moment>, n: nat)
    requires n <= |deadlines|
    ensures Nearest(limit, now, deadlines) == Nearest(Nearest(limit, now, deadlines[..n]), now, deadlines[n..])
    decreases n
  {
    if n == 0 {
      assert deadlines[0..] == deadlines;
    } else {
      var least := Min(limit, Micros(deadlines[0]) - Micros(now));
      NearestSplit(least, now, deadlines[1..], n - 1);
      assert deadlines[..n][1..] == deadlines[1..][..n - 1];
      assert deadlines[n..] == deadlines[1..][n - 1..];
    }
  }

  /**
    How long to sleep: the default, or less when a timer is due sooner, and nothing at all
    when one is overdue. The search stops at the first overdue timer. The first result is zero only
    when there is no timer.
   */
  method Timeout(default: Moment, now: Moment, deadlines: seq<Moment>) returns (timers: nat, timeout: Moment)
    ensures timers == 0 <==> deadlines == []
    ensures deadlines == [] ==> timeout == default
    ensures Micros(default) >= 0 ==> Micros(timeout) == Max(0, Nearest(Micros(default), now, deadlines))
    ensures (exists d :: d in deadlines && Before(d, now)) ==> timeout == Timeval(0, 0)
    ensures (forall d :: d in deadlines ==> !Before(d, now)) ==>
        Micros(timeout) == Nearest(Micros(default), now, deadlines)
  {
    timers, timeout := 0, default;
    var i := 0;
    assert deadlines[0..] == deadlines;
    while i < |deadlines|
      invariant 0 <= i <= |deadlines| && timers == i
      invariant i == 0 ==> timeout == default
      invariant Micros(timeout) == Nearest(Micros(default), now, deadlines[..i])
      invariant forall d :: d in deadlines[..i] ==> !Before(d, now)
      invariant Micros(default) >= 0 ==> Micros(timeout) >= 0
    {
      var delta := Difference(deadlines[i], now);
      if delta.sec < 0 || delta.usec < 0 {
        assert deadlines[i] in deadlines && Before(deadlines[i], now);
        NearestIsLeast(Micros(default), now, deadlines);
        return 1, Timeval(0, 0);
      }
      NearestSplit(Micros(default), now, deadlines[..i + 1], i);
      assert deadlines[..i + 1][..i] == deadlines[..i];
      assert deadlines[..i + 1][i..] == [deadlines[i]];
      assert deadlines[..i + 1] == deadlines[..i] + [deadlines[i]];
      if !Before(timeout, delta) {
        timeout := delta;
      }
      timers := timers + 1;
      i := i + 1;
    }
    assert deadlines[..i] == deadlines;
  }

  /** The promise that the sleep is never negative depends on the default alone, as long as nothing is overdue. */
  lemma SleepExact(default: Moment, now: Moment, deadlines: seq<Moment>)
    requires forall d :: d in deadlines ==> !Before(d, now)
    ensures Nearest(Micros(default), now, deadlines) >= 0 <==> Micros(default) >= 0
  {
    NearestIsLeast(Micros(default), now, deadlines);
  }
}
