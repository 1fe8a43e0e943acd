/**
 * Wall-clock timestamps with microsecond resolution (`struct timeval`) and the
 * three operations the benchmarks pace themselves with: adding a microsecond
 * offset, subtracting two timestamps, and deciding at a clock reading whether
 * a deadline has already passed (and if not, how long to sleep).
 *
 * The clock itself is not modelled: every reading of `gettimeofday` is a
 * parameter.
 */
module Timevals {
  import opened Wrappers

  const USEC_PER_SEC: int := 1000000

  /** `struct timeval`: whole seconds and microseconds. */
  datatype Timeval = Timeval(sec: int, usec: int)

  /** The microsecond field is in range: the form every clock reading has. */
  predicate Normalised(t: Timeval) {
    0 <= t.usec < USEC_PER_SEC
  }

  /** The moment a timeval denotes, in microseconds since the epoch. */
  function Micros(t: Timeval): int {
    t.sec * USEC_PER_SEC + t.usec
  }

  /**
   * The value `timeval_add(&t, usec)` leaves in `t`: whole seconds are added
   * first, then the remaining microseconds, with at most one carry.
   */
  function Added(t: Timeval, usec: nat): (r: Timeval)
    ensures Micros(r) == Micros(t) + usec
    ensures r.sec == t.sec + usec / USEC_PER_SEC || r.sec == t.sec + usec / USEC_PER_SEC + 1
    ensures Normalised(t) ==> Normalised(r)
  {
    var sec := t.sec + usec / USEC_PER_SEC;
    var us := t.usec + usec % USEC_PER_SEC;
    if us >= USEC_PER_SEC then Timeval(sec + 1, us - USEC_PER_SEC) else Timeval(sec, us)
  }

  /** A `struct timeval` variable that `timeval_add` updates through a pointer. */
  class Stamp {
    var sec: int
    var usec: int

    function Value(): Timeval
      reads this
    {
      Timeval(sec, usec)
    }

    constructor (t: Timeval)
      ensures Value() == t
    {
      sec, usec := t.sec, t.usec;
    }

    /** `timeval_add(t, usec)`. */
    method Add(n: nat)
      modifies this
      ensures Value() == Added(old(Value()), n)
    {
      sec := sec + n / USEC_PER_SEC;
      var rest := n % USEC_PER_SEC;
      usec := usec + rest;
      if usec >= USEC_PER_SEC {
        usec := usec - USEC_PER_SEC;
        sec := sec + 1;
      }
    }
  }

  /** `timeval_diff(from, to)`: `to - from`, borrowing a second when needed. */
  function Diff(from: Timeval, to: Timeval): (d: Timeval)
    ensures Micros(d) == Micros(to) - Micros(from)
    ensures Normalised(from) && Normalised(to) ==> Normalised(d)
  {
    if to.usec >= from.usec then Timeval(to.sec - from.sec, to.usec - from.usec)
    else Timeval(to.sec - from.sec - 1, USEC_PER_SEC + to.usec - from.usec)
  }

  /** The test of `wait_until`: `now` is past `t` in (seconds, microseconds) order. */
  predicate After(now: Timeval, t: Timeval) {
    now.sec > t.sec || (now.sec == t.sec && now.usec > t.usec)
  }

  /** What `wait_until(t)` does when the clock reads `now`: its result, and the interval it sleeps, if any. */
  datatype Waited = Waited(result: int, sleep: Option<Timeval>)

  function WaitUntil(t: Timeval, now: Timeval): (w: Waited)
    ensures w.result == 1 <==> After(now, t)
    ensures w.result == 0 <==> !After(now, t)
    ensures w.sleep.Some? <==> w.result == 0
    ensures w.sleep.Some? ==> w.sleep.value == Diff(now, t)
    ensures Normalised(now) && Normalised(t) ==> (w.result == 1 <==> Micros(now) > Micros(t))
    ensures Normalised(now) && Normalised(t) && w.sleep.Some? ==>
      Normalised(w.sleep.value) && 0 <= Micros(w.sleep.value) &&
      Micros(now) + Micros(w.sleep.value) == Micros(t)
  {
    assert Normalised(now) && Normalised(t) ==> (After(now, t) <==> Micros(now) > Micros(t)) by {
      if Normalised(now) && Normalised(t) {
        AfterIsLater(now, t);
      }
    }
    if After(now, t) then Waited(1, None) else Waited(0, Some(Diff(now, t)))
  }

  /** For clock readings, the lexicographic test is the order of the moments. */
  lemma AfterIsLater(now: Timeval, t: Timeval)
    requires Normalised(now) && Normalised(t)
    ensures After(now, t) <==> Micros(now) > Micros(t)
  {
    if now.sec > t.sec {
      assert Micros(now) >= (t.sec + 1) * USEC_PER_SEC;
    } else if now.sec < t.sec {
      assert Micros(t) >= (now.sec + 1) * USEC_PER_SEC;
    }
  }

  /** A normalised timeval is determined by the moment it denotes. */
  lemma {:induction false} MicrosDetermines(a: Timeval, b: Timeval)
    requires Normalised(a) && Normalised(b)
    requires Micros(a) == Micros(b)
    ensures a == b
  {
  }

  /** Adding the difference back onto `from` gives `to`. */
  lemma DiffThenAdd(from: Timeval, to: Timeval)
    requires Normalised(from) && Normalised(to)
    requires Micros(from) <= Micros(to)
    ensures Micros(Diff(from, to)) >= 0
    ensures Added(from, Micros(Diff(from, to))) == to
  {
    MicrosDetermines(Added(from, Micros(Diff(from, to))), to);
  }

  /** Subtracting the start from a later moment gives the offset back, split into seconds and microseconds. */
  lemma AddThenDiff(t: Timeval, usec: nat)
    requires Normalised(t)
    ensures Diff(t, Added(t, usec)) == Timeval(usec / USEC_PER_SEC, usec % USEC_PER_SEC)
  {
    MicrosDetermines(Diff(t, Added(t, usec)), Timeval(usec / USEC_PER_SEC, usec % USEC_PER_SEC));
  }

  /** The borrow case: from 5.900000 to 6.100000 is 0.200000. */
  lemma DiffBorrowExample()
    ensures Diff(Timeval(5, 900000), Timeval(6, 100000)) == Timeval(0, 200000)
    ensures Added(Timeval(5, 900000), 200000) == Timeval(6, 100000)
  {
  }

  /** Equal moments are not late; `wait_until` then sleeps for zero time. */
  lemma WaitUntilNow(t: Timeval)
    requires Normalised(t)
    ensures WaitUntil(t, t) == Waited(0, Some(Timeval(0, 0)))
  {
  }
}
