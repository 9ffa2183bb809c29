/** The virtual clock that the manager advances and every worker reads:
    a (seconds, nanoseconds) pair in shared memory. */
module Clock {

  const NANOS_PER_SECOND: int := 1000000000

  /** Nanoseconds since time zero of the reading (seconds, nanoseconds). */
  function TotalNanos(seconds: int, nanoseconds: int): int
  {
    seconds * NANOS_PER_SECOND + nanoseconds
  }

  /** A reading whose nanoseconds have been carried into the seconds. */
  predicate Normalized(seconds: int, nanoseconds: int)
  {
    0 <= seconds && 0 <= nanoseconds < NANOS_PER_SECOND
  }

  /** The reading after one IncrementClock call: the amount is added to the
      nanoseconds and at most one second is carried. For a normalized
      reading and an amount of at most one second, exactly the amount is
      added and the result is normalized again. */
  function Incremented(seconds: int, nanoseconds: int, amount: int): (r: (int, int))
    ensures 0 <= nanoseconds < NANOS_PER_SECOND && 0 <= amount <= NANOS_PER_SECOND ==>
              TotalNanos(r.0, r.1) == TotalNanos(seconds, nanoseconds) + amount &&
              0 <= r.1 < NANOS_PER_SECOND &&
              seconds <= r.0 <= seconds + 1
    ensures nanoseconds + amount < NANOS_PER_SECOND ==> r == (seconds, nanoseconds + amount)
  {
    var ns := nanoseconds + amount;
    if ns >= NANOS_PER_SECOND then (seconds + 1, ns - NANOS_PER_SECOND) else (seconds, ns)
  }

  /** There is a single carry step: from any reading with non-negative
      nanoseconds, an amount of two seconds or more is carried once and
      leaves the nanoseconds at or above one second. */
  lemma SingleCarryOnly(seconds: int, nanoseconds: int, amount: int)
    requires 0 <= nanoseconds && 2 * NANOS_PER_SECOND <= amount
    ensures Incremented(seconds, nanoseconds, amount) == (seconds + 1, nanoseconds + amount - NANOS_PER_SECOND)
    ensures !Normalized(Incremented(seconds, nanoseconds, amount).0, Incremented(seconds, nanoseconds, amount).1)
  {
  }

  /** The clock struct; the worker's copy names its second field
      `nanosecond`, with the same meaning. */
  class SystemClock {
    var seconds: int
    var nanoseconds: int

    constructor ()
      ensures seconds == 0 && nanoseconds == 0
    {
      seconds, nanoseconds := 0, 0;
    }

    /** IncrementClock: add `amount` nanoseconds with one carry into the seconds. */
    method Increment(amount: int)
      modifies this
      ensures (seconds, nanoseconds) == Incremented(old(seconds), old(nanoseconds), amount)
    {
      nanoseconds := nanoseconds + amount;
      if nanoseconds >= NANOS_PER_SECOND {
        nanoseconds := nanoseconds - NANOS_PER_SECOND;
        seconds := seconds + 1;
      }
    }
  }
}
