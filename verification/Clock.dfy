/** Instants, durations and the one rounding the store performs on them. */
module Clock {

  /** Nanoseconds since the Unix epoch. */
  type Instant = int

  /** Nanoseconds. */
  type Duration = int

  const SECOND: Duration := 1_000_000_000
  const MINUTE: Duration := 60 * SECOND
  const HOUR: Duration := 60 * MINUTE
  const DAY: Duration := 24 * HOUR

  datatype Option<+T> = None | Some(value: T)

  /** What a time becomes in a column: whole seconds, rounded down. */
  function Unix(t: Instant): int {
    t / SECOND
  }

  /** A time read back from a column. */
  function FromUnix(at: int): Instant {
    at * SECOND
  }

  /** The due test made in memory on a stored moment and the one made in SQL agree, for all that the
      SQL one has rounded the clock down. */
  lemma DueTestsAgree(at: int, now: Instant)
    ensures FromUnix(at) <= now <==> at <= Unix(now)
  {
    assert now == Unix(now) * SECOND + now % SECOND;
  }

  lemma UnixMonotone(a: Instant, b: Instant)
    requires a <= b
    ensures Unix(a) <= Unix(b)
  {
    assert a == Unix(a) * SECOND + a % SECOND;
    assert b == Unix(b) * SECOND + b % SECOND;
  }

  lemma UnixRounds(t: Instant)
    ensures FromUnix(Unix(t)) <= t < FromUnix(Unix(t)) + SECOND
  {
    assert t == Unix(t) * SECOND + t % SECOND;
  }

  /** A column holds how many whole seconds have gone by, before 1970 as after. */
  lemma UnixExactly(t: Instant, at: int)
    ensures Unix(t) == at <==> at * 1_000_000_000 <= t < (at + 1) * 1_000_000_000
    ensures FromUnix(at) == at * 1_000_000_000
    ensures MINUTE == 60_000_000_000 && HOUR == 3_600_000_000_000 && DAY == 86_400_000_000_000
  {
    UnixRounds(t);
  }

  /** Adding whole seconds commutes with rounding. */
  lemma UnixAdds(at: int, d: Duration)
    ensures Unix(FromUnix(at) + d) == at + Unix(d)
  {
    assert d == Unix(d) * SECOND + d % SECOND;
    var sum := FromUnix(at) + d;
    assert sum == (at + Unix(d)) * SECOND + d % SECOND;
    assert sum == Unix(sum) * SECOND + sum % SECOND;
  }
}
