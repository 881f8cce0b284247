/** When somebody is owed a nudge: arithmetic over a rhythm and two instants. */
module Rhythms {
  import opened Clock

  /** A timezone, as the two questions the program asks of one: which minute of the local day an
      instant falls in, and at which instant that local day began. */
  datatype Zone = Zone(minuteOf: Instant -> int, midnight: Instant -> Instant)

  datatype Rhythm = Rhythm(
    zone: Zone,
    windowEnabled: bool,
    wakeMinute: int,
    sleepMinute: int,
    budget: int,
    silent: bool)

  const TICK: Duration := 5 * MINUTE
  const MAX_BUDGET := 24

  /** What SetRhythm lets through. */
  predicate Valid(r: Rhythm) {
    && 0 <= r.wakeMinute
    && r.sleepMinute <= 24 * 60
    && r.wakeMinute < r.sleepMinute
    && 0 <= r.budget <= MAX_BUDGET
  }

  /** A zone that keeps one distance from UTC all year. */
  function FixedOffset(seconds: int): Zone {
    Zone(
      (t: Instant) => ((t + seconds * SECOND) % DAY) / MINUTE,
      (t: Instant) => t - (t + seconds * SECOND) % DAY)
  }

  /** The rhythm nobody has changed. */
  const DEFAULT: Rhythm := Rhythm(FixedOffset(0), true, 9 * 60, 22 * 60, 3, false)

  /** The minutes of a local day in which nudges may come. */
  function Bounds(r: Rhythm): (int, int) {
    if r.windowEnabled then (r.wakeMinute, r.sleepMinute) else (0, 24 * 60)
  }

  function Window(r: Rhythm): Duration {
    (Bounds(r).1 - Bounds(r).0) * MINUTE
  }

  predicate Awake(r: Rhythm, at: Instant) {
    !r.windowEnabled || r.wakeMinute <= r.zone.minuteOf(at) < r.sleepMinute
  }

  function Interval(r: Rhythm): Duration {
    if r.budget <= 0 then 0
    else if Window(r) / r.budget > TICK then Window(r) / r.budget
    else TICK
  }

  /** The longest a decided nudge waits: a tenth of an interval. */
  function Spread(r: Rhythm): Duration {
    Interval(r) / 10
  }

  predicate Due(r: Rhythm, since: Option<Instant>, now: Instant) {
    && r.budget > 0
    && Awake(r, now)
    && (since.Some? ==> now >= since.value + Interval(r))
  }

  /** The waking instant of the local day `now` belongs to. */
  function Woke(r: Rhythm, now: Instant): Instant {
    r.zone.midnight(now) + r.wakeMinute * MINUTE
  }

  /** The instant the next interval is counted from; none when nothing was ever sent and there is no window.
      An absent last nudge is the zero time, which is before every waking. */
  function Since(r: Rhythm, last: Option<Instant>, now: Instant): Option<Instant> {
    if !r.windowEnabled then last
    else if last.None? || last.value < Woke(r, now) then Some(Woke(r, now) - Interval(r) / 2)
    else last
  }

  // ----- What the arithmetic promises -----

  /** The waking instant w starts an ordinary day: every awake instant of that local date lies in the
      window measured from w. Only a day the clocks change on is not ordinary. */
  ghost predicate OrdinaryDay(r: Rhythm, w: Instant) {
    && w % SECOND == 0
    && forall t: Instant :: Awake(r, t) && Woke(r, t) == w ==> w <= t < w + Window(r)
  }

  /** And on a regular one the awake instants of that date are that window, no more and no less. */
  ghost predicate RegularDay(r: Rhythm, w: Instant) {
    forall t: Instant :: Awake(r, t) && Woke(r, t) == w <==> w <= t < w + Window(r)
  }

  /** Local dates never run backwards. */
  ghost predicate DaysInOrder(r: Rhythm) {
    forall a: Instant, b: Instant :: a <= b ==> Woke(r, a) <= Woke(r, b)
  }

  /** Under a fixed offset every day is ordinary and regular, and days come in order. */
  lemma FixedOffsetDays(r: Rhythm, seconds: int)
    requires Valid(r) && r.windowEnabled && r.zone == FixedOffset(seconds)
    ensures forall t: Instant :: OrdinaryDay(r, Woke(r, t)) && RegularDay(r, Woke(r, t))
    ensures DaysInOrder(r)
  {
    forall t: Instant ensures OrdinaryDay(r, Woke(r, t)) && RegularDay(r, Woke(r, t)) {
      WholeSecond(r, seconds, t);
      FixedOffsetWindow(r, seconds, t);
    }
    forall a: Instant, b: Instant | a <= b ensures Woke(r, a) <= Woke(r, b) {
      MidnightMonotone(a, b, seconds * SECOND);
    }
  }

  lemma FixedOffsetWindow(r: Rhythm, seconds: int, day: Instant)
    requires Valid(r) && r.windowEnabled && r.zone == FixedOffset(seconds)
    ensures RegularDay(r, Woke(r, day))
  {
    var w := Woke(r, day);
    forall t: Instant ensures Awake(r, t) && Woke(r, t) == w <==> w <= t < w + Window(r) {
      if Awake(r, t) && Woke(r, t) == w {
        AwakeInsideWindow(r, seconds, t);
      }
      if w <= t < w + Window(r) {
        WindowInsideDay(r, seconds, day, t);
      }
    }
  }

  lemma WindowInsideDay(r: Rhythm, seconds: int, day: Instant, t: Instant)
    requires Valid(r) && r.windowEnabled && r.zone == FixedOffset(seconds)
    requires Woke(r, day) <= t < Woke(r, day) + Window(r)
    ensures Awake(r, t) && Woke(r, t) == Woke(r, day)
  {
    var x, y := day + seconds * SECOND, t + seconds * SECOND;
    var into := y - (x / DAY) * DAY;
    assert x == (x / DAY) * DAY + x % DAY;
    assert r.wakeMinute * MINUTE <= into < r.sleepMinute * MINUTE;
    SameQuotient(y, x / DAY, into);
    MinuteBounds(into, r.wakeMinute, r.sleepMinute);
  }

  lemma SameQuotient(y: int, q: int, into: int)
    requires y == q * DAY + into && 0 <= into < DAY
    ensures y / DAY == q && y % DAY == into
  {
  }

  lemma MinuteBounds(into: Duration, from: int, to: int)
    requires from * MINUTE <= into < to * MINUTE
    ensures from <= into / MINUTE < to
  {
  }

  lemma WholeSecond(r: Rhythm, seconds: int, t: Instant)
    requires r.zone == FixedOffset(seconds)
    ensures Woke(r, t) % SECOND == 0
  {
    var x := t + seconds * SECOND;
    assert x == (x / DAY) * DAY + x % DAY;
    assert Woke(r, t) == SECOND * ((x / DAY) * 86400 - seconds + r.wakeMinute * 60);
    Multiple((x / DAY) * 86400 - seconds + r.wakeMinute * 60);
  }

  lemma Multiple(k: int)
    ensures (SECOND * k) % SECOND == 0
  {
  }

  lemma AwakeInsideWindow(r: Rhythm, seconds: int, t: Instant)
    requires Valid(r) && r.windowEnabled && r.zone == FixedOffset(seconds) && Awake(r, t)
    ensures Woke(r, t) <= t < Woke(r, t) + Window(r)
  {
    var into := (t + seconds * SECOND) % DAY;
    var minute := into / MINUTE;
    assert into == minute * MINUTE + into % MINUTE;
    assert r.wakeMinute <= minute && minute + 1 <= r.sleepMinute;
    assert r.wakeMinute * MINUTE <= into < r.sleepMinute * MINUTE;
    assert Woke(r, t) == t - into + r.wakeMinute * MINUTE;
  }

  lemma MidnightMonotone(a: Instant, b: Instant, offset: Duration)
    requires a <= b
    ensures a - (a + offset) % DAY <= b - (b + offset) % DAY
  {
    var x, y := a + offset, b + offset;
    assert x == (x / DAY) * DAY + x % DAY;
    assert y == (y / DAY) * DAY + y % DAY;
    assert x / DAY <= y / DAY;
  }

  /** The interval, times the budget, covers the window to within a nanosecond a nudge; and covers it
      outright when the interval is a whole number of seconds. */
  lemma IntervalCoversWindow(r: Rhythm)
    requires Valid(r) && r.budget > 0
    ensures Interval(r) >= TICK
    ensures Window(r) < r.budget * Interval(r) + r.budget
    ensures Interval(r) % SECOND == 0 ==> Window(r) <= r.budget * Interval(r)
  {
    var q := Window(r) / r.budget;
    QuotientBounds(Window(r), r.budget);
    MulMonotone(r.budget, q, Interval(r));
    if q < TICK {
      MulMonotone(r.budget, q + 1, TICK);
      assert r.budget * (q + 1) == r.budget * q + r.budget;
    } else if Interval(r) % SECOND == 0 {
      WholeSecondsDivide(Bounds(r).1 - Bounds(r).0, r.budget, q / SECOND);
    }
  }

  lemma QuotientBounds(w: int, b: int)
    requires b > 0
    ensures b * (w / b) <= w < b * (w / b) + b
  {
  }

  /** Whole minutes shared out in whole seconds leave no nanoseconds over. */
  lemma WholeSecondsDivide(minutes: int, b: int, s: int)
    requires 0 < b <= MAX_BUDGET
    requires b * (s * SECOND) <= minutes * MINUTE < b * (s * SECOND) + b
    ensures minutes * MINUTE == b * (s * SECOND)
  {
    var seconds := b * s;
    assert b * (s * SECOND) == SECOND * seconds;
  }

  lemma MulMonotone(k: nat, a: int, b: int)
    requires a <= b
    ensures k * a <= k * b
  {
  }

  lemma SmallerFactor(b: int, x: int, y: int)
    requires b > 0 && b * x < b * y
    ensures x < y
  {
    if x >= y {
      MulMonotone(b, y, x);
    }
  }
}
