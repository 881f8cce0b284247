/** The one over the budget is real: under every rhythm whose interval is not whole seconds there is a run in
    which a day holds it. */
module Tight {
  import opened Clock
  import opened Rhythms
  import opened Picks
  import opened Tables
  import opened Runs
  import opened Daily
  import opened Floors

  /** Ten milliseconds: how far apart a pass that decides and the next, which claims, are in these runs. The
      next one follows that closely when a pass before was slow, or when the program has just started again. */
  const SPLIT: Duration := SECOND / 100

  ghost predicate Uneven(r: Rhythm, seconds: int) {
    && Rhythms.Valid(r) && r.windowEnabled && r.budget > 0
    && r.zone == FixedOffset(seconds)
    && Interval(r) % SECOND != 0
  }

  // ----- What every send of the day is ahead of the clock by -----

  /** A fraction of a second left over by sharing whole minutes out among at most two dozen is never small and
      never nearly a second. */
  lemma LeftOver(minutes: int, b: int, u: int, f: int)
    requires 0 < b <= MAX_BUDGET && 0 < f < SECOND
    requires b * (u * SECOND + f) <= minutes * MINUTE < b * (u * SECOND + f) + b
    ensures f + SPLIT < SECOND && b >= 2 && SPLIT < (b - 1) * f
  {
    var k := minutes * 60 - b * u;
    assert b * (u * SECOND + f) == (b * u) * SECOND + b * f;
    assert b * f <= k * SECOND < b * f + b;
    assert b * f > 0;
    MulMonotone(b, f, SECOND - 1);
    MulMonotone(b, f + 1, SECOND);
    assert b * (SECOND - 1) == b * SECOND - b && b * (f + 1) == b * f + b;
    assert 0 < k < b;
    LeftOverBounds(b, f, k);
  }

  lemma LeftOverBounds(b: int, f: int, k: int)
    requires 0 < k < b <= MAX_BUDGET && b * f <= k * SECOND < b * f + b
    ensures f + SPLIT < SECOND && SPLIT < (b - 1) * f
  {
    assert b * (SECOND - SPLIT) == b * SECOND - b * SPLIT;
    SmallerFactor(b, f, SECOND - SPLIT);
    assert b * (f + 1) == b * f + b;
    SmallerFactor(b, SPLIT + 1, f + 1);
    MulMonotone(f, 1, b - 1);
    assert f * (b - 1) == (b - 1) * f;
  }

  lemma UnevenInterval(r: Rhythm, seconds: int)
    requires Uneven(r, seconds)
    ensures var i := Interval(r);
            && i % SECOND + SPLIT < SECOND && r.budget >= 2
            && SPLIT < (r.budget - 1) * (i % SECOND)
            && r.budget * i <= Window(r)
            && i == Unix(i) * SECOND + i % SECOND
  {
    var i := Interval(r);
    assert TICK % SECOND == 0;
    assert i == Window(r) / r.budget;
    QuotientBounds(Window(r), r.budget);
    LeftOver(Bounds(r).1 - Bounds(r).0, r.budget, i / SECOND, i % SECOND);
  }

  // ----- When things happen -----

  /** When the pass decides that leads to the n-th send after the first. */
  function Deciding(r: Rhythm, w: Instant, n: nat): Instant
    requires n > 0
  {
    w + FromUnix((n - 1) * Unix(Interval(r))) + Interval(r)
  }

  function Sending(r: Rhythm, w: Instant, n: nat): Instant {
    if n == 0 then w else Deciding(r, w, n) + SPLIT
  }

  function Dated(r: Rhythm, w: Instant, n: nat): int {
    Unix(w) + n * Unix(Interval(r))
  }

  /** Waking on the day before, and half an interval on. */
  function DayBefore(r: Rhythm, w: Instant): Instant {
    w - DAY + Interval(r) - Interval(r) / 2
  }

  ghost predicate IsWaking(r: Rhythm, seconds: int, w: Instant) {
    Uneven(r, seconds) && w == Woke(r, w)
  }

  /** All of it lies in the window. */
  lemma Room(i: int, b: int, f: int, u: int, n: nat)
    requires i == u * SECOND + f && 0 < n <= b && SPLIT < (b - 1) * f && u >= 0
    ensures ((n - 1) * u) * SECOND + i + SPLIT < b * i
  {
    MulMonotone(u, n - 1, b - 1);
    assert ((b - 1) * u) * SECOND == (b - 1) * (u * SECOND);
    assert (b - 1) * i == (b - 1) * (u * SECOND) + (b - 1) * f;
    assert (b - 1) * i == b * i - i;
  }

  lemma Moments(r: Rhythm, seconds: int, w: Instant, n: nat)
    requires IsWaking(r, seconds, w) && 0 < n <= r.budget
    ensures w < Deciding(r, w, n) < Sending(r, w, n) < w + Window(r)
    ensures Unix(Deciding(r, w, n)) == Unix(Sending(r, w, n)) == Dated(r, w, n)
    ensures Deciding(r, w, n) == FromUnix(Dated(r, w, n - 1)) + Interval(r)
    ensures Deciding(r, w, n) > Sending(r, w, n - 1)
  {
    hide Interval, Window, Woke;
    var i := Interval(r);
    var u, f := Unix(i), i % SECOND;
    UnevenInterval(r, seconds);
    IntervalIsLong(r, seconds);
    WakingIsWhole(r, seconds, w);
    Room(i, r.budget, f, u, n);
    UnixAdds(Dated(r, w, n - 1), i);
    UnixAdds(Dated(r, w, n - 1), i + SPLIT);
    assert Unix(i + SPLIT) == u;
    assert Dated(r, w, n) == Dated(r, w, n - 1) + u by { assert n * u == (n - 1) * u + u; }
    assert FromUnix(Dated(r, w, n - 1)) == w + FromUnix((n - 1) * u);
    if n > 1 {
      assert (n - 1) * u == (n - 2) * u + u;
    }
  }

  lemma IntervalIsLong(r: Rhythm, seconds: int)
    requires Uneven(r, seconds)
    ensures Interval(r) >= TICK
  {
  }

  lemma WakingIsWhole(r: Rhythm, seconds: int, w: Instant)
    requires IsWaking(r, seconds, w)
    ensures FromUnix(Unix(w)) == w
  {
    WholeSecond(r, seconds, w);
  }

  lemma InTheDay(r: Rhythm, seconds: int, w: Instant, t: Instant)
    requires IsWaking(r, seconds, w) && w <= t < w + Window(r)
    ensures Awake(r, t) && Woke(r, t) == w
  {
    WindowInsideDay(r, seconds, w, t);
  }

  lemma TheDayBefore(r: Rhythm, seconds: int, w: Instant)
    requires IsWaking(r, seconds, w)
    ensures Awake(r, DayBefore(r, w)) && Woke(r, DayBefore(r, w)) == w - DAY
    ensures DayBefore(r, w) < w
  {
    hide Interval, Woke, Awake, Window;
    WokeTheDayBefore(r, seconds, w);
    HalfAnInterval(r, seconds);
    WindowInsideDay(r, seconds, w - DAY, DayBefore(r, w));
  }

  lemma WokeTheDayBefore(r: Rhythm, seconds: int, w: Instant)
    requires IsWaking(r, seconds, w)
    ensures Woke(r, w - DAY) == w - DAY
  {
    hide Interval, Window;
    SameTimeTheDayBefore(w + seconds * SECOND);
    assert (w - DAY) + seconds * SECOND == (w + seconds * SECOND) - DAY;
  }

  lemma SameTimeTheDayBefore(x: int)
    ensures (x - DAY) % DAY == x % DAY
  {
    assert x == (x / DAY) * DAY + x % DAY;
    SameQuotient(x - DAY, x / DAY - 1, x % DAY);
  }

  lemma HalfAnInterval(r: Rhythm, seconds: int)
    requires Uneven(r, seconds)
    ensures 0 <= Interval(r) - Interval(r) / 2 < Window(r) <= DAY
  {
    hide Interval;
    UnevenInterval(r, seconds);
    IntervalIsLong(r, seconds);
    MulMonotone(Interval(r), 2, r.budget);
    assert Interval(r) * r.budget == r.budget * Interval(r);
  }

  // ----- One step each -----

  function NthDelivery(n: nat, now: Instant): Delivery {
    Delivery(now, seq(n, _ => 'x'), Draw(0.0, 0), [Accepted], now, Both)
  }

  function PassAt(n: nat, now: Instant): Event {
    Pass("p", now, 0, NthDelivery(n, now))
  }

  /** n nudges sent, and the last of them and its reminder dated `at`, or nothing and no date. */
  ghost predicate SoFar(db: Db, r: Rhythm, n: nat, at: Option<int>) {
    && db.rhythms == map["p" := r]
    && LastSent(db.nudges, "p") == at
    && |db.nudges| == n
    && (forall i :: 0 <= i < n ==> |db.nudges[i].id| == i)
    && db.reminders == [Reminder("r", "p", 50, 0, None, at)]
  }

  lemma Sends(db: Db, r: Rhythm, n: nat, at: Option<int>, now: Instant)
    requires SoFar(db, r, n, at) && (at.Some? ==> at.value <= Unix(now))
    requires db.pending.Keys == {"p"} && db.pending["p"] <= Unix(now) && Awake(r, now)
    ensures SoFar(Step(db, PassAt(n, now)), r, n + 1, Some(Unix(now)))
    ensures Step(db, PassAt(n, now)).pending == map[] && SendsScheduled(db, PassAt(n, now), "p")
  {
    hide Step, SendsScheduled, AcceptedBy, Awake;
    OneAccepts();
    var d := NthDelivery(n, now);
    LonePass(db, "p", now, 0, d, db.reminders[0]);
    assert (db.nudges + [Nudge(d.id, "p", "r", Unix(now))])[..n] == db.nudges;
    assert Unschedule(db, "p").pending == map[];
  }

  /** A pass that finds the last send of today an interval ago, or longer, decides. */
  lemma Owed(db: Db, r: Rhythm, n: nat, at: int, now: Instant)
    requires SoFar(db, r, n, Some(at)) && db.pending == map[]
    requires r.budget > 0 && Awake(r, now) && FromUnix(at) >= Woke(r, now) && now >= FromUnix(at) + Interval(r)
    ensures Step(db, PassAt(n, now)) == db.(pending := map["p" := Unix(now)])
    ensures !SendsScheduled(db, PassAt(n, now), "p")
  {
    hide Awake, Woke, Interval;
    assert Decides(db, "p", now);
  }

  lemma DecidesNext(db: Db, r: Rhythm, seconds: int, w: Instant, n: nat)
    requires IsWaking(r, seconds, w) && 0 < n <= r.budget
    requires SoFar(db, r, n, Some(Dated(r, w, n - 1))) && db.pending == map[]
    ensures Step(db, PassAt(n, Deciding(r, w, n))) == db.(pending := map["p" := Dated(r, w, n)])
    ensures !SendsScheduled(db, PassAt(n, Deciding(r, w, n)), "p")
  {
    hide Interval, Window, Woke, Awake, Step, SendsScheduled, Deciding;
    Moments(r, seconds, w, n);
    InTheDay(r, seconds, w, Deciding(r, w, n));
    WakingIsWhole(r, seconds, w);
    IntervalIsLong(r, seconds);
    Owed(db, r, n, Dated(r, w, n - 1), Deciding(r, w, n));
  }

  lemma DecidesTheDayBefore(db: Db, r: Rhythm, seconds: int, w: Instant)
    requires IsWaking(r, seconds, w) && SoFar(db, r, 0, None) && db.pending == map[]
    ensures Step(db, PassAt(0, DayBefore(r, w))) == db.(pending := map["p" := Unix(DayBefore(r, w))])
    ensures !SendsScheduled(db, PassAt(0, DayBefore(r, w)), "p")
  {
    TheDayBefore(r, seconds, w);
    assert Decides(db, "p", DayBefore(r, w));
  }

  // ----- The run -----

  /** A run with one decision on the day before and n sends so far on the day that woke at w. */
  ghost predicate Day(s: seq<Db>, e: seq<Event>, r: Rhythm, w: Instant, n: nat) {
    && IsRun(s, e) && 0 < n && |e| == 2 * n
    && s[0].pending == map[] && "p" in s[1].pending && Woke(r, e[0].now) == w - DAY
    && SoFar(s[|e|], r, n, Some(Dated(r, w, n - 1))) && s[|e|].pending == map[]
    && SentOn(s, e, "p", r, w, |e|) == n
    && (forall i :: 0 <= i < |s| ==> s[i].rhythms == map["p" := r])
    && Passes(e, r)
    && (forall i :: 1 <= i < |e| ==> Woke(r, e[i].now) == w)
    && e[|e| - 1].now == Sending(r, w, n - 1)
  }

  /** Passes of one account, each later than the last, with delays the scheduler can draw, and a clock that
      stands still while one delivers. */
  ghost predicate Passes(e: seq<Event>, r: Rhythm) {
    && (forall i :: 0 <= i < |e| ==> IsPassOf(e[i], "p") && e[i].delivery.recordedAt == e[i].now && 0 <= e[i].delay <= Spread(r))
    && (forall i, j :: 0 <= i < j < |e| ==> e[i].now < e[j].now)
  }

  lemma {:induction false} SentOnPrefix(s: seq<Db>, e: seq<Event>, db: Db, step: Event, r: Rhythm, w: Instant, k: nat)
    requires |s| == |e| + 1 && k <= |e|
    ensures SentOn(s + [db], e + [step], "p", r, w, k) == SentOn(s, e, "p", r, w, k)
  {
    if k > 0 {
      SentOnPrefix(s, e, db, step, r, w, k - 1);
    }
  }

  /** One step more. */
  lemma Extended(s: seq<Db>, e: seq<Event>, step: Event, r: Rhythm, w: Instant) returns (s': seq<Db>, e': seq<Event>)
    requires IsRun(s, e) && Passes(e, r)
    requires IsPassOf(step, "p") && step.delivery.recordedAt == step.now && 0 <= step.delay <= Spread(r)
    requires |e| > 0 ==> e[|e| - 1].now < step.now
    ensures IsRun(s', e') && Passes(e', r)
    ensures s' == s + [Step(s[|e|], step)] && e' == e + [step]
    ensures SentOn(s', e', "p", r, w, |e'|) ==
            SentOn(s, e, "p", r, w, |e|) + if SendsOnDay(s[|e|], step, "p", r, w) then 1 else 0
  {
    hide Step, SendsOnDay, Spread;
    s', e' := s + [Step(s[|e|], step)], e + [step];
    SentOnPrefix(s, e, s'[|e'|], step, r, w, |e|);
    forall i | 0 <= i < |e'| ensures s'[i + 1] == Step(s'[i], e'[i]) {
      if i < |e| { assert s[i + 1] == Step(s[i], e[i]); }
    }
    forall i, j | 0 <= i < j < |e'| ensures e'[i].now < e'[j].now {
      if j == |e| && i < |e| - 1 { assert e[i].now < e[|e| - 1].now; }
    }
  }

  lemma SpreadIsSome(r: Rhythm, seconds: int)
    requires Uneven(r, seconds)
    ensures 0 <= Spread(r)
  {
  }

  lemma FirstOfDay(r: Rhythm, seconds: int, w: Instant) returns (s: seq<Db>, e: seq<Event>)
    requires IsWaking(r, seconds, w)
    ensures Day(s, e, r, w, 1)
  {
    hide Step, SendsScheduled, Woke, Awake, Interval;
    var start := Db(map["p" := r], [Reminder("r", "p", 50, 0, None, None)], map[], []);
    assert SoFar(start, r, 0, None);
    SpreadIsSome(r, seconds);
    TheDayBefore(r, seconds, w);
    DecidesTheDayBefore(start, r, seconds, w);
    s, e := Extended([start], [], PassAt(0, DayBefore(r, w)), r, w);
    UnixMonotone(DayBefore(r, w), w);
    WindowIsOpen(r, seconds);
    InTheDay(r, seconds, w, w);
    Sends(s[1], r, 0, None, w);
    s, e := Extended(s, e, PassAt(0, w), r, w);
  }

  lemma WindowIsOpen(r: Rhythm, seconds: int)
    requires Uneven(r, seconds)
    ensures Window(r) > 0
  {
  }

  lemma OneMoreInDay(s: seq<Db>, e: seq<Event>, r: Rhythm, seconds: int, w: Instant, n: nat) returns (s': seq<Db>, e': seq<Event>)
    requires IsWaking(r, seconds, w) && Day(s, e, r, w, n) && n <= r.budget
    ensures Day(s', e', r, w, n + 1)
  {
    hide Step, SendsScheduled, Woke, Awake, Interval, Window, Deciding, Dated;
    var last := s[|e|];
    SpreadIsSome(r, seconds);
    Moments(r, seconds, w, n);
    InTheDay(r, seconds, w, Deciding(r, w, n));
    InTheDay(r, seconds, w, Sending(r, w, n));
    DecidesNext(last, r, seconds, w, n);
    s', e' := Extended(s, e, PassAt(n, Deciding(r, w, n)), r, w);
    DatesGrow(r, seconds, w, n);
    Sends(s'[|e'|], r, n, Some(Dated(r, w, n - 1)), Sending(r, w, n));
    s', e' := Extended(s', e', PassAt(n, Sending(r, w, n)), r, w);
  }

  lemma DatesGrow(r: Rhythm, seconds: int, w: Instant, n: nat)
    requires Uneven(r, seconds) && n > 0
    ensures Dated(r, w, n - 1) <= Dated(r, w, n)
  {
    IntervalIsLong(r, seconds);
    MulMonotone(Unix(Interval(r)), n - 1, n);
  }

  /** Under every rhythm with a window, a fixed offset and an interval that is not whole seconds, on any day:
      decide on the day before, let the night pass with nobody looking, and the day holds one over its budget. */
  lemma OneOverIsReached(r: Rhythm, seconds: int, day: Instant) returns (s: seq<Db>, e: seq<Event>)
    requires Uneven(r, seconds)
    ensures var w := Woke(r, day);
            && DayInRun(s, e, "p", r, w) && Passes(e, r)
            && s[0].pending == map[] && |e| > 0 && Woke(r, e[0].now) == w - DAY
            && DayStarts(e, "p", r, w, 1) && "p" in s[1].pending
            && SentOn(s, e, "p", r, w, |e|) == r.budget + 1
  {
    hide Step, Woke, Awake, Interval;
    var w := Woke(r, day);
    FixedOffsetDays(r, seconds);
    WindowIsOpen(r, seconds);
    WindowInsideDay(r, seconds, day, w);
    s, e := FirstOfDay(r, seconds, w);
    var n := 1;
    while n <= r.budget
      invariant 1 <= n <= r.budget + 1 && Day(s, e, r, w, n)
    {
      s, e := OneMoreInDay(s, e, r, seconds, w, n);
      n := n + 1;
    }
  }
}
