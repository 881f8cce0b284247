/** Bedtime, and what is sent while it comes: a pass reads the clock once for everybody, and each delivery reads
    it again. */
module Bedtime {
  import opened Clock
  import opened Rhythms
  import opened Picks
  import opened Tables
  import opened Runs
  import opened Floors

  /** How long a claim has before its waking day is over. */
  function LeftToday(r: Rhythm, now: Instant): Duration {
    Woke(r, now) + Window(r) - now
  }

  /** On a regular day, what happens `later` after the claim of a scheduled nudge still happens in that waking
      day if and only if there was more than that left of it at the claim. */
  lemma SameDayExactlyWhen(db: Db, e: Event, who: string, later: Duration)
    requires SendsScheduled(db, e, who) && later >= 0
    requires RegularDay(RhythmOf(db, who), Woke(RhythmOf(db, who), e.now))
    ensures var r := RhythmOf(db, who);
            Awake(r, e.now + later) && Woke(r, e.now + later) == Woke(r, e.now) <==> later < LeftToday(r, e.now)
  {
    ScheduledSend(db, e, who);
  }

  /** Under a fixed offset, what is sent or recorded before the next waking finds the person awake if and only
      if it comes before the end of the window its claim came in. */
  lemma AwakeExactlyWhen(db: Db, e: Event, who: string, seconds: int, later: Duration)
    requires SendsScheduled(db, e, who) && later >= 0
    requires var r := RhythmOf(db, who);
             && Rhythms.Valid(r) && r.windowEnabled && r.zone == FixedOffset(seconds)
             && e.now + later < Woke(r, e.now) + DAY
    ensures Awake(RhythmOf(db, who), e.now + later) <==> later < LeftToday(RhythmOf(db, who), e.now)
  {
    var r, t := RhythmOf(db, who), e.now + later;
    FixedOffsetDays(r, seconds);
    SameDayExactlyWhen(db, e, who, later);
    if Woke(r, t) != Woke(r, e.now) {
      NextWaking(r, seconds, e.now, t);
      assert OrdinaryDay(r, Woke(r, t));
    }
  }

  /** One waking is a day after another, or more. */
  lemma NextWaking(r: Rhythm, seconds: int, a: Instant, b: Instant)
    requires r.zone == FixedOffset(seconds) && a <= b && Woke(r, a) != Woke(r, b)
    ensures Woke(r, b) >= Woke(r, a) + DAY
  {
    var x, y := a + seconds * SECOND, b + seconds * SECOND;
    assert x == (x / DAY) * DAY + x % DAY;
    assert y == (y / DAY) * DAY + y % DAY;
    assert x / DAY < y / DAY;
  }

  const FIRST_HOUR := Rhythm(FixedOffset(0), true, 0, 60, 1, false)

  lemma FirstHour(t: Instant)
    requires 0 <= t < DAY
    ensures Woke(FIRST_HOUR, t) == 0 && (Awake(FIRST_HOUR, t) <==> t < HOUR)
    ensures Interval(FIRST_HOUR) == HOUR
  {
    assert (t + 0 * SECOND) % DAY == t;
  }

  /** A nudge decided on and claimed by passes a tick apart, and sent a second after the claim, to somebody who
      is asleep by then. */
  lemma SentAfterBedtime() returns (s: seq<Db>, e: seq<Event>)
    ensures IsRun(s, e) && Serial(e, "p") && |e| == 2
    ensures IsPassOf(e[0], "p") && IsPassOf(e[1], "p") && e[1].now == e[0].now + TICK
    ensures SendsScheduled(s[1], e[1], "p") && RhythmOf(s[1], "p") == FIRST_HOUR
    ensures e[1].delivery.at == e[1].delivery.recordedAt == e[1].now + SECOND
    ensures !Awake(FIRST_HOUR, e[1].delivery.at)
  {
    var decided, claimed := HOUR - SECOND - TICK, HOUR - SECOND;
    var r := Reminder("r", "p", 50, 0, None, None);
    var db := Db(map["p" := FIRST_HOUR], [r], map[], []);
    var late := Delivery(HOUR, "n", Draw(0.0, 0), [Accepted], HOUR, Both);
    e := [Pass("p", decided, 0, late.(at := decided, recordedAt := decided)), Pass("p", claimed, 0, late)];
    var db1 := db.(pending := map["p" := Unix(decided)]);
    FirstHour(decided);
    FirstHour(claimed);
    FirstHour(HOUR);
    assert Step(db, e[0]) == db1 by {
      assert Decides(db, "p", decided);
    }
    OneAccepts();
    LonePass(db1, "p", claimed, 0, late, r);
    s := [db, db1, Step(db1, e[1])];
  }
}
