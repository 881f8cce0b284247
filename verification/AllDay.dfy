/** Somebody who has switched the window off: no waking, no night, and so a count for any day and night. */
module AllDay {
  import opened Clock
  import opened Rhythms
  import opened Tables
  import opened Runs
  import opened Spacing
  import opened Daily
  import opened Decisions

  /** In seconds. */
  const DAY_AND_NIGHT := 24 * 3600

  /** A scheduled nudge dated within a day and a night from `from`. */
  predicate SendsFrom(db: Db, e: Event, who: string, from: int) {
    SendsScheduled(db, e, who) && from <= Unix(e.delivery.recordedAt) < from + DAY_AND_NIGHT
  }

  /** How many of those the first k steps hold. */
  ghost function SentFrom(s: seq<Db>, e: seq<Event>, who: string, from: int, k: nat): nat
    requires |s| == |e| + 1 && k <= |e|
  {
    if k == 0 then 0
    else SentFrom(s, e, who, from, k - 1) + if SendsFrom(s[k - 1], e[k - 1], who, from) then 1 else 0
  }

  lemma {:induction false} PreviousFrom(s: seq<Db>, e: seq<Event>, who: string, from: int, k: nat) returns (i: nat)
    requires |s| == |e| + 1 && k <= |e| && SentFrom(s, e, who, from, k) > 0
    ensures i < k && SendsFrom(s[i], e[i], who, from)
    ensures SentFrom(s, e, who, from, i) == SentFrom(s, e, who, from, k) - 1
  {
    if SendsFrom(s[k - 1], e[k - 1], who, from) {
      i := k - 1;
    } else {
      i := PreviousFrom(s, e, who, from, k - 1);
    }
  }

  ghost predicate RunAllDay(s: seq<Db>, e: seq<Event>, who: string, r: Rhythm) {
    && IsRun(s, e) && KeepsDerived(e) && Serial(e, who) && Steady(s, who, r)
    && Rhythms.Valid(r) && !r.windowEnabled
  }

  /** Seconds from the first of n + 1 sends to the last, at the least. */
  function LastAfter(r: Rhythm, n: nat): int {
    n * Unix(Interval(r))
  }

  lemma LastAfterStep(r: Rhythm, n: nat)
    requires n > 0
    ensures LastAfter(r, n) == LastAfter(r, n - 1) + Unix(Interval(r))
  {
    hide Interval;
    OneLess(Unix(Interval(r)), n);
  }

  lemma {:induction false} SendWaits(s: seq<Db>, e: seq<Event>, who: string, r: Rhythm, from: int, k: nat)
    requires RunAllDay(s, e, who, r) && k < |e| && SendsFrom(s[k], e[k], who, from)
    ensures Unix(e[k].delivery.recordedAt) >= from + LastAfter(r, SentFrom(s, e, who, from, k))
    decreases k
  {
    hide Step, Interval;
    var n := SentFrom(s, e, who, from, k);
    if n > 0 {
      var i := PreviousFrom(s, e, who, from, k);
      SendWaits(s, e, who, r, from, i);
      var _ := NudgesAreSpaced(s, e, who, r, i, k);
      LastAfterStep(r, n);
    }
  }

  /** The most a day and a night hold: the budget; one more when it does not divide them into whole seconds; and
      with no budget the one row that was waiting, if one was. */
  function MostAllDay(budget: nat, waiting: bool): int {
    if budget == 0 then (if waiting then 1 else 0)
    else budget + if DAY_AND_NIGHT % budget != 0 then 1 else 0
  }

  /** Without a window, in any zone and from any second on, that is the most. */
  lemma AnyDayHoldsTheBudget(s: seq<Db>, e: seq<Event>, who: string, r: Rhythm, from: int)
    requires RunAllDay(s, e, who, r)
    ensures SentFrom(s, e, who, from, |e|) <= MostAllDay(r.budget, who in s[0].pending)
  {
    hide Step, Interval, LastAfter;
    var total := SentFrom(s, e, who, from, |e|);
    if total > 0 {
      var k := PreviousFrom(s, e, who, from, |e|);
      if r.budget > 0 {
        SendWaits(s, e, who, r, from, k);
        DayIsFull(r, total);
      } else {
        if who !in s[0].pending {
          BudgetOfNoneSendsNothing(s, e, who, r, 0, k);
        }
        if SentFrom(s, e, who, from, k) > 0 {
          var i := PreviousFrom(s, e, who, from, k);
          ScheduledSend(s[i], e[i], who);
          BudgetOfNoneSendsNothing(s, e, who, r, i + 1, k);
        }
      }
    }
  }

  /** More sends than that do not fit. */
  lemma DayIsFull(r: Rhythm, total: nat)
    requires Rhythms.Valid(r) && !r.windowEnabled && r.budget > 0 && total > 0
    requires LastAfter(r, total - 1) < DAY_AND_NIGHT
    ensures total <= r.budget + if DAY_AND_NIGHT % r.budget != 0 then 1 else 0
  {
    hide Interval;
    var u := Unix(Interval(r));
    WholeDayInterval(r);
    var most := r.budget + if DAY_AND_NIGHT % r.budget != 0 then 1 else 0;
    if total > most {
      MulMonotone(u, most, total - 1);
    }
  }

  /** The interval in whole seconds goes into a day as often as the budget says, or once more when something is
      left over. */
  lemma WholeDayInterval(r: Rhythm)
    requires Rhythms.Valid(r) && !r.windowEnabled && r.budget > 0
    ensures var u, b := Unix(Interval(r)), r.budget;
            && u >= 3600
            && (DAY_AND_NIGHT % b == 0 ==> u * b >= DAY_AND_NIGHT)
            && u * (b + 1) >= DAY_AND_NIGHT
  {
    var b := r.budget;
    var u := Unix(Interval(r));
    assert Interval(r) == DAY / b by { DayShared(b); }
    DayShared(b);
    QuotientBounds(DAY_AND_NIGHT, b);
    assert b * u == u * b && u * (b + 1) == u * b + u;
  }

  /** Rounding down twice is rounding down once. */
  lemma DayShared(b: int)
    requires 0 < b <= MAX_BUDGET
    ensures DAY / b > TICK && Unix(DAY / b) == DAY_AND_NIGHT / b >= 3600
  {
    var q := DAY / b;
    var u := Unix(q);
    QuotientBounds(DAY, b);
    UnixRounds(q);
    WholeSecondsShared(b, q, u);
    Quotient(DAY_AND_NIGHT, b, u);
    AnHourOrMore(b, u);
  }

  lemma AnHourOrMore(b: int, u: int)
    requires 0 < b <= MAX_BUDGET && DAY_AND_NIGHT < b * u + b
    ensures u >= 3600
  {
    assert b * (u + 1) == b * u + b;
    SmallerFactor(b, 0, u + 1);
    MulMonotone(u + 1, b, MAX_BUDGET);
  }

  lemma WholeSecondsShared(b: int, q: int, u: int)
    requires 0 < b <= MAX_BUDGET && b * q <= DAY < b * q + b && u * SECOND <= q < u * SECOND + SECOND
    ensures b * u <= DAY_AND_NIGHT < b * u + b
  {
    MulMonotone(b, u * SECOND, q);
    assert b * (u * SECOND) == (b * u) * SECOND;
    MulMonotone(b, q + 1, (u + 1) * SECOND);
    assert b * (q + 1) == b * q + b;
    assert b * ((u + 1) * SECOND) == (b * u + b) * SECOND;
  }

  lemma Quotient(n: int, b: int, u: int)
    requires 0 < b && b * u <= n < b * u + b
    ensures n / b == u
  {
    QuotientBounds(n, b);
    var v := n / b;
    assert b * (u + 1) == b * u + b && b * (v + 1) == b * v + b;
    SmallerFactor(b, v, u + 1);
    SmallerFactor(b, u, v + 1);
  }
}
