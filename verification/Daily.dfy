/** How many nudges one waking day holds at most. Nothing counts them: the bound comes out of the interval,
    the half of one the night is credited, and the rounding of every send down to a second. */
module Daily {
  import opened Clock
  import opened Rhythms
  import opened Tables
  import opened Runs
  import opened Spacing
  import opened Decisions

  /** A scheduled nudge whose claim falls in the day that woke at w. */
  predicate SendsOnDay(db: Db, e: Event, who: string, r: Rhythm, w: Instant) {
    SendsScheduled(db, e, who) && Woke(r, e.now) == w
  }

  /** How many of those the first k steps hold. */
  ghost function SentOn(s: seq<Db>, e: seq<Event>, who: string, r: Rhythm, w: Instant, k: nat): nat
    requires |s| == |e| + 1 && k <= |e|
  {
    if k == 0 then 0
    else SentOn(s, e, who, r, w, k - 1) + if SendsOnDay(s[k - 1], e[k - 1], who, r, w) then 1 else 0
  }

  /** State z stands at the start of the day that woke at w: passes before it belong to earlier days. */
  ghost predicate DayStarts(e: seq<Event>, who: string, r: Rhythm, w: Instant, z: nat) {
    && z <= |e|
    && forall j :: 0 <= j < |e| && IsPassOf(e[j], who) ==> (j < z <==> Woke(r, e[j].now) < w)
  }

  /** What the theorems below ask of a run: one rhythm with a window, passes in order, the log
      kept, and an ordinary day in a zone whose dates do not run backwards. */
  ghost predicate DayInRun(s: seq<Db>, e: seq<Event>, who: string, r: Rhythm, w: Instant) {
    && IsRun(s, e) && KeepsDerived(e) && Serial(e, who) && Steady(s, who, r)
    && Rhythms.Valid(r) && r.windowEnabled
    && OrdinaryDay(r, w) && DaysInOrder(r)
  }

  /** Seconds after waking before which the n-th send of a day cannot be dated. */
  function Earliest(r: Rhythm, carried: bool, n: nat): int
    requires n > 0
  {
    if n == 1 then First(r, carried) else Earliest(r, carried, n - 1) + Unix(Interval(r))
  }

  function First(r: Rhythm, carried: bool): int {
    if carried then 0 else Unix(Interval(r) - Interval(r) / 2)
  }

  lemma {:induction false} PreviousOnDay(s: seq<Db>, e: seq<Event>, who: string, r: Rhythm, w: Instant, k: nat) returns (i: nat)
    requires |s| == |e| + 1 && k <= |e| && SentOn(s, e, who, r, w, k) > 0
    ensures i < k && SendsOnDay(s[i], e[i], who, r, w)
    ensures SentOn(s, e, who, r, w, i) == SentOn(s, e, who, r, w, k) - 1
  {
    if SendsOnDay(s[k - 1], e[k - 1], who, r, w) {
      i := k - 1;
    } else {
      i := PreviousOnDay(s, e, who, r, w, k - 1);
    }
  }

  /** The step at which the next send of the day was decided is itself in the day, once something was sent in
      it or nothing was carried in. */
  lemma DecidedThatDay(e: seq<Event>, who: string, r: Rhythm, w: Instant, z: nat, m: nat, k: nat)
    requires Serial(e, who) && DaysInOrder(r) && DayStarts(e, who, r, w, z)
    requires z <= m < k < |e| && IsPassOf(e[m], who) && IsPassOf(e[k], who) && Woke(r, e[k].now) == w
    ensures Woke(r, e[m].now) == w
  {
  }

  /** The send at step k, when the day already holds n, comes no earlier than an interval after the earliest
      the n-th can be dated; the first no earlier than half an interval after waking unless it was carried in. */
  lemma {:induction false} NextSendWaits(s: seq<Db>, e: seq<Event>, who: string, r: Rhythm, w: Instant, z: nat, k: nat)
    requires DayInRun(s, e, who, r, w) && DayStarts(e, who, r, w, z)
    requires k < |e| && SendsOnDay(s[k], e[k], who, r, w)
    ensures var n, carried := SentOn(s, e, who, r, w, k), who in s[z].pending;
            && w <= e[k].now < w + Window(r)
            && (n > 0 ==> e[k].now >= FromUnix(Unix(w) + Earliest(r, carried, n)) + Interval(r))
            && Unix(e[k].delivery.recordedAt) >= Unix(w) + Earliest(r, carried, n + 1)
    decreases k
  {
    hide Step;
    var n, carried := SentOn(s, e, who, r, w, k), who in s[z].pending;
    var recorded := e[k].delivery.recordedAt;
    ScheduledSend(s[k], e[k], who);
    assert Awake(r, e[k].now);
    assert w == FromUnix(Unix(w));
    if n > 0 {
      var i := PreviousOnDay(s, e, who, r, w, k);
      NextSendWaits(s, e, who, r, w, z, i);
      EarliestNonNegative(r, carried, n);
      var _ := LaterSendWaits(s, e, who, r, w, z, i, k, Unix(w) + Earliest(r, carried, n));
    } else if !carried {
      FirstSendWaits(s, e, who, r, w, z, k);
    } else {
      UnixMonotone(w, recorded);
    }
  }

  /** Between two sends of a day lies the decision that led to the second, an interval after the first. */
  lemma LaterSendWaits(s: seq<Db>, e: seq<Event>, who: string, r: Rhythm, w: Instant, z: nat, i: nat, k: nat, sent: int)
    returns (m: nat)
    requires DayInRun(s, e, who, r, w) && DayStarts(e, who, r, w, z)
    requires i < k < |e| && SendsOnDay(s[i], e[i], who, r, w) && SendsOnDay(s[k], e[k], who, r, w)
    requires Unix(w) <= sent <= Unix(e[i].delivery.recordedAt)
    ensures i < m < k && IsPassOf(e[m], who) && FromUnix(sent) + Interval(r) <= e[m].now <= e[k].now
    ensures Unix(e[k].delivery.recordedAt) >= sent + Unix(Interval(r))
  {
    ScheduledSend(s[i], e[i], who);
    ScheduledSend(s[k], e[k], who);
    m := PendingOrigin(s, e, who, i + 1, k);
    DecidedThatDay(e, who, r, w, z, m, k);
    SendIsRemembered(s, e, who, i, m);
    DecisionWaits(s[m], who, e[m].now, sent);
    GapInSeconds(sent, Interval(r), e[m].now, e[k].delivery.recordedAt);
  }

  lemma FirstSendWaits(s: seq<Db>, e: seq<Event>, who: string, r: Rhythm, w: Instant, z: nat, k: nat)
    requires DayInRun(s, e, who, r, w) && DayStarts(e, who, r, w, z)
    requires k < |e| && SendsOnDay(s[k], e[k], who, r, w) && who !in s[z].pending
    ensures Unix(e[k].delivery.recordedAt) >= Unix(w) + Unix(Interval(r) - Interval(r) / 2)
  {
    ScheduledSend(s[k], e[k], who);
    var m := PendingOrigin(s, e, who, z, k);
    DecidedThatDay(e, who, r, w, z, m, k);
    GapInSeconds(Unix(w), Interval(r) - Interval(r) / 2, e[m].now, e[k].delivery.recordedAt);
  }

  lemma {:induction false} EarliestNonNegative(r: Rhythm, carried: bool, n: nat)
    requires n > 0
    ensures Earliest(r, carried, n) >= 0
  {
    if n > 1 {
      EarliestNonNegative(r, carried, n - 1);
    }
  }

  lemma {:induction false} EarliestIsLinear(r: Rhythm, carried: bool, n: nat)
    requires n > 0
    ensures Earliest(r, carried, n) == First(r, carried) + (n - 1) * Unix(Interval(r))
  {
    if n > 1 {
      EarliestIsLinear(r, carried, n - 1);
      assert (n - 1) * Unix(Interval(r)) == (n - 2) * Unix(Interval(r)) + Unix(Interval(r));
    }
  }

  /** How many a day can hold: the budget, and one more only when a nudge decided on earlier was still waiting at
      waking and the interval is not a whole number of seconds, or there is no budget at all. */
  function MostPerDay(r: Rhythm, carried: bool): int {
    r.budget + if carried && (r.budget == 0 || Interval(r) % SECOND != 0) then 1 else 0
  }

  /** Past that many, there is no room in the window for another. */
  lemma NoRoomForMore(r: Rhythm, carried: bool, n: nat)
    requires Rhythms.Valid(r) && r.budget > 0 && n > 0
    requires FromUnix(Earliest(r, carried, n)) + Interval(r) < Window(r)
    ensures n < MostPerDay(r, carried)
  {
    hide Interval;
    IntervalCoversWindow(r);
    UnixRounds(Interval(r));
    UnixRounds(Interval(r) - Interval(r) / 2);
    EarliestIsLinear(r, carried, n);
    if n >= MostPerDay(r, carried) {
      WindowIsFull(Interval(r), Unix(Interval(r)), r.budget, MostPerDay(r, carried), First(r, carried), n, Window(r));
    }
  }

  /** The same in plain numbers: n intervals of u seconds after `first`, for a budget of b, of which `most`
      are allowed. */
  lemma WindowIsFull(interval: Duration, u: int, b: int, most: int, first: int, n: int, window: Duration)
    requires 0 < b <= MAX_BUDGET && most <= n && 0 <= u && interval >= TICK
    requires interval - SECOND < u * SECOND <= interval && window < b * interval + b
    requires || (most == b && first * SECOND > interval - interval / 2 - SECOND)
             || (most == b + 1 && first == 0)
             || (most == b && first == 0 && interval == u * SECOND && window <= b * interval)
    ensures (first + (n - 1) * u) * SECOND + interval >= window
  {
    var m := most - 1;
    MulMonotone(u, m, n - 1);
    RoundedIntervals(interval, u, m);
    OneLess(interval, b);
    if most == b + 1 {
      assert m * interval == b * interval;
    } else {
      assert m * interval == (b - 1) * interval;
    }
  }

  lemma RoundedIntervals(interval: Duration, u: int, m: nat)
    requires interval - SECOND < u * SECOND <= interval
    ensures (m * u) * SECOND >= m * interval - m * SECOND
    ensures interval == u * SECOND ==> (m * u) * SECOND == m * interval
  {
    MulMonotone(m, interval - SECOND, u * SECOND);
    assert (m * u) * SECOND == m * (u * SECOND);
    assert m * (interval - SECOND) == m * interval - m * SECOND;
  }

  lemma OneLess(interval: Duration, b: int)
    ensures (b - 1) * interval == b * interval - interval
  {
  }

  /** Every run, every day: any pass times, delays, draws and failed sends, with presses in between. */
  lemma DayHoldsTheBudget(s: seq<Db>, e: seq<Event>, who: string, r: Rhythm, w: Instant, z: nat)
    requires DayInRun(s, e, who, r, w) && DayStarts(e, who, r, w, z)
    ensures SentOn(s, e, who, r, w, |e|) <= MostPerDay(r, who in s[z].pending)
  {
    hide Step;
    var total := SentOn(s, e, who, r, w, |e|);
    if r.budget == 0 {
      NoneButTheCarried(s, e, who, r, w, z);
    } else if total > 1 {
      var k := PreviousOnDay(s, e, who, r, w, |e|);
      NextSendWaits(s, e, who, r, w, z, k);
      assert FromUnix(Unix(w)) == w;
      NoRoomForMore(r, who in s[z].pending, total - 1);
    }
  }

  lemma NoneButTheCarried(s: seq<Db>, e: seq<Event>, who: string, r: Rhythm, w: Instant, z: nat)
    requires DayInRun(s, e, who, r, w) && DayStarts(e, who, r, w, z) && r.budget == 0
    ensures SentOn(s, e, who, r, w, |e|) <= if who in s[z].pending then 1 else 0
  {
    hide Step, Interval;
    if SentOn(s, e, who, r, w, |e|) > 0 {
      var k := PreviousOnDay(s, e, who, r, w, |e|);
      if who !in s[z].pending {
        BudgetOfNoneSendsNothing(s, e, who, r, z, k);
      }
      if SentOn(s, e, who, r, w, k) > 0 {
        var i := PreviousOnDay(s, e, who, r, w, k);
        ScheduledSend(s[i], e[i], who);
        BudgetOfNoneSendsNothing(s, e, who, r, i + 1, k);
      }
    }
  }

  /** A day of a run always starts somewhere. */
  lemma {:induction false} DayHasStart(e: seq<Event>, who: string, r: Rhythm, w: Instant) returns (z: nat)
    requires Serial(e, who) && DaysInOrder(r)
    ensures DayStarts(e, who, r, w, z)
  {
    if |e| == 0 {
      z := 0;
    } else {
      var last := |e| - 1;
      z := DayHasStart(e[..last], who, r, w);
      if IsPassOf(e[last], who) && Woke(r, e[last].now) < w {
        z := |e|;
      } else if IsPassOf(e[last], who) {
      } else {
        z := if z == last then |e| else z;
      }
    }
  }

  /** So a day never holds more than one over the budget. */
  lemma AtMostOneOver(s: seq<Db>, e: seq<Event>, who: string, r: Rhythm, w: Instant)
    requires DayInRun(s, e, who, r, w)
    ensures SentOn(s, e, who, r, w, |e|) <= r.budget + 1
  {
    var z := DayHasStart(e, who, r, w);
    DayHoldsTheBudget(s, e, who, r, w, z);
  }

  // ----- Passes that keep their distance -----

  /** No two passes of this account within a second: what the ticker does unless a pass was slow or the program
      has just been started again. */
  ghost predicate SecondApart(e: seq<Event>, who: string) {
    forall i, j :: 0 <= i < j < |e| && IsPassOf(e[i], who) && IsPassOf(e[j], who) ==> e[i].now + SECOND <= e[j].now
  }

  /** Seconds after waking before which the send after n others cannot be dated, when a claim comes a second
      after its decision. */
  function EarliestApart(r: Rhythm, n: nat): int {
    n * (Unix(Interval(r)) + 1)
  }

  lemma EarliestApartStep(r: Rhythm, n: nat)
    requires n > 0 && Interval(r) >= TICK
    ensures EarliestApart(r, n) == EarliestApart(r, n - 1) + Unix(Interval(r)) + 1
    ensures EarliestApart(r, n - 1) >= 0
  {
    hide Interval;
    var step := Unix(Interval(r)) + 1;
    MulMonotone(n - 1, 0, step);
    OneLess(step, n);
  }

  lemma NothingYet(r: Rhythm)
    ensures EarliestApart(r, 0) == 0
  {
  }

  lemma {:induction false} ApartSendWaits(s: seq<Db>, e: seq<Event>, who: string, r: Rhythm, w: Instant, z: nat, k: nat)
    requires DayInRun(s, e, who, r, w) && DayStarts(e, who, r, w, z) && SecondApart(e, who) && r.budget > 0
    requires k < |e| && SendsOnDay(s[k], e[k], who, r, w)
    ensures var n := SentOn(s, e, who, r, w, k);
            && w <= e[k].now < w + Window(r)
            && (n > 0 ==> e[k].now >= FromUnix(Unix(w) + EarliestApart(r, n - 1)) + Interval(r) + SECOND)
            && Unix(e[k].delivery.recordedAt) >= Unix(w) + EarliestApart(r, n)
    decreases k
  {
    hide Step, Interval, EarliestApart;
    var n := SentOn(s, e, who, r, w, k);
    SendIsToday(s, e, who, r, w, k);
    if n > 0 {
      var i := PreviousOnDay(s, e, who, r, w, k);
      ApartSendWaits(s, e, who, r, w, z, i);
      var sent := Unix(w) + EarliestApart(r, n - 1);
      IntervalCoversWindow(r);
      EarliestApartStep(r, n);
      var m := LaterSendWaits(s, e, who, r, w, z, i, k, sent);
      SecondLater(sent, Interval(r), e[m].now, e[k].now, e[k].delivery.recordedAt);
    } else {
      NothingYet(r);
    }
  }

  lemma SendIsToday(s: seq<Db>, e: seq<Event>, who: string, r: Rhythm, w: Instant, k: nat)
    requires DayInRun(s, e, who, r, w) && k < |e| && SendsOnDay(s[k], e[k], who, r, w)
    ensures w <= e[k].now < w + Window(r) && e[k].now <= e[k].delivery.recordedAt
    ensures Unix(w) <= Unix(e[k].delivery.recordedAt)
  {
    ScheduledSend(s[k], e[k], who);
    assert Awake(r, e[k].now);
    UnixMonotone(w, e[k].delivery.recordedAt);
  }

  lemma SecondLater(sent: int, interval: Duration, decided: Instant, claimed: Instant, recorded: Instant)
    requires FromUnix(sent) + interval <= decided && decided + SECOND <= claimed <= recorded
    ensures Unix(recorded) >= sent + Unix(interval) + 1
  {
    UnixAdds(sent, interval);
    UnixMonotone(FromUnix(sent) + interval + SECOND, recorded);
  }

  /** Then every day holds at most its budget, whatever was carried into it; where there is none, at most the one
      that was carried in. */
  lemma ApartDayHoldsTheBudget(s: seq<Db>, e: seq<Event>, who: string, r: Rhythm, w: Instant)
    requires DayInRun(s, e, who, r, w) && SecondApart(e, who)
    ensures SentOn(s, e, who, r, w, |e|) <= if r.budget > 0 then r.budget else 1
  {
    hide Step, Interval, Window, EarliestApart;
    var total := SentOn(s, e, who, r, w, |e|);
    var z := DayHasStart(e, who, r, w);
    if r.budget == 0 {
      NoneButTheCarried(s, e, who, r, w, z);
    } else if total > r.budget {
      var k := PreviousOnDay(s, e, who, r, w, |e|);
      ApartSendWaits(s, e, who, r, w, z, k);
      assert FromUnix(Unix(w)) == w;
      NoRoomApart(r, total - 1);
    }
  }

  lemma NoRoomApart(r: Rhythm, n: nat)
    requires Rhythms.Valid(r) && 0 < r.budget <= n
    ensures FromUnix(EarliestApart(r, n - 1)) + Interval(r) + SECOND >= Window(r)
  {
    hide Interval, Window;
    IntervalCoversWindow(r);
    UnixRounds(Interval(r));
    var i, u, b := Interval(r), Unix(Interval(r)), r.budget;
    MulMonotone(u + 1, b - 1, n - 1);
    MulMonotone(b - 1, i, (u + 1) * SECOND);
    assert ((b - 1) * (u + 1)) * SECOND == (b - 1) * ((u + 1) * SECOND);
    OneLess(i, b);
  }
}
