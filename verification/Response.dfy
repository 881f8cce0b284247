/** How soon a nudge that is owed arrives, and so how many a day holds at least. */
module Response {
  import opened Clock
  import opened Rhythms
  import opened Picks
  import opened Tables
  import opened Runs
  import opened Spacing
  import opened Daily

  /** The account's last pass before step k; t0 is the one before the run. */
  function LastPass(e: seq<Event>, who: string, t0: Instant, k: nat): Instant
    requires k <= |e|
  {
    if k == 0 then t0
    else if IsPassOf(e[k - 1], who) then e[k - 1].now
    else LastPass(e, who, t0, k - 1)
  }

  /** Passes come in order and at most a tick apart. */
  ghost predicate Ticking(e: seq<Event>, who: string, t0: Instant) {
    forall k :: 0 <= k < |e| && IsPassOf(e[k], who) ==>
      LastPass(e, who, t0, k) <= e[k].now <= LastPass(e, who, t0, k) + TICK
  }

  predicate Touches(e: Event, who: string) {
    e.LoseDerived? || (e.Press? && e.who == who) || (e.ChangeRhythm? && e.who == who)
  }

  /** A pass that fires finds a reminder to offer and a device to take it, records it, and the clock stands
      still meanwhile. */
  ghost predicate Receptive(db: Db, e: Event, who: string) {
    IsPassOf(e, who) && Fires(db, who, e.now) ==>
      && Candidates(db.reminders, who, e.delivery.at, true) != []
      && AcceptedBy(e.delivery.results) > 0
      && !e.delivery.writes.Neither?
      && !Logged(db.nudges, e.delivery.id)
      && e.delivery.recordedAt == e.now
  }

  /** The stretch of a run these theorems are about: one account awake at every pass, no presses and no change
      of rhythm, delays within the spread, and everything sent accepted. */
  ghost predicate Attended(s: seq<Db>, e: seq<Event>, who: string, r: Rhythm, t0: Instant) {
    && IsRun(s, e) && Steady(s, who, r) && Ticking(e, who, t0)
    && Rhythms.Valid(r) && r.budget > 0
    && (forall k :: 0 <= k < |e| ==> !Touches(e[k], who))
    && (forall k :: 0 <= k < |e| ==> Receptive(s[k], e[k], who))
    && (forall k :: 0 <= k < |e| && IsPassOf(e[k], who) ==> Awake(r, e[k].now) && 0 <= e[k].delay <= Spread(r))
  }

  /** The wait of every pass in this stretch started no later than an interval before `ready`. */
  ghost predicate ReadyBy(e: seq<Event>, who: string, r: Rhythm, last: Option<Instant>, ready: Instant) {
    forall k :: 0 <= k < |e| && IsPassOf(e[k], who) ==>
      var since := Since(r, last, e[k].now);
      since.Some? ==> since.value + Interval(r) <= ready
  }

  // ----- One step -----

  lemma {:induction false} OthersLeaveLastSent(log: seq<Nudge>, n: Nudge, who: string)
    requires n.owner != who
    ensures LastSent(log + [n], who) == LastSent(log, who)
  {
    assert (log + [n])[..|log|] == log;
  }

  lemma {:induction false} AppendedIsLast(log: seq<Nudge>, n: Nudge, who: string)
    requires n.owner == who
    ensures LastSent(log + [n], who).Some? && LastSent(log + [n], who).value >= n.sentAt
    ensures LastSent(log, who).None? || LastSent(log, who).value <= n.sentAt ==> LastSent(log + [n], who).value == n.sentAt
  {
    assert (log + [n])[..|log|] == log;
  }

  /** What somebody else does leaves this account's row and its last send alone. */
  lemma OthersLeaveAlone(db: Db, e: Event, who: string)
    requires !IsPassOf(e, who) && !Touches(e, who)
    ensures who in Step(db, e).pending <==> who in db.pending
    ensures who in db.pending ==> Step(db, e).pending[who] == db.pending[who]
    ensures LastSent(Step(db, e).nudges, who) == LastSent(db.nudges, who)
    ensures !SendsScheduled(db, e, who)
  {
    if e.Press? {
      OthersDeliveryLeavesAlone(db, e.who, false, e.delivery, who);
    } else if e.Pass? {
      OthersDeliveryLeavesAlone(Unschedule(db, e.who), e.who, true, e.delivery, who);
    }
  }

  lemma OthersDeliveryLeavesAlone(db: Db, other: string, floor: bool, d: Delivery, who: string)
    requires other != who
    ensures Deliver(db, other, floor, d).pending == db.pending
    ensures LastSent(Deliver(db, other, floor, d).nudges, who) == LastSent(db.nudges, who)
  {
    hide Deliver, LastSent;
    DeliverLogs(db, other, floor, d);
    var after := Deliver(db, other, floor, d).nudges;
    if after != db.nudges {
      var reminder :| after == db.nudges + [Nudge(d.id, other, reminder, Unix(d.recordedAt))];
      OthersLeaveLastSent(db.nudges, Nudge(d.id, other, reminder, Unix(d.recordedAt)), who);
    }
  }

  /** When it fires and everything cooperates, it sends. */
  lemma FiringSends(db: Db, e: Event, who: string)
    requires IsPassOf(e, who) && Fires(db, who, e.now) && Receptive(db, e, who)
    ensures SendsScheduled(db, e, who)
  {
    var before, d := Unschedule(db, who), e.delivery;
    var cs := Candidates(db.reminders, who, d.at, true);
    CandidatesAreOffered(db.reminders, who, d.at, true, cs[0]);
    AnswersWhenAnythingCan(cs, d.at, LastReminder(db.nudges, who), d.draw);
    assert cs[0] in cs && cs[0].priority > 0;
    assert DeliverOutcome(before, who, true, d) == Sent;
  }

  // ----- Waiting -----

  /** Nothing has been sent yet, and the passes have not run past the moment by which something must be. */
  ghost predicate Waiting(s: seq<Db>, e: seq<Event>, who: string, r: Rhythm, t0: Instant, ready: Instant, k: nat)
    requires |s| == |e| + 1 && k <= |e|
  {
    && LastSent(s[k].nudges, who) == LastSent(s[0].nudges, who)
    && (who in s[k].pending ==> FromUnix(s[k].pending[who]) <= ready + TICK + Spread(r))
    && LastPass(e, who, t0, k) <= if who in s[k].pending then ready + TICK + Spread(r) else ready
  }

  lemma WaitingStep(s: seq<Db>, e: seq<Event>, who: string, r: Rhythm, t0: Instant, ready: Instant, k: nat)
    requires Attended(s, e, who, r, t0) && ReadyBy(e, who, r, LastNudgeAt(s[0], who), ready)
    requires k < |e| && Waiting(s, e, who, r, t0, ready, k) && !SendsScheduled(s[k], e[k], who)
    ensures Waiting(s, e, who, r, t0, ready, k + 1)
  {
    var db, step := s[k], e[k];
    assert s[k + 1] == Step(db, step);
    if IsPassOf(step, who) {
      if Fires(db, who, step.now) {
        FiringSends(db, step, who);
      } else if who in db.pending {
        DueTestsAgree(db.pending[who], step.now);
      } else if Decides(db, who, step.now) {
        UnixRounds(step.now + step.delay);
      }
    } else {
      OthersLeaveAlone(db, step, who);
    }
  }

  /** Either the account is still waiting at k, or j is the first step that sent. */
  lemma {:induction false} WaitOrSend(s: seq<Db>, e: seq<Event>, who: string, r: Rhythm, t0: Instant, ready: Instant, k: nat) returns (j: nat)
    requires Attended(s, e, who, r, t0) && ReadyBy(e, who, r, LastNudgeAt(s[0], who), ready)
    requires k <= |e| && Waiting(s, e, who, r, t0, ready, 0)
    ensures j <= k && Waiting(s, e, who, r, t0, ready, j)
    ensures j < k ==> SendsScheduled(s[j], e[j], who)
  {
    if k == 0 {
      j := 0;
    } else {
      j := WaitOrSend(s, e, who, r, t0, ready, k - 1);
      if j == k - 1 && !SendsScheduled(s[j], e[j], who) {
        WaitingStep(s, e, who, r, t0, ready, j);
        j := k;
      }
    }
  }

  /** The next nudge of somebody attended is sent no later than an interval after their wait began, a tenth
      of an interval and two ticks, whether or not a row waits already: the moment it falls due is `ready`. */
  lemma NextNudgeArrives(s: seq<Db>, e: seq<Event>, who: string, r: Rhythm, t0: Instant, ready: Instant) returns (j: nat)
    requires Attended(s, e, who, r, t0) && ReadyBy(e, who, r, LastNudgeAt(s[0], who), ready)
    requires Waiting(s, e, who, r, t0, ready, 0)
    requires LastPass(e, who, t0, |e|) > ready + TICK + Spread(r)
    ensures j < |e| && SendsScheduled(s[j], e[j], who)
    ensures e[j].now <= ready + Spread(r) + 2 * TICK
    ensures Waiting(s, e, who, r, t0, ready, j)
  {
    j := WaitOrSend(s, e, who, r, t0, ready, |e|);
  }

  // ----- A whole day -----

  /** The longest two nudges of one day are apart when nothing gets in their way. */
  function Pace(r: Rhythm): Duration {
    Interval(r) + Spread(r) + 2 * TICK
  }

  /** By when n nudges have been sent, the first falling due at `ready`. */
  function Deadline(r: Rhythm, ready: Instant, n: nat): Instant
    requires n > 0
    decreases n
  {
    if n == 1 then ready + TICK + Spread(r) else Deadline(r, ready + Pace(r), n - 1)
  }

  lemma {:induction false} DeadlineMonotone(r: Rhythm, a: Instant, b: Instant, n: nat)
    requires n > 0 && a <= b
    ensures Deadline(r, a, n) <= Deadline(r, b, n)
    decreases n
  {
    if n > 1 {
      DeadlineMonotone(r, a + Pace(r), b + Pace(r), n - 1);
    }
  }

  lemma {:induction false} DeadlineBounds(r: Rhythm, ready: Instant, n: nat)
    requires n > 0 && Rhythms.Valid(r) && r.budget > 0
    ensures Deadline(r, ready, n) >= ready + TICK + Spread(r)
    decreases n
  {
    IntervalCoversWindow(r);
    if n > 1 {
      DeadlineBounds(r, ready + Pace(r), n - 1);
    }
  }

  lemma {:induction false} LastPassOfSuffix(e: seq<Event>, who: string, t0: Instant, j: nat, k: nat)
    requires j < k <= |e| && IsPassOf(e[j], who)
    ensures LastPass(e[j + 1..], who, e[j].now, k - j - 1) == LastPass(e, who, t0, k)
    decreases k
  {
    if k > j + 1 {
      LastPassOfSuffix(e, who, t0, j, k - 1);
    }
  }

  lemma {:induction false} SentOnSuffix(s: seq<Db>, e: seq<Event>, who: string, r: Rhythm, w: Instant, j: nat, k: nat)
    requires |s| == |e| + 1 && j <= k <= |e|
    ensures SentOn(s, e, who, r, w, k) == SentOn(s, e, who, r, w, j) + SentOn(s[j..], e[j..], who, r, w, k - j)
    decreases k
  {
    if k > j {
      SentOnSuffix(s, e, who, r, w, j, k - 1);
    }
  }

  lemma AttendedSuffix(s: seq<Db>, e: seq<Event>, who: string, r: Rhythm, t0: Instant, j: nat)
    requires Attended(s, e, who, r, t0) && j < |e| && IsPassOf(e[j], who)
    ensures Attended(s[j + 1..], e[j + 1..], who, r, e[j].now)
  {
    var s', e' := s[j + 1..], e[j + 1..];
    forall k | 0 <= k < |e'| ensures s'[k + 1] == Step(s'[k], e'[k]) {
      assert s[j + 1 + k + 1] == Step(s[j + 1 + k], e[j + 1 + k]);
    }
    forall k | 0 <= k < |e'| && IsPassOf(e'[k], who)
      ensures LastPass(e', who, e[j].now, k) <= e'[k].now <= LastPass(e', who, e[j].now, k) + TICK
    {
      LastPassOfSuffix(e, who, t0, j, j + 1 + k);
      assert e'[k] == e[j + 1 + k];
    }
    forall k | 0 <= k < |e'| ensures !Touches(e'[k], who) && Receptive(s'[k], e'[k], who) {
      assert e'[k] == e[j + 1 + k] && s'[k] == s[j + 1 + k];
    }
  }

  /** Every pass of the stretch belongs to the day that woke at w. */
  ghost predicate WithinDay(e: seq<Event>, who: string, r: Rhythm, w: Instant) {
    forall k :: 0 <= k < |e| && IsPassOf(e[k], who) ==> Woke(r, e[k].now) == w
  }

  /** What the theorem below asks of the start of a stretch. */
  ghost predicate Begins(s: seq<Db>, e: seq<Event>, who: string, r: Rhythm, w: Instant, t0: Instant, ready: Instant) {
    && Attended(s, e, who, r, t0) && ReadyBy(e, who, r, LastNudgeAt(s[0], who), ready)
    && r.windowEnabled && OrdinaryDay(r, w) && WithinDay(e, who, r, w)
    && Waiting(s, e, who, r, t0, ready, 0)
    && (LastSent(s[0].nudges, who).Some? ==> FromUnix(LastSent(s[0].nudges, who).value) <= t0)
  }

  /** After a send the rest of the stretch begins again, due an interval later. */
  lemma BeginsAgain(s: seq<Db>, e: seq<Event>, who: string, r: Rhythm, w: Instant, t0: Instant, ready: Instant, j: nat)
    requires Begins(s, e, who, r, w, t0, ready)
    requires j < |e| && SendsScheduled(s[j], e[j], who) && Waiting(s, e, who, r, t0, ready, j)
    ensures Begins(s[j + 1..], e[j + 1..], who, r, w, e[j].now, e[j].now + Interval(r))
    ensures LastPass(e[j + 1..], who, e[j].now, |e| - j - 1) == LastPass(e, who, t0, |e|)
  {
    hide Step, Attended, ReadyBy, OrdinaryDay, WithinDay, LastPass, LastSent, SendsScheduled, Interval, Awake;
    SendIsInDay(s, e, who, r, w, t0, j);
    AttendedSuffix(s, e, who, r, t0, j);
    LastPassOfSuffix(e, who, t0, j, |e|);
    AfterSend(s, e, who, r, t0, ready, j);
    ReadyAgain(e[j + 1..], who, r, w, e[j].now);
    NothingWaitsAfter(s, e, who, r, t0, ready, j);
    UnixRounds(e[j].now);
    assert |s| == |e| + 1 by { StretchIsProper(s, e, who, r, w, t0, ready); }
    assert s[j + 1..][0] == s[j + 1];
  }

  lemma SendIsInDay(s: seq<Db>, e: seq<Event>, who: string, r: Rhythm, w: Instant, t0: Instant, j: nat)
    requires Attended(s, e, who, r, t0) && OrdinaryDay(r, w) && WithinDay(e, who, r, w)
    requires j < |e| && SendsScheduled(s[j], e[j], who)
    ensures IsPassOf(e[j], who) && w <= e[j].now && w % SECOND == 0
    ensures WithinDay(e[j + 1..], who, r, w)
  {
    assert Awake(r, e[j].now);
  }

  lemma NothingWaitsAfter(s: seq<Db>, e: seq<Event>, who: string, r: Rhythm, t0: Instant, ready: Instant, j: nat)
    requires Attended(s, e, who, r, t0) && j < |e| && IsPassOf(e[j], who) && who !in s[j + 1].pending
    ensures Waiting(s[j + 1..], e[j + 1..], who, r, e[j].now, e[j].now + Interval(r), 0)
  {
    hide Step;
    IntervalCoversWindow(r);
  }

  /** As long as the passes go on past the n-th deadline, a day holds at least n. */
  lemma {:induction false} DayHoldsAtLeast(s: seq<Db>, e: seq<Event>, who: string, r: Rhythm, w: Instant, t0: Instant, ready: Instant, n: nat)
    requires Begins(s, e, who, r, w, t0, ready) && n > 0
    requires LastPass(e, who, t0, |e|) > Deadline(r, ready, n)
    ensures SentOn(s, e, who, r, w, |e|) >= n
    decreases n
  {
    hide Step, Attended, ReadyBy, OrdinaryDay, Interval, Spread;
    StretchIsProper(s, e, who, r, w, t0, ready);
    DeadlineBounds(r, ready, n);
    var j := NextNudgeArrives(s, e, who, r, t0, ready);
    SentOnSuffix(s, e, who, r, w, j + 1, |e|);
    if n > 1 {
      var now := e[j].now;
      BeginsAgain(s, e, who, r, w, t0, ready, j);
      DeadlineMonotone(r, now + Interval(r), ready + Pace(r), n - 1);
      DayHoldsAtLeast(s[j + 1..], e[j + 1..], who, r, w, now, now + Interval(r), n - 1);
    }
  }

  lemma StretchIsProper(s: seq<Db>, e: seq<Event>, who: string, r: Rhythm, w: Instant, t0: Instant, ready: Instant)
    requires Begins(s, e, who, r, w, t0, ready)
    ensures Rhythms.Valid(r) && r.budget > 0 && |s| == |e| + 1
  {
  }

  lemma AfterSend(s: seq<Db>, e: seq<Event>, who: string, r: Rhythm, t0: Instant, ready: Instant, j: nat)
    requires Attended(s, e, who, r, t0) && j < |e| && SendsScheduled(s[j], e[j], who)
    requires Waiting(s, e, who, r, t0, ready, j)
    requires LastSent(s[0].nudges, who).Some? ==> FromUnix(LastSent(s[0].nudges, who).value) <= t0
    ensures who !in s[j + 1].pending
    ensures LastSent(s[j + 1].nudges, who) == Some(Unix(e[j].now))
  {
    var now := e[j].now;
    ScheduledSend(s[j], e[j], who);
    var reminder :| Step(s[j], e[j]).nudges == s[j].nudges + [Nudge(e[j].delivery.id, who, reminder, Unix(e[j].delivery.recordedAt))];
    if LastSent(s[0].nudges, who).Some? {
      FirstPassFollows(e, who, t0, j);
      DueTestsAgree(LastSent(s[0].nudges, who).value, now);
    }
    AppendedIsLast(s[j].nudges, Nudge(e[j].delivery.id, who, reminder, Unix(now)), who);
  }

  lemma {:induction false} FirstPassFollows(e: seq<Event>, who: string, t0: Instant, k: nat)
    requires Ticking(e, who, t0) && k <= |e|
    ensures LastPass(e, who, t0, k) >= t0
  {
    if k > 0 {
      FirstPassFollows(e, who, t0, k - 1);
    }
  }

  lemma ReadyAgain(e: seq<Event>, who: string, r: Rhythm, w: Instant, now: Instant)
    requires r.windowEnabled && WithinDay(e, who, r, w) && w % SECOND == 0 && w <= now
    ensures ReadyBy(e, who, r, Some(FromUnix(Unix(now))), now + Interval(r))
  {
    UnixMonotone(w, now);
    UnixRounds(now);
  }

  /** Under the rhythm nobody has changed, three a day from nine to ten in the evening, a day that is
      attended from waking until 21:33, with nothing sent since before waking, holds exactly three; also when
      a row was waiting at waking, unless its moment is later than a first nudge could be. */
  lemma DefaultDayHoldsThree(s: seq<Db>, e: seq<Event>, who: string, w: Instant, t0: Instant)
    requires Attended(s, e, who, DEFAULT, t0) && Serial(e, who) && WithinDay(e, who, DEFAULT, w)
    requires w == Woke(DEFAULT, w) && t0 <= w
    requires who in s[0].pending ==> FromUnix(s[0].pending[who]) <= w + 161 * MINUTE
    requires LastSent(s[0].nudges, who).Some? ==> FromUnix(LastSent(s[0].nudges, who).value) < w && FromUnix(LastSent(s[0].nudges, who).value) <= t0
    requires LastPass(e, who, t0, |e|) > w + 753 * MINUTE
    ensures SentOn(s, e, who, DEFAULT, w, |e|) == 3
  {
    DefaultTimes(w);
    FixedOffsetDays(DEFAULT, 0);
    var ready := w + 130 * MINUTE;
    DayHoldsAtLeast(s, e, who, DEFAULT, w, t0, ready, 3);
    DayHoldsTheBudget(s, e, who, DEFAULT, w, 0);
  }

  lemma DefaultTimes(w: Instant)
    ensures Interval(DEFAULT) == 260 * MINUTE
    ensures Deadline(DEFAULT, w + 130 * MINUTE, 3) == w + 753 * MINUTE
  {
    var ready := w + 130 * MINUTE;
    assert Interval(DEFAULT) == 260 * MINUTE;
    assert Deadline(DEFAULT, ready + 2 * Pace(DEFAULT), 1) == w + 753 * MINUTE;
    assert Deadline(DEFAULT, ready + Pace(DEFAULT), 2) == w + 753 * MINUTE;
  }
}
