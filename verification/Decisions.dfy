/** What a pass and a press do, in the rows' own terms, and what follows for whole runs: bedtime drops a nudge for
    good, and a budget of none sends nothing. */
module Decisions {
  import opened Clock
  import opened Rhythms
  import opened Picks
  import opened Tables
  import opened Runs
  import opened Floors

  // ----- A row waits -----

  /** Its moment has not come: nothing moves it. */
  lemma WaitingIsLeftAlone(db: Db, who: string, now: Instant, delay: Duration, d: Delivery)
    requires who in db.pending && now < db.pending[who] * SECOND
    ensures Step(db, Pass(who, now, delay, d)) == db
  {
    DueTestsAgree(db.pending[who], now);
  }

  /** Its moment has come and the person is asleep: the row is gone and nothing else has changed. */
  lemma DueAsleepIsDropped(db: Db, who: string, now: Instant, delay: Duration, d: Delivery)
    requires who in db.pending && db.pending[who] * SECOND <= now && !Awake(RhythmOf(db, who), now)
    ensures Step(db, Pass(who, now, delay, d)) == db.(pending := db.pending - {who})
  {
    DueTestsAgree(db.pending[who], now);
  }

  /** Its moment has come and the person is awake: the row is gone and one delivery is made, floors counting. */
  lemma DueAwakeIsDelivered(db: Db, who: string, now: Instant, delay: Duration, d: Delivery)
    requires who in db.pending && db.pending[who] * SECOND <= now && Awake(RhythmOf(db, who), now)
    ensures Step(db, Pass(who, now, delay, d)) == Deliver(db.(pending := db.pending - {who}), who, true, d)
  {
    DueTestsAgree(db.pending[who], now);
  }

  /** Awake: between the hours when they apply, and always when they do not. */
  lemma AwakeMeans(r: Rhythm, t: Instant)
    ensures Awake(r, t) <==> !r.windowEnabled || (r.wakeMinute <= r.zone.minuteOf(t) && r.zone.minuteOf(t) < r.sleepMinute)
  {
  }

  // ----- No row waits -----

  /** The waking minutes of a day shared out among its budget, rounded down to nanoseconds, and five minutes at
      the least; and nothing where there is no budget. */
  lemma IntervalExactly(r: Rhythm)
    requires Rhythms.Valid(r)
    ensures r.budget == 0 ==> Interval(r) == 0 && Spread(r) == 0
    ensures r.budget > 0 ==>
            var minutes := if r.windowEnabled then r.sleepMinute - r.wakeMinute else 1440;
            && Interval(r) >= 300 * SECOND
            && (Interval(r) > 300 * SECOND ==>
                  r.budget * Interval(r) <= minutes * 60 * SECOND < r.budget * Interval(r) + r.budget)
            && (Interval(r) == 300 * SECOND ==> minutes * 60 * SECOND < r.budget * (300 * SECOND) + r.budget)
            && 10 * Spread(r) <= Interval(r) < 10 * Spread(r) + 10
  {
    if r.budget > 0 {
      var q := Window(r) / r.budget;
      QuotientBounds(Window(r), r.budget);
      if q <= TICK {
        MulMonotone(r.budget, q, TICK);
      }
    }
  }

  /** Whether one is owed: there is a budget and the person is awake; and an interval has gone by since the last
      send, or, when there was none since this day's waking, half of one since that, or, with neither a send
      nor a window, no time at all. */
  predicate Owed(r: Rhythm, last: Option<int>, now: Instant) {
    var waking := r.zone.midnight(now) + r.wakeMinute * MINUTE;
    var today := last.Some? && (r.windowEnabled ==> last.value * SECOND >= waking);
    && r.budget > 0
    && (r.windowEnabled ==> r.wakeMinute <= r.zone.minuteOf(now) && r.zone.minuteOf(now) < r.sleepMinute)
    && (today ==> now >= last.value * SECOND + Interval(r))
    && (!today && r.windowEnabled ==> now >= waking + Interval(r) - Interval(r) / 2)
  }

  /** Where no row waits, one is written exactly when a nudge is owed, for the delay after now, in whole seconds;
      and nothing else changes. */
  lemma DecidesExactlyWhen(db: Db, who: string, now: Instant, delay: Duration, d: Delivery)
    requires who !in db.pending
    ensures Step(db, Pass(who, now, delay, d)) ==
            if Owed(RhythmOf(db, who), LastSent(db.nudges, who), now)
            then db.(pending := db.pending[who := (now + delay) / SECOND]) else db
  {
  }

  // ----- A delivery -----

  /** Which of its three outcomes a delivery has: with nothing offered there is nothing to send; it is sent if
      something is and a device accepts; and otherwise nobody is told and nothing is recorded. */
  lemma OutcomeExactlyWhen(db: Db, who: string, floor: bool, d: Delivery)
    ensures var offered := exists i, c :: 0 <= i < |db.reminders| && MayCarry(db.reminders[i], c, who, d.at, floor);
            var accepted := exists i :: 0 <= i < |d.results| && d.results[i].Accepted?;
            && (DeliverOutcome(db, who, floor, d) == NothingToSend <==> !offered)
            && (DeliverOutcome(db, who, floor, d) == Sent <==> offered && accepted)
            && (!(offered && accepted) ==> Deliver(db, who, floor, d) == db)
  {
    var cs := Candidates(db.reminders, who, d.at, floor);
    AcceptedAreCounted(d.results);
    AnswersWhenAnythingCan(cs, d.at, LastReminder(db.nudges, who), d.draw);
    if c :| c in cs {
      CandidatesAreOffered(db.reminders, who, d.at, floor, c);
    }
    if i, c :| 0 <= i < |db.reminders| && MayCarry(db.reminders[i], c, who, d.at, floor) {
      CandidatesAreOffered(db.reminders, who, d.at, floor, c);
    }
  }

  /** What a delivery that is sent leaves, under an id that is new: one row more in the log, of the reminder
      chosen and dated when recording read the clock, and that reminder's stamp if both writes go through. */
  lemma SentIsRecorded(db: Db, who: string, floor: bool, d: Delivery)
    requires DeliverOutcome(db, who, floor, d) == Sent && !d.writes.Neither?
    requires forall i :: 0 <= i < |db.nudges| ==> db.nudges[i].id != d.id
    ensures var after := Deliver(db, who, floor, d);
            && |after.nudges| == |db.nudges| + 1 && after.nudges[..|db.nudges|] == db.nudges
            && var n := after.nudges[|db.nudges|];
            && n.id == d.id && n.owner == who && n.sentAt == d.recordedAt / SECOND
            && Choice(db, who, floor, d).Some? && n.reminder == Choice(db, who, floor, d).value.id
            && after.pending == db.pending && after.rhythms == db.rhythms && |after.reminders| == |db.reminders|
            && forall x :: 0 <= x < |db.reminders| ==>
                 after.reminders[x] ==
                   if d.writes.Both? && db.reminders[x].id == n.reminder
                   then db.reminders[x].(lastNudged := Some(d.recordedAt / SECOND)) else db.reminders[x]
  {
  }

  /** A pass considers each person once, in order, at the one instant: it is a run of steps. */
  lemma {:induction false} PassIsARun(db: Db, people: seq<string>, now: Instant, delays: seq<Duration>, ds: seq<Delivery>)
    returns (s: seq<Db>, e: seq<Event>)
    requires |people| == |delays| == |ds|
    ensures IsRun(s, e) && |e| == |people| && s[0] == db && s[|e|] == PassOver(db, people, now, delays, ds)
    ensures forall i :: 0 <= i < |e| ==> e[i] == Pass(people[i], now, delays[i], ds[i])
  {
    hide Consider;
    if |people| == 0 {
      s, e := [db], [];
    } else {
      var n := |people| - 1;
      s, e := PassIsARun(db, people[..n], now, delays[..n], ds[..n]);
      var last := Pass(people[n], now, delays[n], ds[n]);
      var s', e' := s + [Step(s[n], last)], e + [last];
      forall i | 0 <= i < |e'| ensures s'[i + 1] == Step(s'[i], e'[i]) {
        if i < n { assert s[i + 1] == Step(s[i], e[i]); }
      }
      s, e := s', e';
    }
  }

  // ----- Edits -----

  /** What an edit does to each row: nothing to one that is not the person's own under that id; to theirs it
      sets the floor unless below zero, or dates the ending if it has none, or takes the ending away. */
  lemma EditsExactly(db: Db, e: Event, x: nat)
    requires (e.SetFloor? || e.End? || e.Revive?) && x < |db.reminders|
    ensures |Step(db, e).reminders| == |db.reminders| && Step(db, e).(reminders := db.reminders) == db
    ensures var r, after := db.reminders[x], Step(db, e).reminders[x];
            && (r.id != e.id || r.owner != e.who ==> after == r)
            && (r.id == e.id && r.owner == e.who ==>
                  && (e.SetFloor? ==> after == r.(minInterval := if e.seconds >= 0 then e.seconds else r.minInterval))
                  && (e.End? ==> after == r.(doneAt := if r.doneAt.None? then Some(e.at / SECOND) else r.doneAt))
                  && (e.Revive? ==> after == r.(doneAt := None)))
  {
  }

  /** What the other events do besides: a new row unless its key is taken, the person's own row gone, the rhythm
      kept if it may be and the waiting row cleared with it, and all of derived.db lost. */
  lemma OthersExactly(db: Db, e: Event)
    ensures e.Create? ==>
              var taken := exists x :: 0 <= x < |db.reminders| && db.reminders[x].id == e.id;
              Step(db, e) == if taken then db else db.(reminders := db.reminders + [Reminder(e.id, e.who, 50, 0, None, None)])
    ensures e.Delete? ==>
              && Step(db, e).(reminders := db.reminders) == db
              && forall r :: r in Step(db, e).reminders <==> r in db.reminders && !(r.id == e.id && r.owner == e.who)
    ensures e.ChangeRhythm? ==>
              Step(db, e) ==
                if 0 <= e.rhythm.wakeMinute < e.rhythm.sleepMinute <= 1440 && 0 <= e.rhythm.budget <= 24
                then db.(rhythms := db.rhythms[e.who := e.rhythm], pending := if e.clears then db.pending - {e.who} else db.pending)
                else db
    ensures e.LoseDerived? ==> Step(db, e) == Db(db.rhythms, db.reminders, map[], [])
  {
    if e.Delete? {
      forall r ensures r in Step(db, e).reminders <==> r in db.reminders && !(r.id == e.id && r.owner == e.who) {
        RemainingRows(db.reminders, e.who, e.id, r);
      }
    }
  }

  // ----- Bedtime -----

  /** What a pass finds due while the person is asleep is never sent, at any later step: whatever is sent after
      was decided after. */
  lemma DroppedIsNeverSent(s: seq<Db>, e: seq<Event>, who: string, j: nat, k: nat) returns (m: nat)
    requires IsRun(s, e) && j < k < |e| && IsPassOf(e[j], who) && SendsScheduled(s[k], e[k], who)
    requires !Awake(RhythmOf(s[j], who), e[j].now)
    requires who in s[j].pending ==> s[j].pending[who] * SECOND <= e[j].now
    ensures j < m < k && IsPassOf(e[m], who)
    ensures who !in s[m].pending && who in s[m + 1].pending
    ensures forall i :: m < i <= k ==> who in s[i].pending && s[i].pending[who] == (e[m].now + e[m].delay) / SECOND
  {
    assert s[j + 1] == Step(s[j], e[j]);
    var p := e[j];
    if who in s[j].pending {
      DueAsleepIsDropped(s[j], who, p.now, p.delay, p.delivery);
    } else {
      DecidesExactlyWhen(s[j], who, p.now, p.delay, p.delivery);
    }
    ScheduledSend(s[k], e[k], who);
    m := PendingOrigin(s, e, who, j + 1, k);
    PendingStep(s[m], e[m], who);
  }

  // ----- A budget of none -----

  /** With a budget of none nothing is ever decided, whatever the hours, the log and the clock. */
  lemma {:induction false} NothingIsDecided(s: seq<Db>, e: seq<Event>, who: string, r: Rhythm, z: nat, k: nat)
    requires IsRun(s, e) && Steady(s, who, r) && r.budget == 0 && z <= k < |s| && who !in s[z].pending
    ensures who !in s[k].pending
    decreases k
  {
    hide Step;
    if z < k {
      NothingIsDecided(s, e, who, r, z, k - 1);
      assert s[k] == Step(s[k - 1], e[k - 1]);
      PendingStep(s[k - 1], e[k - 1], who);
      if IsPassOf(e[k - 1], who) {
        var p := e[k - 1];
        DecidesExactlyWhen(s[k - 1], who, p.now, p.delay, p.delivery);
      }
    }
  }

  /** And so nothing scheduled is sent, once nothing waits. */
  lemma BudgetOfNoneSendsNothing(s: seq<Db>, e: seq<Event>, who: string, r: Rhythm, z: nat, k: nat)
    requires IsRun(s, e) && Steady(s, who, r) && r.budget == 0 && z <= k < |e| && who !in s[z].pending
    ensures !SendsScheduled(s[k], e[k], who) && who !in s[k].pending && who !in s[k + 1].pending
  {
    hide Step;
    NothingIsDecided(s, e, who, r, z, k);
    NothingIsDecided(s, e, who, r, z, k + 1);
    if SendsScheduled(s[k], e[k], who) {
      ScheduledSend(s[k], e[k], who);
    }
  }

  // ----- Reminders that have ended -----

  /** Every row under this id has ended. */
  ghost predicate HasEnded(rows: seq<Reminder>, id: string) {
    forall x :: 0 <= x < |rows| && rows[x].id == id ==> rows[x].doneAt.Some?
  }

  lemma EndedStep(db: Db, e: Event, id: string)
    requires HasEnded(db.reminders, id) && !(e.Revive? && e.id == id) && !(e.Create? && e.id == id)
    ensures HasEnded(Step(db, e).reminders, id)
  {
    if Delivers(e) {
      EndedThroughDelivery(db, e, id);
    } else if e.Delete? {
      var left := Remaining(db.reminders, e.who, e.id);
      forall x | 0 <= x < |left| && left[x].id == id ensures left[x].doneAt.Some? {
        RemainingRows(db.reminders, e.who, e.id, left[x]);
        assert left[x] in left;
      }
    }
  }

  lemma EndedThroughDelivery(db: Db, e: Event, id: string)
    requires HasEnded(db.reminders, id) && Delivers(e)
    ensures HasEnded(Step(db, e).reminders, id)
  {
    hide Step;
    if Logs(db, e) { LoggingStep(db, e); } else { QuietStep(db, e); }
  }

  /** Nothing brings the reminder under this id back in steps i..k. */
  ghost predicate NotBroughtBack(e: seq<Event>, id: string, i: nat, k: nat) {
    forall j :: i <= j < k && j < |e| ==> !((e[j].Revive? || e[j].Create?) && e[j].id == id)
  }

  lemma {:induction false} EndedStays(s: seq<Db>, e: seq<Event>, id: string, i: nat, k: nat)
    requires IsRun(s, e) && i <= k < |s| && HasEnded(s[i].reminders, id) && NotBroughtBack(e, id, i, k)
    ensures HasEnded(s[k].reminders, id)
    decreases k
  {
    hide Step;
    if i < k {
      EndedStays(s, e, id, i, k - 1);
      EndedStep(s[k - 1], e[k - 1], id);
    }
  }

  /** A reminder its owner has ended is not raised again, by the scheduler or by hand, until it is brought back. */
  lemma EndedStaysQuiet(s: seq<Db>, e: seq<Event>, i: nat, k: nat)
    requires IsRun(s, e) && UniqueIds(s[0].reminders) && i < k < |e|
    requires e[i].End? && Keeps(s[i].reminders, e[i].who, e[i].id) && NotBroughtBack(e, e[i].id, i, k)
    ensures Logs(s[k], e[k]) ==> Raised(s[k], e[k]) != e[i].id
  {
    hide Step;
    IdsStayUnique(s, e, i);
    EndingEnds(s[i], e[i]);
    EndedStays(s, e, e[i].id, i + 1, k);
    if Logs(s[k], e[k]) {
      var x := RaisedIsThere(s[k], e[k]);
    }
  }

  lemma EndingEnds(db: Db, e: Event)
    requires e.End? && UniqueIds(db.reminders) && Keeps(db.reminders, e.who, e.id)
    ensures HasEnded(Step(db, e).reminders, e.id)
  {
    var y :| 0 <= y < |db.reminders| && Names(db.reminders[y], e.who, e.id);
    forall x | 0 <= x < |db.reminders| && x != y ensures db.reminders[x].id != e.id { }
  }

  /** Nobody is ever told of a reminder that is not their own. */
  lemma OnlyOnesOwn(db: Db, e: Event) returns (x: nat)
    requires Logs(db, e)
    ensures x < |db.reminders| && db.reminders[x].id == Raised(db, e) && db.reminders[x].owner == e.who
    ensures db.reminders[x].priority > 0 && db.reminders[x].doneAt.None?
  {
    x := RaisedIsThere(db, e);
  }
}
