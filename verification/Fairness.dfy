/** What the floor's filter and the weighted draw add up to for a scheduled nudge. */
module Fairness {
  import opened Clock
  import opened Picks
  import opened Tables
  import opened Rhythms
  import opened Runs
  import opened Floors

  /** The pool a scheduled draw is made from. */
  function ScheduledPool(db: Db, who: string, d: Delivery): seq<Candidate> {
    Pool(Candidates(db.reminders, who, d.at, true), LastReminder(db.nudges, who))
  }

  lemma PooledIsOffered(db: Db, who: string, d: Delivery, c: Candidate)
    requires c in ScheduledPool(db, who, d)
    ensures exists r :: r in db.reminders && Offered(r, who, d.at, true) && AsCandidate(r) == c
  {
    PoolMembers(Candidates(db.reminders, who, d.at, true), LastReminder(db.nudges, who), c);
    CandidatesAreOffered(db.reminders, who, d.at, true, c);
    var i :| 0 <= i < |db.reminders| && Offered(db.reminders[i], who, d.at, true) && AsCandidate(db.reminders[i]) == c;
    assert db.reminders[i] in db.reminders;
  }

  /** A reminder that states a floor and is offered to a scheduled draw has waited at least one of its own
      intervals, so however long everything else has been ignored it holds a quarter of its priority's share. */
  lemma StatedFloorIsNotStarved(db: Db, who: string, d: Delivery, i: nat)
    requires i < |ScheduledPool(db, who, d)| && ScheduledPool(db, who, d)[i].minInterval > 0
    ensures var pool := ScheduledPool(db, who, d);
            && Sum(Weights(pool, d.at)) > 0.0
            && Priorities(pool) > 0
            && Share(Weight(pool[i], d.at), Sum(Weights(pool, d.at)))
               >= Share(pool[i].priority as real, 4.0 * Priorities(pool) as real)
  {
    var c := ScheduledPool(db, who, d)[i];
    PooledIsOffered(db, who, d, c);
    var r :| r in db.reminders && Offered(r, who, d.at, true) && AsCandidate(r) == c;
    if r.lastNudged.Some? {
      DueTestsAgree(r.lastNudged.value + r.minInterval, d.at);
    }
    NoStarvation(Candidates(db.reminders, who, d.at, true), d.at, LastReminder(db.nudges, who), i);
  }

  /** A draw has nothing to weigh exactly when everything in its pool was nudged at this instant or after. */
  lemma WeightlessExactlyWhen(cs: seq<Candidate>, now: Instant, exclude: string)
    requires Pool(cs, exclude) != []
    ensures Sum(Weights(Pool(cs, exclude), now)) <= 0.0 <==>
            forall c :: c in Pool(cs, exclude) ==> c.lastNudged.Some? && c.lastNudged.value >= now
  {
    var pool := Pool(cs, exclude);
    forall c | c in pool ensures c.priority > 0 { PoolMembers(cs, exclude, c); }
    forall i | 0 <= i < |pool|
      ensures 0.0 <= Weight(pool[i], now) <= Sum(Weights(pool, now))
      ensures Weight(pool[i], now) > 0.0 <==> pool[i].lastNudged.None? || pool[i].lastNudged.value < now
    {
      assert pool[i] in pool;
      WeightBounds(pool[i], now);
      WeightWithinTotal(pool, now, i);
    }
    if forall i :: 0 <= i < |pool| ==> Weight(pool[i], now) <= 0.0 {
      WeightlessSum(pool, now);
    }
  }

  lemma {:induction false} WeightlessSum(cs: seq<Candidate>, now: Instant)
    requires forall i :: 0 <= i < |cs| ==> Weight(cs[i], now) <= 0.0
    ensures Sum(Weights(cs, now)) <= 0.0
  {
    if |cs| > 0 {
      WeightlessSum(cs[..|cs| - 1], now);
      assert Weights(cs, now)[..|cs| - 1] == Weights(cs[..|cs| - 1], now);
    }
  }

  /** And for a scheduled draw, exactly when nothing in its pool states a floor and all of it was stamped at the
      very instant of the draw, which is then a whole second. */
  lemma ScheduledWeightlessExactlyWhen(db: Db, who: string, d: Delivery)
    requires ScheduledPool(db, who, d) != []
    requires FloorsAreFloors(db)
    ensures Sum(Weights(ScheduledPool(db, who, d), d.at)) <= 0.0 <==>
            forall c :: c in ScheduledPool(db, who, d) ==> c.minInterval == 0 && c.lastNudged == Some(d.at)
  {
    WeightlessExactlyWhen(Candidates(db.reminders, who, d.at, true), d.at, LastReminder(db.nudges, who));
    forall c | c in ScheduledPool(db, who, d)
      ensures c.lastNudged.Some? && c.lastNudged.value >= d.at ==> c.minInterval == 0 && c.lastNudged.value == d.at
    {
      PooledIsOffered(db, who, d, c);
      var r :| r in db.reminders && Offered(r, who, d.at, true) && AsCandidate(r) == c;
      UnixRounds(d.at);
    }
  }

  /** No floor is below zero. */
  ghost predicate FloorsAreFloors(db: Db) {
    forall r :: r in db.reminders ==> r.minInterval >= 0
  }

  lemma {:induction false} FloorsStayFloors(s: seq<Db>, e: seq<Event>, k: nat)
    requires IsRun(s, e) && k < |s| && FloorsAreFloors(s[0])
    ensures FloorsAreFloors(s[k])
  {
    hide Step;
    if k > 0 {
      FloorsStayFloors(s, e, k - 1);
      FloorsStep(s[k - 1], e[k - 1]);
    }
  }

  lemma FloorsStep(db: Db, e: Event)
    requires FloorsAreFloors(db)
    ensures FloorsAreFloors(Step(db, e))
  {
    if Delivers(e) {
      DeliveryKeepsFloors(db, e);
    } else if e.Delete? {
      forall r | r in Step(db, e).reminders ensures r.minInterval >= 0 {
        RemainingRows(db.reminders, e.who, e.id, r);
      }
    }
  }

  lemma DeliveryKeepsFloors(db: Db, e: Event)
    requires FloorsAreFloors(db) && Delivers(e)
    ensures FloorsAreFloors(Step(db, e))
  {
    hide Step;
    if Logs(db, e) { LoggingStep(db, e); } else { QuietStep(db, e); }
  }

  /** That can happen to a scheduled draw and not only to one asked for by hand: decided on at ten past eleven,
      pressed for at noon and claimed at that same instant. */
  lemma ScheduledDrawCanBeWeightless() returns (s: seq<Db>, e: seq<Event>)
    ensures IsRun(s, e) && |e| == 3 && s[0].pending == map[] && s[0].nudges == []
    ensures e[1].Press? && SendsScheduled(s[2], e[2], "p")
    ensures ScheduledPool(s[2], "p", e[2].delivery) != []
    ensures Sum(Weights(ScheduledPool(s[2], "p", e[2].delivery), e[2].delivery.at)) == 0.0
  {
    hide Step, AcceptedBy, SendsScheduled, Logs, Raised, Fires, Weights, Sum, ScheduledPool;
    var decided, noon := 670 * MINUTE, 12 * HOUR;
    var r := Reminder("r", "p", 50, 0, None, None);
    var first := Delivery(noon, "n", Draw(0.0, 0), [Accepted], noon, Both);
    var second := first.(id := "nn");
    e := [Pass("p", decided, 0, first), Press("p", first), Pass("p", noon, 0, second)];
    var db := Db(map[], [r], map[], []);
    var db1 := db.(pending := map["p" := Unix(decided)]);
    DecidedInTheMorning(db, db1, decided, first);
    OneAccepts();
    LonePress(db1, "p", first, r);
    var db2 := Told(db1, first, "p", r);
    var stamped := r.(lastNudged := Some(Unix(noon)));
    AwakeAtNoon(db2, "p", noon);
    LonePass(db2, "p", noon, 0, second, stamped);
    LonePool(db2, second, stamped);
    s := [db, db1, db2, Step(db2, e[2])];
  }

  lemma DecidedInTheMorning(db: Db, after: Db, decided: Instant, d: Delivery)
    requires db.rhythms == map[] && db.pending == map[] && db.nudges == [] && decided == 670 * MINUTE
    requires after == db.(pending := map["p" := Unix(decided)])
    ensures Step(db, Pass("p", decided, 0, d)) == after
  {
    assert Interval(DEFAULT) == 260 * MINUTE;
    assert Decides(db, "p", decided);
  }

  /** One reminder that states no floor, stamped at the instant of the draw. */
  lemma LonePool(db: Db, d: Delivery, r: Reminder)
    requires db.reminders == [r] && Offered(r, "p", d.at, true) && r.minInterval == 0
    requires r.lastNudged.Some? && FromUnix(r.lastNudged.value) == d.at
    ensures ScheduledPool(db, "p", d) != []
    ensures Sum(Weights(ScheduledPool(db, "p", d), d.at)) == 0.0
  {
    var cs, last := Candidates(db.reminders, "p", d.at, true), LastReminder(db.nudges, "p");
    assert db.reminders[..0] == [];
    assert Candidates([], "p", d.at, true) == [];
    assert cs == [AsCandidate(r)];
    assert cs[0] in cs;
    PoolMembers(cs, last, AsCandidate(r));
    var pool := ScheduledPool(db, "p", d);
    forall c | c in pool ensures c == AsCandidate(r) && c.priority > 0 {
      PoolMembers(cs, last, c);
    }
    ScheduledWeightlessExactlyWhen(db, "p", d);
    TotalIsCapped(pool, d.at);
  }
}
