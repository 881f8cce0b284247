/** A reminder's own floor over whole runs, and what the order of the two writes makes of a crash. */
module Floors {
  import opened Clock
  import Rhythms
  import opened Picks
  import opened Tables
  import opened Runs

  predicate Delivers(e: Event) {
    e.Pass? || e.Press?
  }

  /** This step logged a nudge. */
  predicate Logs(db: Db, e: Event) {
    Delivers(e) && |Step(db, e).nudges| > |db.nudges|
  }

  /** The reminder it carried. */
  function Raised(db: Db, e: Event): string
    requires Logs(db, e)
  {
    Step(db, e).nudges[|db.nudges|].reminder
  }

  /** Both writes went through: the delivery is complete. */
  predicate Completes(db: Db, e: Event) {
    Logs(db, e) && e.delivery.writes.Both?
  }

  /** The clock read when recording never runs backwards, nor within one delivery. */
  ghost predicate RecordsInOrder(s: seq<Db>, e: seq<Event>)
    requires |s| == |e| + 1
  {
    && (forall i, j :: 0 <= i < j < |e| && Logs(s[i], e[i]) && Logs(s[j], e[j]) ==>
         e[i].delivery.recordedAt <= e[j].delivery.recordedAt)
    && (forall i :: 0 <= i < |e| && Logs(s[i], e[i]) ==> e[i].delivery.at <= e[i].delivery.recordedAt)
  }

  /** No reminder is created under this id in steps i..k. */
  ghost predicate NotRecreated(e: seq<Event>, id: string, i: nat, k: nat) {
    forall j :: i <= j < k && j < |e| ==> !(e[j].Create? && e[j].id == id)
  }

  /** Every row under this id was nudged at `sent` or later. */
  ghost predicate NudgedSince(rows: seq<Reminder>, id: string, sent: int) {
    forall x :: 0 <= x < |rows| && rows[x].id == id ==> rows[x].lastNudged.Some? && rows[x].lastNudged.value >= sent
  }

  /** What a logging step does: which row is logged, and that the stamp follows only if both writes went
      through. */
  lemma LoggingStep(db: Db, e: Event)
    requires Logs(db, e)
    ensures var before := if e.Pass? then Unschedule(db, e.who) else db;
            && Choice(before, e.who, e.Pass?, e.delivery).Some?
            && var id := Choice(before, e.who, e.Pass?, e.delivery).value.id;
            && Step(db, e).nudges == db.nudges + [Nudge(e.delivery.id, e.who, id, Unix(e.delivery.recordedAt))]
            && Raised(db, e) == id
            && Step(db, e).reminders ==
                 if e.delivery.writes.Both? then Stamped(db.reminders, id, Unix(e.delivery.recordedAt)) else db.reminders
  {
  }

  lemma QuietStep(db: Db, e: Event)
    requires Delivers(e) && !Logs(db, e)
    ensures Step(db, e).reminders == db.reminders && Step(db, e).nudges == db.nudges
  {
  }

  lemma {:induction false} RemainingRows(rows: seq<Reminder>, who: string, id: string, r: Reminder)
    ensures r in Remaining(rows, who, id) <==> r in rows && !Names(r, who, id)
  {
    if |rows| > 0 {
      RemainingRows(rows[..|rows| - 1], who, id, r);
      assert rows == rows[..|rows| - 1] + [rows[|rows| - 1]];
    }
  }

  /** No step but a new row under the same id makes a reminder forget when it was nudged. */
  lemma StampIsKept(db: Db, e: Event, id: string, sent: int)
    requires NudgedSince(db.reminders, id, sent)
    requires Logs(db, e) ==> Unix(e.delivery.recordedAt) >= sent
    requires !(e.Create? && e.id == id)
    ensures NudgedSince(Step(db, e).reminders, id, sent)
  {
    if Delivers(e) {
      if Logs(db, e) { LoggingStep(db, e); } else { QuietStep(db, e); }
    } else if e.Delete? {
      var left := Remaining(db.reminders, e.who, e.id);
      forall x | 0 <= x < |left| && left[x].id == id
        ensures left[x].lastNudged.Some? && left[x].lastNudged.value >= sent
      {
        RemainingRows(db.reminders, e.who, e.id, left[x]);
        assert left[x] in left;
      }
    }
  }

  lemma {:induction false} StampIsRemembered(s: seq<Db>, e: seq<Event>, id: string, i: nat, k: nat)
    requires IsRun(s, e) && RecordsInOrder(s, e) && i < k < |s|
    requires Completes(s[i], e[i]) && Raised(s[i], e[i]) == id && NotRecreated(e, id, i, k)
    ensures NudgedSince(s[k].reminders, id, Unix(e[i].delivery.recordedAt))
    decreases k
  {
    hide Step;
    if k == i + 1 {
      LoggingStep(s[i], e[i]);
    } else {
      StampIsRemembered(s, e, id, i, k - 1);
      if Logs(s[k - 1], e[k - 1]) {
        UnixMonotone(e[i].delivery.recordedAt, e[k - 1].delivery.recordedAt);
      }
      StampIsKept(s[k - 1], e[k - 1], id, Unix(e[i].delivery.recordedAt));
    }
  }

  /** A scheduled delivery of a reminder comes at least the floor it states by then after any completed
      delivery of it, scheduled or pressed for, by whichever of the two clock readings: through presses,
      edits, changed floors, endings and revivals, and with all of derived.db lost at any point between. */
  lemma FloorIsObeyed(s: seq<Db>, e: seq<Event>, i: nat, k: nat) returns (x: nat)
    requires IsRun(s, e) && RecordsInOrder(s, e) && i < k < |e|
    requires Completes(s[i], e[i]) && Logs(s[k], e[k]) && e[k].Pass?
    requires Raised(s[k], e[k]) == Raised(s[i], e[i]) && NotRecreated(e, Raised(s[i], e[i]), i, k)
    ensures x < |s[k].reminders| && Names(s[k].reminders[x], e[k].who, Raised(s[i], e[i]))
    ensures Unix(e[k].delivery.at) >= Unix(e[i].delivery.recordedAt) + s[k].reminders[x].minInterval
    ensures Unix(e[k].delivery.recordedAt) >= Unix(e[i].delivery.recordedAt) + s[k].reminders[x].minInterval
  {
    hide Step;
    StampIsRemembered(s, e, Raised(s[i], e[i]), i, k);
    x := RaisedIsThere(s[k], e[k]);
    UnixMonotone(e[k].delivery.at, e[k].delivery.recordedAt);
  }

  // ----- Keys -----

  ghost predicate UniqueIds(rows: seq<Reminder>) {
    forall x, y :: 0 <= x < y < |rows| ==> rows[x].id != rows[y].id
  }

  lemma {:induction false} RemainingStaysUnique(rows: seq<Reminder>, who: string, id: string)
    requires UniqueIds(rows)
    ensures UniqueIds(Remaining(rows, who, id))
  {
    if |rows| > 0 {
      var front, last := rows[..|rows| - 1], rows[|rows| - 1];
      RemainingStaysUnique(front, who, id);
      var left := Remaining(front, who, id);
      forall x | 0 <= x < |left| ensures left[x].id != last.id {
        RemainingRows(front, who, id, left[x]);
        assert left[x] in left;
      }
    }
  }

  /** The primary key holds at every state of every run, so "the floor it states" names one row. */
  lemma {:induction false} IdsStayUnique(s: seq<Db>, e: seq<Event>, k: nat)
    requires IsRun(s, e) && k < |s| && UniqueIds(s[0].reminders)
    ensures UniqueIds(s[k].reminders)
  {
    hide Step;
    if k > 0 {
      IdsStayUnique(s, e, k - 1);
      IdsStep(s[k - 1], e[k - 1]);
    }
  }

  lemma IdsStep(db: Db, e: Event)
    requires UniqueIds(db.reminders)
    ensures UniqueIds(Step(db, e).reminders)
  {
    if Delivers(e) {
      DeliveryKeepsIds(db, e);
    } else if e.Delete? {
      RemainingStaysUnique(db.reminders, e.who, e.id);
    }
  }

  lemma DeliveryKeepsIds(db: Db, e: Event)
    requires UniqueIds(db.reminders) && Delivers(e)
    ensures UniqueIds(Step(db, e).reminders)
  {
    hide Step;
    if Logs(db, e) { LoggingStep(db, e); } else { QuietStep(db, e); }
  }

  // ----- The order of the two writes -----

  /** However far recording gets, a stamp is never without its log row: the log is written first. */
  lemma NoStampWithoutLog(db: Db, n: Nudge, writes: Writes)
    ensures Record(db, n, writes).reminders != db.reminders ==> n in Record(db, n, writes).nudges
  {
  }

  /** The stamp of every row under this id. */
  ghost predicate StampIs(rows: seq<Reminder>, id: string, stamp: Option<int>) {
    forall x :: 0 <= x < |rows| && rows[x].id == id ==> rows[x].lastNudged == stamp
  }

  /** A nudge that is logged is remembered by its reminder if and only if both writes went through, or the
      reminder bore that second's stamp, or a later one, already. */
  lemma StampedExactlyWhen(db: Db, e: Event)
    requires Logs(db, e)
    ensures var id, at := Raised(db, e), Unix(e.delivery.recordedAt);
            && (NudgedSince(Step(db, e).reminders, id, at) <==>
                e.delivery.writes.Both? || NudgedSince(db.reminders, id, at))
            && ((forall x :: 0 <= x < |db.reminders| && db.reminders[x].id == id && db.reminders[x].lastNudged.Some? ==>
                   db.reminders[x].lastNudged.value < at) ==>
                (NudgedSince(Step(db, e).reminders, id, at) <==> e.delivery.writes.Both?))
  {
    hide Step, Choice;
    LoggingStep(db, e);
    var x := RaisedIsThere(db, e);
  }

  /** What a delivery carries is a row of the person's, and was offered. */
  lemma RaisedIsThere(db: Db, e: Event) returns (x: nat)
    requires Logs(db, e)
    ensures x < |db.reminders| && db.reminders[x].id == Raised(db, e)
    ensures Offered(db.reminders[x], e.who, e.delivery.at, e.Pass?)
    ensures MayCarry(db.reminders[x], AsCandidate(db.reminders[x]), e.who, e.delivery.at, e.Pass?)
  {
    hide Step;
    LoggingStep(db, e);
    var before, d := if e.Pass? then Unschedule(db, e.who) else db, e.delivery;
    var cs := Candidates(before.reminders, e.who, d.at, e.Pass?);
    AnswersWhenAnythingCan(cs, d.at, LastReminder(before.nudges, e.who), d.draw);
    var c := Choice(before, e.who, e.Pass?, d).value;
    CandidatesAreOffered(before.reminders, e.who, d.at, e.Pass?, c);
    x :| 0 <= x < |db.reminders| && Offered(db.reminders[x], e.who, d.at, e.Pass?) && AsCandidate(db.reminders[x]) == c;
  }

  /** Nothing but a completed delivery of a reminder, and a new row under its id, changes its stamp. */
  lemma StampIsUntouched(db: Db, e: Event, id: string, stamp: Option<int>)
    requires StampIs(db.reminders, id, stamp)
    requires !(Completes(db, e) && Raised(db, e) == id) && !(e.Create? && e.id == id)
    ensures StampIs(Step(db, e).reminders, id, stamp)
  {
    if Delivers(e) {
      DeliveryLeavesStamp(db, e, id, stamp);
    } else if e.Delete? {
      var left := Remaining(db.reminders, e.who, e.id);
      forall x | 0 <= x < |left| && left[x].id == id ensures left[x].lastNudged == stamp {
        RemainingRows(db.reminders, e.who, e.id, left[x]);
        assert left[x] in left;
      }
    }
  }

  lemma DeliveryLeavesStamp(db: Db, e: Event, id: string, stamp: Option<int>)
    requires StampIs(db.reminders, id, stamp) && Delivers(e)
    requires !(Completes(db, e) && Raised(db, e) == id)
    ensures StampIs(Step(db, e).reminders, id, stamp)
  {
    hide Step;
    if Logs(db, e) { LoggingStep(db, e); } else { QuietStep(db, e); }
  }

  /** No delivery of this reminder is completed in steps i..k. */
  ghost predicate NoneCompleted(s: seq<Db>, e: seq<Event>, id: string, i: nat, k: nat)
    requires |s| == |e| + 1
  {
    forall j :: i <= j < k && j < |e| ==> !(Completes(s[j], e[j]) && Raised(s[j], e[j]) == id)
  }

  lemma {:induction false} StampStands(s: seq<Db>, e: seq<Event>, id: string, stamp: Option<int>, i: nat, k: nat)
    requires IsRun(s, e) && i <= k < |s| && StampIs(s[i].reminders, id, stamp)
    requires NoneCompleted(s, e, id, i, k) && NotRecreated(e, id, i, k)
    ensures StampIs(s[k].reminders, id, stamp)
    decreases k
  {
    hide Step, Completes, Raised;
    if i < k {
      StampStands(s, e, id, stamp, i, k - 1);
      StampIsUntouched(s[k - 1], e[k - 1], id, stamp);
    }
  }

  /** So a crash between the two writes leaves a log row without its stamp, and the floor measured from whatever
      came before: until a delivery of it completes, a scheduled draw offers the live reminder if and only if
      its floor has passed since the stamp it bore before the nudge that was logged, if it bore one. */
  lemma OfferedAfterLogOnly(s: seq<Db>, e: seq<Event>, i: nat, k: nat, x: nat, stamp: Option<int>)
    requires IsRun(s, e) && i < k < |e| && Logs(s[i], e[i]) && e[i].delivery.writes.LogOnly? && Delivers(e[k])
    requires StampIs(s[i].reminders, Raised(s[i], e[i]), stamp)
    requires NoneCompleted(s, e, Raised(s[i], e[i]), i + 1, k) && NotRecreated(e, Raised(s[i], e[i]), i, k)
    requires x < |s[k].reminders| && Names(s[k].reminders[x], e[k].who, Raised(s[i], e[i]))
    requires s[k].reminders[x].doneAt.None? && s[k].reminders[x].priority > 0
    ensures var r, at := s[k].reminders[x], e[k].delivery.at;
            AsCandidate(r) in Candidates(s[k].reminders, e[k].who, at, true) <==>
            stamp.None? || stamp.value + r.minInterval <= Unix(at)
  {
    hide Step, Raised;
    var r, who, at := s[k].reminders[x], e[k].who, e[k].delivery.at;
    StampStands(s, e, Raised(s[i], e[i]), stamp, i, k);
    CandidatesAreOffered(s[k].reminders, who, at, true, AsCandidate(r));
  }

  /** As here: a reminder that may be raised once a day is raised twice in ten minutes. */
  lemma LogWithoutStampRepeats() returns (s: seq<Db>, e: seq<Event>)
    ensures IsRun(s, e) && RecordsInOrder(s, e) && |e| == 2
    ensures Logs(s[0], e[0]) && e[0].delivery.writes.LogOnly?
    ensures Completes(s[1], e[1]) && e[1].Pass? && Raised(s[1], e[1]) == Raised(s[0], e[0])
    ensures s[1].reminders[0].minInterval == 86400
    ensures Unix(e[1].delivery.at) == Unix(e[0].delivery.recordedAt) + 600
  {
    hide Step, Logs, Raised, Fires, AcceptedBy;
    var r := Reminder("r", "p", 50, 86400, None, None);
    var noon, later := 12 * HOUR, 12 * HOUR + 10 * MINUTE;
    var db := Db(map[], [r], map["p" := Unix(later)], []);
    var first := Delivery(noon, "n1", Draw(0.0, 0), [Accepted], noon, LogOnly);
    var second := Delivery(later, "n2", Draw(0.0, 0), [Accepted], later, Both);
    e := [Press("p", first), Pass("p", later, 0, second)];
    var db1 := db.(nudges := [Nudge("n1", "p", "r", Unix(noon))]);
    OneAccepts();
    LonePress(db, "p", first, r);
    AwakeAtNoon(db1, "p", later);
    LonePass(db1, "p", later, 0, second, r);
    s := [db, db1, Step(db1, e[1])];
  }

  lemma AwakeAtNoon(db: Db, who: string, now: Instant)
    requires 12 * HOUR <= now < 13 * HOUR && RhythmOf(db, who) == Rhythms.DEFAULT && Claimable(db, who, now)
    ensures Fires(db, who, now)
  {
  }

  lemma OneAccepts()
    ensures AcceptedBy([Accepted]) == 1
  {
    assert [Accepted][..0] == [];
  }

  /** One reminder on offer, one device taking it: the send is recorded, as far as recording gets. */
  lemma LoneSend(db: Db, who: string, floor: bool, d: Delivery)
    requires |db.reminders| == 1 && Offered(db.reminders[0], who, d.at, floor)
    requires AcceptedBy(d.results) > 0
    ensures Deliver(db, who, floor, d) == Record(db, Nudge(d.id, who, db.reminders[0].id, Unix(d.recordedAt)), d.writes)
  {
    LoneReminder(db, who, floor, d);
  }

  /** With one reminder that may be offered, that is the one chosen. */
  lemma LoneReminder(db: Db, who: string, floor: bool, d: Delivery)
    requires |db.reminders| == 1 && Offered(db.reminders[0], who, d.at, floor)
    ensures Choice(db, who, floor, d) == Some(AsCandidate(db.reminders[0]))
  {
    assert Candidates([], who, d.at, floor) == [];
    assert db.reminders[..0] == [];
    var cs := Candidates(db.reminders, who, d.at, floor);
    assert cs == [AsCandidate(db.reminders[0])];
    AnswersWhenAnythingCan(cs, d.at, LastReminder(db.nudges, who), d.draw);
    assert cs[0] in cs;
  }

  function Told(db: Db, d: Delivery, who: string, r: Reminder): Db {
    db.(nudges := db.nudges + [Nudge(d.id, who, r.id, Unix(d.recordedAt))],
        reminders := [if d.writes.Both? then r.(lastNudged := Some(Unix(d.recordedAt))) else r])
  }

  /** A press, with one reminder on offer, a device that takes it and an id that is new. */
  lemma LonePress(db: Db, who: string, d: Delivery, r: Reminder)
    requires db.reminders == [r] && Offered(r, who, d.at, false)
    requires AcceptedBy(d.results) > 0 && !d.writes.Neither? && !Logged(db.nudges, d.id)
    ensures Step(db, Press(who, d)) == Told(db, d, who, r)
    ensures Logs(db, Press(who, d)) && Raised(db, Press(who, d)) == r.id
  {
    LoneSend(db, who, false, d);
  }

  /** And a pass that fires. */
  lemma LonePass(db: Db, who: string, now: Instant, delay: Duration, d: Delivery, r: Reminder)
    requires Fires(db, who, now) && db.reminders == [r] && Offered(r, who, d.at, true)
    requires AcceptedBy(d.results) > 0 && !d.writes.Neither? && !Logged(db.nudges, d.id)
    ensures Step(db, Pass(who, now, delay, d)) == Told(Unschedule(db, who), d, who, r)
    ensures Logs(db, Pass(who, now, delay, d)) && Raised(db, Pass(who, now, delay, d)) == r.id
    ensures SendsScheduled(db, Pass(who, now, delay, d), who)
  {
    LoneSend(Unschedule(db, who), who, true, d);
  }
}
