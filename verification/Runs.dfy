/** Whole runs: any sequence of passes, button presses, edits and losses, from any starting rows. */
module Runs {
  import opened Clock
  import opened Rhythms
  import opened Picks
  import opened Tables

  datatype Event =
    | Pass(who: string, now: Instant, delay: Duration, delivery: Delivery)
    | Press(who: string, delivery: Delivery)
    | ChangeRhythm(who: string, rhythm: Rhythm, clears: bool)
    | Create(who: string, id: string)
    | SetFloor(who: string, id: string, seconds: int)
    | End(who: string, id: string, at: Instant)
    | Revive(who: string, id: string)
    | Delete(who: string, id: string)
    | LoseDerived

  predicate Names(r: Reminder, who: string, id: string) {
    r.id == id && r.owner == who
  }

  function Edited(db: Db, e: Event): seq<Reminder>
    requires e.SetFloor? || e.End? || e.Revive?
  {
    seq(|db.reminders|, i requires 0 <= i < |db.reminders| =>
      var r := db.reminders[i];
      if !Names(r, e.who, e.id) then r
      else match e
        case SetFloor(_, _, seconds) => if seconds < 0 then r else r.(minInterval := seconds)
        case End(_, _, at) => if r.doneAt.Some? then r else r.(doneAt := Some(Unix(at)))
        case Revive(_, _) => r.(doneAt := None))
  }

  function Remaining(rows: seq<Reminder>, who: string, id: string): seq<Reminder> {
    if |rows| == 0 then []
    else
      var rest, r := Remaining(rows[..|rows| - 1], who, id), rows[|rows| - 1];
      if Names(r, who, id) then rest else rest + [r]
  }

  predicate Keeps(rows: seq<Reminder>, who: string, id: string) {
    exists i :: 0 <= i < |rows| && Names(rows[i], who, id)
  }

  predicate Taken(rows: seq<Reminder>, id: string) {
    exists i :: 0 <= i < |rows| && rows[i].id == id
  }

  function Step(db: Db, e: Event): Db {
    match e
    case Pass(who, now, delay, d) => Consider(db, who, now, delay, d)
    case Press(who, d) => Deliver(db, who, false, d)
    case ChangeRhythm(who, r, clears) =>
      if Rhythms.Valid(r) && clears then Unschedule(SetRhythm(db, who, r), who) else SetRhythm(db, who, r)
    case Create(who, id) =>
      if Taken(db.reminders, id) then db
      else db.(reminders := db.reminders + [Reminder(id, who, 50, 0, None, None)])
    case Delete(who, id) => db.(reminders := Remaining(db.reminders, who, id))
    case LoseDerived => db.(pending := map[], nudges := [])
    case _ => db.(reminders := Edited(db, e))
  }

  ghost predicate IsRun(s: seq<Db>, e: seq<Event>) {
    && |s| == |e| + 1
    && forall i :: 0 <= i < |e| ==> s[i + 1] == Step(s[i], e[i])
  }

  /** derived.db is kept throughout. */
  ghost predicate KeepsDerived(e: seq<Event>) {
    forall i :: 0 <= i < |e| ==> !e[i].LoseDerived?
  }

  predicate IsPassOf(e: Event, who: string) {
    e.Pass? && e.who == who
  }

  /** One scheduler at a time: an account's passes read the clock in order, and record no earlier than they
      looked. Nothing is asked of presses, which run beside it. */
  ghost predicate Serial(e: seq<Event>, who: string) {
    && (forall i, j :: 0 <= i < j < |e| && IsPassOf(e[i], who) && IsPassOf(e[j], who) ==> e[i].now <= e[j].now)
    && (forall i :: 0 <= i < |e| && IsPassOf(e[i], who) ==> e[i].now <= e[i].delivery.recordedAt)
  }

  /** One rhythm for one account, from the first row to the last. */
  ghost predicate Steady(s: seq<Db>, who: string, r: Rhythm) {
    forall i :: 0 <= i < |s| ==> RhythmOf(s[i], who) == r
  }

  /** This step is a pass that sends this account a nudge and logs it. */
  predicate SendsScheduled(db: Db, e: Event, who: string) {
    IsPassOf(e, who) && |Step(db, e).nudges| > |db.nudges|
  }

  // ----- What one step does to the pending row and the log -----

  lemma DeliverLogs(db: Db, who: string, floor: bool, d: Delivery)
    ensures var after := Deliver(db, who, floor, d);
            && after.pending == db.pending
            && after.rhythms == db.rhythms
            && (after.nudges == db.nudges ||
                exists reminder :: after.nudges == db.nudges + [Nudge(d.id, who, reminder, Unix(d.recordedAt))])
  {
    if Deliver(db, who, floor, d).nudges != db.nudges {
      var n := Nudge(d.id, who, Choice(db, who, floor, d).value.id, Unix(d.recordedAt));
      assert Deliver(db, who, floor, d).nudges == db.nudges + [n];
    }
  }

  /** A scheduled send claims the waiting row, in a pass whose reading of the clock finds the person awake, and
      logs exactly one row, dated when recording read the clock. */
  lemma ScheduledSend(db: Db, e: Event, who: string)
    requires SendsScheduled(db, e, who)
    ensures Fires(db, who, e.now) && who in db.pending && who !in Step(db, e).pending
    ensures exists reminder :: Step(db, e).nudges == db.nudges + [Nudge(e.delivery.id, who, reminder, Unix(e.delivery.recordedAt))]
  {
    DeliverLogs(Unschedule(db, who), who, true, e.delivery);
  }

  /** Rows enter the pending table only when a pass decides, and no step moves one that stands. */
  lemma PendingStep(db: Db, e: Event, who: string)
    ensures who in Step(db, e).pending && who in db.pending ==> Step(db, e).pending[who] == db.pending[who]
    ensures who in Step(db, e).pending && who !in db.pending ==>
              && IsPassOf(e, who)
              && Decides(db, who, e.now)
              && Step(db, e) == Schedule(db, who, e.now + e.delay)
  {
    if e.Press? { DeliverLogs(db, e.who, false, e.delivery); }
    if e.Pass? { DeliverLogs(Unschedule(db, e.who), e.who, true, e.delivery); }
  }

  lemma LogGrows(db: Db, e: Event)
    requires !e.LoseDerived?
    ensures db.nudges <= Step(db, e).nudges
  {
    if e.Press? { DeliverLogs(db, e.who, false, e.delivery); }
    if e.Pass? { DeliverLogs(Unschedule(db, e.who), e.who, true, e.delivery); }
  }

  lemma {:induction false} LogGrowsOver(s: seq<Db>, e: seq<Event>, i: nat, k: nat)
    requires IsRun(s, e) && KeepsDerived(e) && i <= k < |s|
    ensures s[i].nudges <= s[k].nudges
    decreases k
  {
    hide Step;
    if i < k {
      LogGrowsOver(s, e, i, k - 1);
      LogGrows(s[k - 1], e[k - 1]);
    }
  }

  /** The last send of an account is no earlier than any send in its log. */
  lemma {:induction false} LastSentBounds(log: seq<Nudge>, who: string, i: nat)
    requires i < |log| && log[i].owner == who
    ensures LastSent(log, who).Some? && LastSent(log, who).value >= log[i].sentAt
  {
    if i < |log| - 1 {
      LastSentBounds(log[..|log| - 1], who, i);
    }
  }

  /** A nudge sent at step i still bounds the last send from below at any later state. */
  lemma SendIsRemembered(s: seq<Db>, e: seq<Event>, who: string, i: nat, k: nat)
    requires IsRun(s, e) && KeepsDerived(e) && i < k < |s| && SendsScheduled(s[i], e[i], who)
    ensures LastSent(s[k].nudges, who).Some?
    ensures LastSent(s[k].nudges, who).value >= Unix(e[i].delivery.recordedAt)
  {
    ScheduledSend(s[i], e[i], who);
    LogGrowsOver(s, e, i + 1, k);
    LastSentBounds(s[k].nudges, who, |s[i].nudges|);
  }

  /** A row that waits at k and did not at z was put there by one decision in between, and has waited ever
      since. */
  lemma {:induction false} PendingOrigin(s: seq<Db>, e: seq<Event>, who: string, z: nat, k: nat) returns (m: nat)
    requires IsRun(s, e) && z <= k < |s| && who !in s[z].pending && who in s[k].pending
    ensures z <= m < k && IsPassOf(e[m], who) && Decides(s[m], who, e[m].now)
    ensures forall j :: m < j <= k ==> who in s[j].pending && s[j].pending[who] == Unix(e[m].now + e[m].delay)
    decreases k
  {
    PendingStep(s[k - 1], e[k - 1], who);
    if who in s[k - 1].pending {
      m := PendingOrigin(s, e, who, z, k - 1);
    } else {
      m := k - 1;
    }
  }

  /** Valid rhythms stay valid: nothing else is ever stored. */
  lemma {:induction false} RhythmsStayValid(s: seq<Db>, e: seq<Event>, k: nat, who: string)
    requires IsRun(s, e) && k < |s|
    requires Rhythms.Valid(RhythmOf(s[0], who))
    ensures Rhythms.Valid(RhythmOf(s[k], who))
  {
    hide Step, Rhythms.Valid, RhythmOf;
    if k > 0 {
      RhythmsStayValid(s, e, k - 1, who);
      RhythmStep(s[k - 1], e[k - 1], who);
    }
  }

  lemma RhythmStep(db: Db, e: Event, who: string)
    requires Rhythms.Valid(RhythmOf(db, who))
    ensures Rhythms.Valid(RhythmOf(Step(db, e), who))
  {
    hide Rhythms.Valid;
    if e.Press? { DeliverLogs(db, e.who, false, e.delivery); }
    if e.Pass? { DeliverLogs(Unschedule(db, e.who), e.who, true, e.delivery); }
  }
}
