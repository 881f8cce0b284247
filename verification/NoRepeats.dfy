/** The same reminder never arrives twice running, over whole runs. */
module NoRepeats {
  import opened Clock
  import opened Picks
  import opened Tables
  import opened Ids
  import opened Orders
  import opened Numerals
  import opened Runs
  import opened Floors

  predicate LogsFor(db: Db, e: Event, who: string) {
    Logs(db, e) && e.who == who
  }

  /** The clock as each step's nudge id was minted, and the random bytes it got. */
  datatype Mint = Mint(at: Instant, random: seq<int>)

  /** This account's recorded nudges carry ids minted in strictly increasing milliseconds, and are recorded
      in order: deliveries one at a time, no two within a millisecond. */
  ghost predicate MintedInOrder(s: seq<Db>, e: seq<Event>, who: string, mints: seq<Mint>)
    requires |s| == |e| + 1
  {
    && |mints| == |e|
    && (forall k :: 0 <= k < |e| && LogsFor(s[k], e[k], who) ==>
         && |mints[k].random| == 10 && InBase(mints[k].random, Byte)
         && 0 <= Millis(mints[k].at) < 0x1_0000_0000_0000
         && e[k].delivery.id == IdAt(NUDGE, mints[k].at, mints[k].random))
    && (forall i, k :: 0 <= i < k < |e| && LogsFor(s[i], e[i], who) && LogsFor(s[k], e[k], who) ==>
         Millis(mints[i].at) < Millis(mints[k].at) && e[i].delivery.recordedAt <= e[k].delivery.recordedAt)
  }

  /** Every row of this account's log was written by one of the first k steps. */
  ghost predicate FromSteps(s: seq<Db>, e: seq<Event>, who: string, k: nat)
    requires |s| == |e| + 1 && k <= |e|
  {
    forall n :: n in s[k].nudges && n.owner == who ==>
      exists i :: 0 <= i < k && LogsFor(s[i], e[i], who) && n.id == e[i].delivery.id && n.sentAt == Unix(e[i].delivery.recordedAt)
  }

  lemma {:induction false} LogComesFromSteps(s: seq<Db>, e: seq<Event>, who: string, k: nat)
    requires IsRun(s, e) && s[0].nudges == [] && k <= |e|
    ensures FromSteps(s, e, who, k)
  {
    if k > 0 {
      LogComesFromSteps(s, e, who, k - 1);
      StepLog(s[k - 1], e[k - 1]);
      forall n | n in s[k].nudges && n.owner == who
        ensures exists i :: 0 <= i < k && LogsFor(s[i], e[i], who) && n.id == e[i].delivery.id && n.sentAt == Unix(e[i].delivery.recordedAt)
      {
        if n in s[k - 1].nudges {
          var i :| 0 <= i < k - 1 && LogsFor(s[i], e[i], who) && n.id == e[i].delivery.id && n.sentAt == Unix(e[i].delivery.recordedAt);
        } else {
          assert LogsFor(s[k - 1], e[k - 1], who);
        }
      }
    }
  }

  /** A step keeps the log, empties it, or adds the one row it sent. */
  lemma StepLog(db: Db, e: Event)
    ensures Logs(db, e) ==> Step(db, e).nudges == db.nudges + [Nudge(e.delivery.id, e.who, Raised(db, e), Unix(e.delivery.recordedAt))]
    ensures !Logs(db, e) ==> Step(db, e).nudges == if e.LoseDerived? then [] else db.nudges
  {
    if Delivers(e) {
      if Logs(db, e) { LoggingStep(db, e); } else { QuietStep(db, e); }
    }
  }

  lemma {:induction false} LatestIsLogged(log: seq<Nudge>, who: string)
    ensures Latest(log, who).Some? ==> Latest(log, who).value in log && Latest(log, who).value.owner == who
  {
    if |log| > 0 {
      LatestIsLogged(log[..|log| - 1], who);
      assert log == log[..|log| - 1] + [log[|log| - 1]];
    }
  }

  /** The row an account's delivery adds sorts after everything in its log. */
  lemma NewRowIsLatest(s: seq<Db>, e: seq<Event>, who: string, mints: seq<Mint>, k: nat)
    requires IsRun(s, e) && s[0].nudges == [] && MintedInOrder(s, e, who, mints)
    requires k < |e| && LogsFor(s[k], e[k], who)
    ensures Latest(s[k + 1].nudges, who) == Some(Nudge(e[k].delivery.id, who, Raised(s[k], e[k]), Unix(e[k].delivery.recordedAt)))
  {
    StepLog(s[k], e[k]);
    var n := Nudge(e[k].delivery.id, who, Raised(s[k], e[k]), Unix(e[k].delivery.recordedAt));
    assert (s[k].nudges + [n])[..|s[k].nudges|] == s[k].nudges;
    var rest := Latest(s[k].nudges, who);
    if rest.Some? {
      LatestIsLogged(s[k].nudges, who);
      LogComesFromSteps(s, e, who, k);
      var i :| 0 <= i < k && LogsFor(s[i], e[i], who) && rest.value.id == e[i].delivery.id && rest.value.sentAt == Unix(e[i].delivery.recordedAt);
      IdsSortByTime(NUDGE, mints[i].at, mints[i].random, mints[k].at, mints[k].random);
      UnixMonotone(e[i].delivery.recordedAt, e[k].delivery.recordedAt);
    }
  }

  lemma {:induction false} OthersLeaveLatest(log: seq<Nudge>, n: Nudge, who: string)
    requires n.owner != who
    ensures Latest(log + [n], who) == Latest(log, who)
  {
    assert (log + [n])[..|log|] == log;
  }

  /** Between two of an account's deliveries nothing changes which row is its latest. */
  lemma {:induction false} LatestIsKept(s: seq<Db>, e: seq<Event>, who: string, i: nat, k: nat)
    requires IsRun(s, e) && KeepsDerived(e) && i <= k < |s|
    requires forall j :: i <= j < k ==> !LogsFor(s[j], e[j], who)
    ensures Latest(s[k].nudges, who) == Latest(s[i].nudges, who)
    decreases k
  {
    hide Step, Latest;
    if i < k {
      LatestIsKept(s, e, who, i, k - 1);
      StepLog(s[k - 1], e[k - 1]);
      if Logs(s[k - 1], e[k - 1]) {
        var step := e[k - 1];
        OthersLeaveLatest(s[k - 1].nudges, Nudge(step.delivery.id, step.who, Raised(s[k - 1], step), Unix(step.delivery.recordedAt)), who);
      }
    }
  }

  /** Two consecutive recorded nudges of an account carry the same reminder only when the later draw had
      nothing else to offer: scheduled or pressed for, whatever was drawn and whoever failed in between. */
  lemma NoRepeatWhileThereIsAnother(s: seq<Db>, e: seq<Event>, who: string, mints: seq<Mint>, i: nat, k: nat)
    requires IsRun(s, e) && s[0].nudges == [] && KeepsDerived(e) && MintedInOrder(s, e, who, mints)
    requires i < k < |e| && LogsFor(s[i], e[i], who) && LogsFor(s[k], e[k], who)
    requires forall j :: i < j < k ==> !LogsFor(s[j], e[j], who)
    requires Raised(s[i], e[i]) != ""
    ensures Raised(s[k], e[k]) == Raised(s[i], e[i]) <==>
            forall c :: c in Candidates(s[k].reminders, who, e[k].delivery.at, e[k].Pass?) ==> c.id == Raised(s[i], e[i])
  {
    NewRowIsLatest(s, e, who, mints, i);
    LatestIsKept(s, e, who, i + 1, k);
    LoggingStep(s[k], e[k]);
    var d := e[k].delivery;
    var cs := Candidates(s[k].reminders, who, d.at, e[k].Pass?);
    RepeatsOnlyWhenAlone(cs, d.at, Raised(s[i], e[i]), d.draw);
    forall c | c in cs ensures c.priority > 0 {
      CandidatesAreOffered(s[k].reminders, who, d.at, e[k].Pass?, c);
    }
  }

  /** One reminder and nothing else to say: pressed for twice, it comes twice running. */
  lemma LoneReminderComesBack() returns (s: seq<Db>, e: seq<Event>, mints: seq<Mint>)
    ensures IsRun(s, e) && s[0].nudges == [] && KeepsDerived(e) && MintedInOrder(s, e, "p", mints) && |e| == 2
    ensures LogsFor(s[0], e[0], "p") && LogsFor(s[1], e[1], "p")
    ensures Raised(s[0], e[0]) == Raised(s[1], e[1]) != ""
  {
    hide Step, IdAt, Below, Logs, Raised, AcceptedBy;
    var zeros := seq(10, _ => 0);
    mints := [Mint(0, zeros), Mint(MINUTE, zeros)];
    var first := Delivery(0, IdAt(NUDGE, 0, zeros), Draw(0.0, 0), [Accepted], 0, Both);
    var second := Delivery(MINUTE, IdAt(NUDGE, MINUTE, zeros), Draw(0.0, 0), [Accepted], MINUTE, Both);
    e := [Press("p", first), Press("p", second)];
    var r := Reminder("r", "p", 50, 0, None, None);
    var db := Db(map[], [r], map[], []);
    var db1 := db.(nudges := [Nudge(first.id, "p", "r", 0)], reminders := [r.(lastNudged := Some(0))]);
    OneAccepts();
    LonePress(db, "p", first, r);
    IdsDifferExactlyWhen(NUDGE, 0, zeros, MINUTE, zeros);
    LonePress(db1, "p", second, db1.reminders[0]);
    s := [db, db1, Step(db1, e[1])];
  }

  /** A delivery that nobody took, or that had nothing to send, changes no log, no stamp and so no later
      exclusion; a pass still spends the row it claimed. */
  lemma NothingSentNothingRemembered(db: Db, who: string, floor: bool, d: Delivery)
    requires AcceptedBy(d.results) == 0 || Candidates(db.reminders, who, d.at, floor) == []
    ensures Deliver(db, who, floor, d) == db
    ensures DeliverOutcome(db, who, floor, d) != Sent
  {
    AnswersWhenAnythingCan(Candidates(db.reminders, who, d.at, floor), d.at, LastReminder(db.nudges, who), d.draw);
  }
}
