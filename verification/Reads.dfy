/** What the queries over the log and the reminders answer, in the rows' own terms. */
module Reads {
  import opened Clock
  import opened Orders
  import opened Rhythms
  import opened Picks
  import opened Tables

  /** The last send of an account is a time in its log, and the greatest. */
  lemma {:induction false} LastSentIsTheMaximum(log: seq<Nudge>, who: string)
    ensures LastSent(log, who).None? <==> forall i :: 0 <= i < |log| ==> log[i].owner != who
    ensures LastSent(log, who).Some? ==>
              && (exists i :: 0 <= i < |log| && log[i].owner == who && log[i].sentAt == LastSent(log, who).value)
              && (forall i :: 0 <= i < |log| && log[i].owner == who ==> log[i].sentAt <= LastSent(log, who).value)
  {
    if |log| > 0 {
      var n := |log| - 1;
      LastSentIsTheMaximum(log[..n], who);
      assert forall i :: 0 <= i < n ==> log[..n][i] == log[i];
      if LastSent(log[..n], who).Some? {
        var i :| 0 <= i < n && log[..n][i].owner == who && log[..n][i].sentAt == LastSent(log[..n], who).value;
        assert log[i].owner == who;
      }
      assert log[n].owner == who || LastSent(log, who) == LastSent(log[..n], who);
    }
  }

  /** The row whose reminder the next nudge may not carry: of the account's log, and none of it sent later, nor
      in the same second under an id that sorts after. */
  lemma {:induction false} LatestIsTheLast(log: seq<Nudge>, who: string)
    ensures Latest(log, who).None? <==> forall i :: 0 <= i < |log| ==> log[i].owner != who
    ensures Latest(log, who).Some? ==>
              var n := Latest(log, who).value;
              && n in log && n.owner == who && LastReminder(log, who) == n.reminder
              && (forall i :: 0 <= i < |log| && log[i].owner == who ==>
                    log[i].sentAt < n.sentAt || (log[i].sentAt == n.sentAt && !Below(n.id, log[i].id)))
    ensures Latest(log, who).None? ==> LastReminder(log, who) == ""
  {
    if |log| > 0 {
      var k := |log| - 1;
      var front, last := log[..k], log[k];
      LatestIsTheLast(front, who);
      assert log == front + [last];
      assert forall i :: 0 <= i < k ==> front[i] == log[i];
      BelowIsTotal(last.id, last.id);
      if Latest(front, who).Some? && last.owner == who {
        var n := Latest(front, who).value;
        forall i | 0 <= i < k && log[i].owner == who && Below(last.id, log[i].id)
          ensures Below(n.id, last.id) ==> Below(n.id, log[i].id)
        {
          if Below(n.id, last.id) { BelowIsTransitive(n.id, last.id, log[i].id); }
        }
      }
    }
  }

  ghost function OfferedRows(rows: seq<Reminder>, who: string, now: Instant, floor: bool): set<int> {
    set i | 0 <= i < |rows| && Offered(rows[i], who, now, floor)
  }

  /** Each row that may be offered is offered once. */
  lemma {:induction false} OfferedOnce(rows: seq<Reminder>, who: string, now: Instant, floor: bool)
    ensures |Candidates(rows, who, now, floor)| == |OfferedRows(rows, who, now, floor)|
  {
    hide Offered, AsCandidate;
    if |rows| == 0 {
      assert OfferedRows(rows, who, now, floor) == {};
    } else {
      OfferedOnce(rows[..|rows| - 1], who, now, floor);
      OfferedRowsStep(rows, who, now, floor);
    }
  }

  lemma OfferedRowsStep(rows: seq<Reminder>, who: string, now: Instant, floor: bool)
    requires |rows| > 0
    ensures var n := |rows| - 1;
            && n !in OfferedRows(rows[..n], who, now, floor)
            && OfferedRows(rows, who, now, floor) ==
                 OfferedRows(rows[..n], who, now, floor) + if Offered(rows[n], who, now, floor) then {n} else {}
  {
    hide Offered;
  }

  /** A missing row reads as nine to ten in the evening, UTC, three a day and with a sound. */
  lemma MissingRhythm(db: Db, who: string)
    ensures who in db.rhythms ==> RhythmOf(db, who) == db.rhythms[who]
    ensures who !in db.rhythms ==>
              var r := RhythmOf(db, who);
              && r.windowEnabled && r.wakeMinute == 540 && r.sleepMinute == 1320 && r.budget == 3 && !r.silent
              && r.zone == FixedOffset(0)
  {
  }

  /** A clock at a fixed distance from UTC: the local day began at most a day ago, on a multiple of a day by its
      own reckoning, and the minute of the day is how many minutes ago that was. */
  lemma FixedOffsetMeans(seconds: int, t: Instant)
    ensures var z := FixedOffset(seconds);
            && (z.midnight(t) + seconds * SECOND) % DAY == 0
            && z.midnight(t) <= t < z.midnight(t) + DAY
            && z.minuteOf(t) == (t - z.midnight(t)) / MINUTE
            && 0 <= z.minuteOf(t) < 1440
  {
    var x := t + seconds * SECOND;
    assert x == (x / DAY) * DAY + x % DAY;
    SameQuotient((x / DAY) * DAY, x / DAY, 0);
    MinuteBounds(x % DAY, 0, 1440);
  }

  /** What recording leaves, for each way it can end: nothing, the log row alone, or the row and the stamp of
      the one reminder, and never a second row under one id. */
  lemma RecordedExactly(db: Db, n: Nudge, writes: Writes)
    ensures var after := Record(db, n, writes);
            && after.rhythms == db.rhythms && after.pending == db.pending && |after.reminders| == |db.reminders|
            && ((exists i :: 0 <= i < |db.nudges| && db.nudges[i].id == n.id) || writes == Neither ==> after == db)
            && ((forall i :: 0 <= i < |db.nudges| ==> db.nudges[i].id != n.id) && writes != Neither ==>
                  && after.nudges == db.nudges + [n]
                  && forall x :: 0 <= x < |db.reminders| ==>
                       after.reminders[x] ==
                         if writes == Both && db.reminders[x].id == n.reminder
                         then db.reminders[x].(lastNudged := Some(n.sentAt)) else db.reminders[x])
  {
  }

  /** A rhythm is kept if and only if its hours lie in one day, the first before the last, and its budget is
      between none and two dozen; whether or not the hours apply. */
  lemma KeptExactlyWhen(db: Db, who: string, r: Rhythm)
    ensures var allowed := 0 <= r.wakeMinute < r.sleepMinute <= 1440 && 0 <= r.budget <= 24;
            SetRhythm(db, who, r) == if allowed then db.(rhythms := db.rhythms[who := r]) else db
  {
  }
}
