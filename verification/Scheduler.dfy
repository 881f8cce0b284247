/** The store's statements and the scheduler's loop over them, changing rows in place. */
module Scheduling {
  import opened Clock
  import opened Rhythms
  import opened Picks
  import opened Tables
  import Runs

  lemma LastOfPrefix(rows: seq<Reminder>, who: string, id: string, i: nat)
    requires i < |rows|
    ensures Runs.Keeps(rows[..i + 1], who, id) <==> Runs.Keeps(rows[..i], who, id) || Runs.Names(rows[i], who, id)
  {
    if Runs.Keeps(rows[..i], who, id) {
      var j :| 0 <= j < i && Runs.Names(rows[..i][j], who, id);
      assert Runs.Names(rows[..i + 1][j], who, id);
    }
    if Runs.Names(rows[i], who, id) {
      assert Runs.Names(rows[..i + 1][i], who, id);
    }
    if Runs.Keeps(rows[..i + 1], who, id) && !Runs.Names(rows[i], who, id) {
      var j :| 0 <= j < i + 1 && Runs.Names(rows[..i + 1][j], who, id);
      assert Runs.Names(rows[..i][j], who, id);
    }
  }

  lemma NothingEdited(db: Db, who: string, id: string, seconds: int)
    requires seconds < 0
    ensures Runs.Step(db, Runs.SetFloor(who, id, seconds)) == db
  {
    assert Runs.Edited(db, Runs.SetFloor(who, id, seconds)) == db.reminders;
  }

  class Store {
    var rhythms: map<string, Rhythm>
    var reminders: seq<Reminder>
    var pending: map<string, int>
    var nudges: seq<Nudge>

    constructor ()
      ensures Contents() == Db(map[], [], map[], [])
    {
      rhythms, reminders, pending, nudges := map[], [], map[], [];
    }

    function Contents(): Db
      reads this
    {
      Db(rhythms, reminders, pending, nudges)
    }

    method ReadRhythm(who: string) returns (r: Rhythm)
      ensures r == RhythmOf(Contents(), who)
    {
      r := DEFAULT;
      if who in rhythms {
        r := rhythms[who];
      }
    }

    /** Saved only when its hours and its budget are allowed, and its timezone is one the program knows by name. */
    method WriteRhythm(who: string, r: Rhythm, zoneKnown: bool) returns (ok: bool)
      modifies `rhythms
      ensures ok <==> zoneKnown && Rhythms.Valid(r)
      ensures Contents() == if zoneKnown then SetRhythm(old(Contents()), who, r) else old(Contents())
    {
      if !zoneKnown {
        return false;
      }
      if r.wakeMinute < 0 || r.sleepMinute > 24 * 60 {
        return false;
      }
      if r.wakeMinute >= r.sleepMinute || r.budget < 0 || r.budget > MAX_BUDGET {
        return false;
      }
      rhythms := rhythms[who := r];
      return true;
    }

    method ScheduledNudge(who: string) returns (at: Option<Instant>)
      ensures at == if who in pending then Some(FromUnix(pending[who])) else None
    {
      if who in pending {
        return Some(FromUnix(pending[who]));
      }
      return None;
    }

    /** One row an account; the newer moment wins. */
    method ScheduleNudge(who: string, at: Instant)
      modifies `pending
      ensures Contents() == Schedule(old(Contents()), who, at)
    {
      pending := pending[who := Unix(at)];
    }

    /** Whoever deletes the row has claimed it. */
    method ClaimScheduledNudge(who: string, now: Instant) returns (got: bool)
      modifies `pending
      ensures got == old(Claimable(Contents(), who, now))
      ensures Contents() == if got then Unschedule(old(Contents()), who) else old(Contents())
    {
      got := who in pending && pending[who] <= Unix(now);
      if got {
        pending := pending - {who};
      }
    }

    method ClearScheduledNudge(who: string)
      modifies `pending
      ensures Contents() == Unschedule(old(Contents()), who)
    {
      pending := pending - {who};
    }

    method LastNudgeAt(who: string) returns (at: Option<Instant>)
      ensures at == Tables.LastNudgeAt(Contents(), who)
    {
      var last: Option<int> := None;
      for i := 0 to |nudges|
        invariant last == LastSent(nudges[..i], who)
      {
        assert nudges[..i + 1][..i] == nudges[..i];
        if nudges[i].owner == who && (last.None? || nudges[i].sentAt > last.value) {
          last := Some(nudges[i].sentAt);
        }
      }
      assert nudges[..|nudges|] == nudges;
      at := if last.None? then None else Some(FromUnix(last.value));
    }

    method LastNudgedReminder(who: string) returns (id: string)
      ensures id == LastReminder(nudges, who)
    {
      var latest: Option<Nudge> := None;
      for i := 0 to |nudges|
        invariant latest == Latest(nudges[..i], who)
      {
        assert nudges[..i + 1][..i] == nudges[..i];
        if nudges[i].owner == who && (latest.None? || SortsAfter(nudges[i], latest.value)) {
          latest := Some(nudges[i]);
        }
      }
      assert nudges[..|nudges|] == nudges;
      id := if latest.None? then "" else latest.value.reminder;
    }

    method ReadCandidates(who: string, now: Instant, floor: bool) returns (out: seq<Candidate>)
      ensures out == Candidates(reminders, who, now, floor)
    {
      out := [];
      for i := 0 to |reminders|
        invariant out == Candidates(reminders[..i], who, now, floor)
      {
        assert reminders[..i + 1][..i] == reminders[..i];
        if Offered(reminders[i], who, now, floor) {
          out := out + [AsCandidate(reminders[i])];
        }
      }
      assert reminders[..|reminders|] == reminders;
    }

    method StampNudged(id: string, at: int)
      modifies `reminders
      ensures reminders == Stamped(old(reminders), id, at)
    {
      var rows: seq<Reminder> := [];
      for i := 0 to |reminders|
        invariant rows == Stamped(reminders[..i], id, at)
      {
        var r := reminders[i];
        rows := rows + [if r.id == id then r.(lastNudged := Some(at)) else r];
      }
      assert reminders[..|reminders|] == reminders;
      reminders := rows;
    }

    /** A row under a new id, with no floor; a key that is taken is refused. */
    method CreateReminder(who: string, id: string) returns (ok: bool)
      modifies `reminders
      ensures ok <==> !Runs.Taken(old(reminders), id)
      ensures Contents() == Runs.Step(old(Contents()), Runs.Create(who, id))
    {
      ok := !Runs.Taken(reminders, id);
      if ok {
        reminders := reminders + [Reminder(id, who, 50, 0, None, None)];
      }
    }

    /** The floor, in whole seconds; one below zero is refused. */
    method SetMinInterval(who: string, id: string, d: Duration) returns (ok: bool)
      modifies `reminders
      ensures ok <==> d >= 0 && Runs.Keeps(old(reminders), who, id)
      ensures Contents() == Runs.Step(old(Contents()), Runs.SetFloor(who, id, d / SECOND))
    {
      if d < 0 {
        NothingEdited(Contents(), who, id, d / SECOND);
        return false;
      }
      var seconds := d / SECOND;
      assert seconds >= 0;
      var rows: seq<Reminder> := [];
      ok := false;
      for i := 0 to |reminders|
        invariant reminders == old(reminders)
        invariant rows == Runs.Edited(Contents(), Runs.SetFloor(who, id, seconds))[..i]
        invariant ok <==> Runs.Keeps(reminders[..i], who, id)
      {
        var r := reminders[i];
        if Runs.Names(r, who, id) {
          ok := true;
          rows := rows + [r.(minInterval := seconds)];
        } else {
          rows := rows + [r];
        }
        LastOfPrefix(reminders, who, id, i);
      }
      assert reminders[..|reminders|] == reminders;
      reminders := rows;
    }

    /** Ending what has ended already is no error, and does not move the date. */
    method EndReminder(who: string, id: string, now: Instant) returns (ok: bool)
      modifies `reminders
      ensures ok <==> Runs.Keeps(old(reminders), who, id)
      ensures Contents() == Runs.Step(old(Contents()), Runs.End(who, id, now))
    {
      var rows: seq<Reminder> := [];
      ok := false;
      for i := 0 to |reminders|
        invariant reminders == old(reminders)
        invariant rows == Runs.Edited(Contents(), Runs.End(who, id, now))[..i]
        invariant ok <==> Runs.Keeps(reminders[..i], who, id)
      {
        var r := reminders[i];
        if Runs.Names(r, who, id) {
          ok := true;
          rows := rows + [if r.doneAt.Some? then r else r.(doneAt := Some(Unix(now)))];
        } else {
          rows := rows + [r];
        }
        LastOfPrefix(reminders, who, id, i);
      }
      assert reminders[..|reminders|] == reminders;
      reminders := rows;
    }

    /** As though it had never ended. */
    method ReviveReminder(who: string, id: string) returns (ok: bool)
      modifies `reminders
      ensures ok <==> Runs.Keeps(old(reminders), who, id)
      ensures Contents() == Runs.Step(old(Contents()), Runs.Revive(who, id))
    {
      var rows: seq<Reminder> := [];
      ok := false;
      for i := 0 to |reminders|
        invariant reminders == old(reminders)
        invariant rows == Runs.Edited(Contents(), Runs.Revive(who, id))[..i]
        invariant ok <==> Runs.Keeps(reminders[..i], who, id)
      {
        var r := reminders[i];
        if Runs.Names(r, who, id) {
          ok := true;
          rows := rows + [r.(doneAt := None)];
        } else {
          rows := rows + [r];
        }
        LastOfPrefix(reminders, who, id, i);
      }
      assert reminders[..|reminders|] == reminders;
      reminders := rows;
    }

    method DeleteReminder(who: string, id: string) returns (ok: bool)
      modifies `reminders
      ensures ok <==> Runs.Keeps(old(reminders), who, id)
      ensures Contents() == Runs.Step(old(Contents()), Runs.Delete(who, id))
    {
      var rows: seq<Reminder> := [];
      ok := false;
      for i := 0 to |reminders|
        invariant reminders == old(reminders)
        invariant rows == Runs.Remaining(reminders[..i], who, id)
        invariant ok <==> Runs.Keeps(reminders[..i], who, id)
      {
        if Runs.Names(reminders[i], who, id) {
          ok := true;
        } else {
          rows := rows + [reminders[i]];
        }
        assert reminders[..i + 1][..i] == reminders[..i];
        LastOfPrefix(reminders, who, id, i);
      }
      assert reminders[..|reminders|] == reminders;
      reminders := rows;
    }

    /** The log first and the stamp second; `writes` is how far the process gets. */
    method RecordNudge(id: string, who: string, reminder: string, now: Instant, writes: Writes) returns (ok: bool)
      modifies `nudges, `reminders
      ensures Contents() == Record(old(Contents()), Nudge(id, who, reminder, Unix(now)), writes)
      ensures ok <==> writes.Both? && !Logged(old(nudges), id)
    {
      var n := Nudge(id, who, reminder, Unix(now));
      if writes.Neither? || Logged(nudges, id) {
        return false;
      }
      nudges := nudges + [n];
      if writes.LogOnly? {
        return false;
      }
      StampNudged(reminder, n.sentAt);
      return true;
    }
  }

  /** The number of devices that accepted. */
  method FanOut(results: seq<PushResult>) returns (ok: nat)
    ensures ok == AcceptedBy(results)
    ensures ok == |set i | 0 <= i < |results| && results[i].Accepted?|
  {
    AcceptedAreCounted(results);
    ok := 0;
    for i := 0 to |results|
      invariant ok == AcceptedBy(results[..i])
    {
      assert results[..i + 1][..i] == results[..i];
      if results[i].Accepted? {
        ok := ok + 1;
      }
    }
    assert results[..|results|] == results;
  }

  class Scheduler {
    const store: Store

    constructor (store: Store)
      ensures this.store == store
    {
      this.store := store;
    }

    /** A delivery, from the draw to the record. */
    method Deliver(who: string, floor: bool, d: Delivery) returns (outcome: Outcome, delivered: nat)
      modifies store`nudges, store`reminders
      ensures store.Contents() == Tables.Deliver(old(store.Contents()), who, floor, d)
      ensures outcome == DeliverOutcome(old(store.Contents()), who, floor, d)
      ensures delivered == if outcome.Sent? then AcceptedBy(d.results) else 0
    {
      var candidates := store.ReadCandidates(who, d.at, floor);
      var last := store.LastNudgedReminder(who);
      var chosen := Pick(candidates, d.at, last, d.draw);
      if chosen.None? {
        return NothingToSend, 0;
      }
      if |d.results| == 0 {
        return Undelivered, 0;
      }
      delivered := FanOut(d.results);
      if delivered == 0 {
        return Undelivered, 0;
      }
      var _ := store.RecordNudge(d.id, who, chosen.value.id, d.recordedAt, d.writes);
      return Sent, delivered;
    }

    /** A delivery asked for by hand: floors do not count. */
    method NudgeNow(who: string, d: Delivery) returns (outcome: Outcome, delivered: nat)
      modifies store`nudges, store`reminders
      ensures store.Contents() == Tables.Deliver(old(store.Contents()), who, false, d)
      ensures outcome == DeliverOutcome(old(store.Contents()), who, false, d)
      ensures delivered == if outcome.Sent? then AcceptedBy(d.results) else 0
    {
      outcome, delivered := Deliver(who, false, d);
    }

    /** Leave the waiting row, claim it, or decide on one. */
    method Consider(who: string, now: Instant, delay: Duration, d: Delivery)
      modifies store`pending, store`nudges, store`reminders
      ensures store.Contents() == Tables.Consider(old(store.Contents()), who, now, delay, d)
    {
      var rh := store.ReadRhythm(who);
      var scheduled := store.ScheduledNudge(who);
      if scheduled.Some? {
        DueTestsAgree(store.pending[who], now);
        if scheduled.value > now {
          return;
        }
        var got := store.ClaimScheduledNudge(who, now);
        if !got || !Awake(rh, now) {
          return;
        }
        var _, _ := Deliver(who, true, d);
        return;
      }
      var last := store.LastNudgeAt(who);
      if !Due(rh, Since(rh, last, now), now) {
        return;
      }
      store.ScheduleNudge(who, now + delay);
    }

    /** Everybody in turn, against one reading of the clock. */
    method Pass(people: seq<string>, now: Instant, delays: seq<Duration>, ds: seq<Delivery>)
      requires |people| == |delays| == |ds|
      modifies store`pending, store`nudges, store`reminders
      ensures store.Contents() == PassOver(old(store.Contents()), people, now, delays, ds)
    {
      ghost var before := store.Contents();
      for i := 0 to |people|
        invariant store.Contents() == PassOver(before, people[..i], now, delays[..i], ds[..i])
      {
        Consider(people[i], now, delays[i], ds[i]);
        assert people[..i + 1][..i] == people[..i];
        assert delays[..i + 1][..i] == delays[..i];
        assert ds[..i + 1][..i] == ds[..i];
      }
      assert people[..|people|] == people && delays[..|people|] == delays && ds[..|people|] == ds;
    }

    /** Saving a rhythm clears the waiting row too; the clearing may fail and the save stands. */
    method PatchRhythm(who: string, next: Rhythm, zoneKnown: bool, clears: bool) returns (ok: bool)
      modifies store`rhythms, store`pending
      ensures ok <==> zoneKnown && Rhythms.Valid(next)
      ensures !ok ==> store.Contents() == old(store.Contents())
      ensures ok ==> store.Contents() == Runs.Step(old(store.Contents()), Runs.ChangeRhythm(who, next, clears))
    {
      ok := store.WriteRhythm(who, next, zoneKnown);
      if ok && clears {
        store.ClearScheduledNudge(who);
      }
    }
  }
}
