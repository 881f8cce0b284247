/** How far apart the nudges of one account are, over whole runs. */
module Spacing {
  import opened Clock
  import opened Rhythms
  import opened Tables
  import opened Runs

  /** What a decision knows about an earlier send: an interval has passed since, or the send was before this
      day's waking and half an interval has passed since that. */
  lemma DecisionWaits(db: Db, who: string, now: Instant, sent: int)
    requires Decides(db, who, now)
    requires LastSent(db.nudges, who).Some? && LastSent(db.nudges, who).value >= sent
    ensures var r := RhythmOf(db, who);
            || now >= FromUnix(sent) + Interval(r)
            || (&& r.windowEnabled
                && FromUnix(sent) < Woke(r, now)
                && now >= Woke(r, now) + Interval(r) - Interval(r) / 2)
  {
  }

  /** Any two scheduled nudges of one account under one rhythm, in any zone, with presses, failed sends and
      edits in between: the later one is decided on and claimed at least an interval after the earlier was
      sent, or the earlier was sent before the waking of the day the later was decided on, and that is half
      an interval after. */
  lemma NudgesAreSpaced(s: seq<Db>, e: seq<Event>, who: string, r: Rhythm, i: nat, k: nat) returns (m: nat)
    requires IsRun(s, e) && KeepsDerived(e) && Serial(e, who) && Steady(s, who, r)
    requires i < k < |e| && SendsScheduled(s[i], e[i], who) && SendsScheduled(s[k], e[k], who)
    ensures i < m < k && IsPassOf(e[m], who) && e[i].now <= e[m].now <= e[k].now
    ensures var sent := FromUnix(Unix(e[i].delivery.recordedAt));
            || e[m].now >= sent + Interval(r)
            || (&& r.windowEnabled
                && sent < Woke(r, e[m].now)
                && e[m].now >= Woke(r, e[m].now) + Interval(r) - Interval(r) / 2)
    ensures var gap := Unix(e[k].delivery.recordedAt) - Unix(e[i].delivery.recordedAt);
            || gap >= Unix(Interval(r))
            || (r.windowEnabled && FromUnix(Unix(e[i].delivery.recordedAt)) < Woke(r, e[m].now) && gap >= Unix(Interval(r) / 2))
  {
    ScheduledSend(s[i], e[i], who);
    ScheduledSend(s[k], e[k], who);
    m := PendingOrigin(s, e, who, i + 1, k);
    SendIsRemembered(s, e, who, i, m);
    var sent := Unix(e[i].delivery.recordedAt);
    DecisionWaits(s[m], who, e[m].now, sent);
    GapInSeconds(sent, Interval(r), e[m].now, e[k].delivery.recordedAt);
    GapInSeconds(sent, Interval(r) / 2, e[m].now, e[k].delivery.recordedAt);
  }

  lemma GapInSeconds(sent: int, gap: Duration, decided: Instant, recorded: Instant)
    requires decided <= recorded
    ensures decided >= FromUnix(sent) + gap ==> Unix(recorded) - sent >= Unix(gap)
  {
    if decided >= FromUnix(sent) + gap {
      UnixAdds(sent, gap);
      UnixMonotone(FromUnix(sent) + gap, recorded);
    }
  }

  /** Nobody is sent a scheduled nudge by a pass that finds them asleep, or without a row whose moment, in
      seconds, has come. */
  lemma OnlyWhileAwake(db: Db, e: Event, who: string)
    requires SendsScheduled(db, e, who)
    ensures Awake(RhythmOf(db, who), e.now) && who in db.pending && FromUnix(db.pending[who]) <= e.now
  {
    ScheduledSend(db, e, who);
    DueTestsAgree(db.pending[who], e.now);
  }
}
