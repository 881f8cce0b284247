/** The two accounts of a pass are one: its statements, run without interruption, do to the pending row what the
    whole of it does. */
module Statements {
  import opened Clock
  import opened Rhythms
  import opened Tables
  import Claims
  import Runs

  /** The same moment stands in both, or none does. */
  predicate Same(st: Claims.State, db: Db, who: string) {
    && (st.standing.Some? <==> who in db.pending)
    && (st.standing.Some? ==> st.standing.value.at == db.pending[who])
  }

  /** The statements of one pass, one after another. */
  function WholePass(st: Claims.State, pass: nat, now: Instant, awake: bool, due: bool, at: Instant): Claims.State {
    var read := Claims.Step(Claims.Step(st, Claims.Begin(pass, now)), Claims.ReadPending(pass));
    match Claims.PlaceOf(read, pass)
    case Claiming(_) => Claims.Step(read, Claims.Claim(pass, awake))
    case Deciding(_) => Claims.Step(read, Claims.Decide(pass, due, at))
    case _ => read
  }

  lemma WholePassExactly(st: Claims.State, pass: nat, now: Instant, awake: bool, due: bool, at: Instant)
    requires Claims.PlaceOf(st, pass) == Claims.Idle
    ensures var after := WholePass(st, pass, now, awake, due, at);
            var comes := st.standing.Some? && st.standing.value.at * SECOND <= now;
            && Claims.PlaceOf(after, pass) == Claims.Idle && after.overwritten == st.overwritten
            && after.delivered == (if comes && awake then st.delivered + multiset{st.standing.value.serial} else st.delivered)
            && (comes ==> after.standing == None)
            && (st.standing.Some? && !comes ==> after.standing == st.standing)
            && (st.standing.None? ==> (after.standing.Some? <==> due) && (due ==> after.standing.value.at == at / SECOND))
  {
    if st.standing.Some? {
      DueTestsAgree(st.standing.value.at, now);
    }
    var begun := Claims.Step(st, Claims.Begin(pass, now));
    assert Claims.PlaceOf(begun, pass) == Claims.Looking(now) && begun.standing == st.standing;
    var read := Claims.Step(begun, Claims.ReadPending(pass));
    assert read.standing == st.standing && read.delivered == st.delivered && read.overwritten == st.overwritten;
  }

  /** It leaves the row as the pass does, is over when it is done, overwrites nothing, and delivers exactly when
      the pass does: one nudge, the row's own, when its moment has come and the person is awake. */
  lemma WholePassIsConsider(st: Claims.State, db: Db, who: string, pass: nat, now: Instant, delay: Duration, d: Delivery)
    requires Claims.PlaceOf(st, pass) == Claims.Idle && Same(st, db, who)
    ensures var r := RhythmOf(db, who);
            var after := WholePass(st, pass, now, Awake(r, now), Due(r, Since(r, LastNudgeAt(db, who), now), now), now + delay);
            && Same(after, Runs.Step(db, Runs.Pass(who, now, delay, d)), who)
            && Claims.PlaceOf(after, pass) == Claims.Idle && after.overwritten == st.overwritten
            && after.delivered ==
                 if who in db.pending && db.pending[who] * SECOND <= now && Awake(r, now)
                 then st.delivered + multiset{st.standing.value.serial} else st.delivered
  {
    hide WholePass, Awake, Due, Since;
    var r := RhythmOf(db, who);
    WholePassExactly(st, pass, now, Awake(r, now), Due(r, Since(r, LastNudgeAt(db, who), now), now), now + delay);
    PassMovesTheRow(db, who, now, delay, d);
  }

  lemma PassMovesTheRow(db: Db, who: string, now: Instant, delay: Duration, d: Delivery)
    ensures var r := RhythmOf(db, who);
            var after := Runs.Step(db, Runs.Pass(who, now, delay, d)).pending;
            && (who in db.pending && db.pending[who] * SECOND <= now ==> who !in after)
            && (who in db.pending && db.pending[who] * SECOND > now ==> who in after && after[who] == db.pending[who])
            && (who !in db.pending ==>
                  var due := Due(r, Since(r, LastNudgeAt(db, who), now), now);
                  (who in after <==> due) && (due ==> after[who] == (now + delay) / SECOND))
  {
    hide Awake, Due, Since;
    if who in db.pending {
      DueTestsAgree(db.pending[who], now);
    }
    Runs.DeliverLogs(Unschedule(db, who), who, true, d);
  }

  /** And a change of rhythm that clears the row is one statement. */
  lemma ClearingIsClear(st: Claims.State, db: Db, who: string, r: Rhythm)
    requires Same(st, db, who) && Rhythms.Valid(r)
    ensures Same(Claims.Step(st, Claims.Clear), Runs.Step(db, Runs.ChangeRhythm(who, r, true)), who)
    ensures Claims.Step(st, Claims.Clear).delivered == st.delivered
  {
  }
}
