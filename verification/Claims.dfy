/** One account's pending row under passes that overlap: every SQL statement is a step of its own, and any
    number of passes and changes of rhythm take theirs in any order. */
module Claims {
  import opened Clock

  /** A scheduled moment, told apart from every other by the order it was scheduled in. */
  datatype Row = Row(serial: nat, at: int)

  /** Where a pass is in its consideration of the account. */
  datatype Place =
    | Idle
    | Looking(now: Instant)
    | Claiming(now: Instant)
    | Deciding(now: Instant)

  datatype State = State(
    standing: Option<Row>,
    places: map<nat, Place>,
    scheduled: nat,
    claimed: multiset<nat>,
    cleared: multiset<nat>,
    overwritten: multiset<nat>,
    delivered: multiset<nat>)

  datatype Statement =
    | Begin(pass: nat, now: Instant)
    | ReadPending(pass: nat)
    | Claim(pass: nat, awake: bool)
    | Decide(pass: nat, due: bool, at: Instant)
    | Clear

  const START := State(None, map[], 0, multiset{}, multiset{}, multiset{}, multiset{})

  function PlaceOf(st: State, pass: nat): Place {
    if pass in st.places then st.places[pass] else Idle
  }

  function Moved(st: State, pass: nat, p: Place): State {
    st.(places := st.places[pass := p])
  }

  function Step(st: State, a: Statement): State {
    match a
    case Begin(pass, now) => if PlaceOf(st, pass).Idle? then Moved(st, pass, Looking(now)) else st
    case ReadPending(pass) =>
      (match PlaceOf(st, pass)
       case Looking(now) =>
         if st.standing.None? then Moved(st, pass, Deciding(now))
         else if FromUnix(st.standing.value.at) > now then Moved(st, pass, Idle)
         else Moved(st, pass, Claiming(now))
       case _ => st)
    case Claim(pass, awake) =>
      (match PlaceOf(st, pass)
       case Claiming(now) =>
         if Gets(st, now) then
           var serial := st.standing.value.serial;
           Moved(st, pass, Idle).(standing := None, claimed := st.claimed + multiset{serial},
                                  delivered := if awake then st.delivered + multiset{serial} else st.delivered)
         else Moved(st, pass, Idle)
       case _ => st)
    case Decide(pass, due, at) =>
      (match PlaceOf(st, pass)
       case Deciding(_) =>
         if !due then Moved(st, pass, Idle)
         else Moved(st, pass, Idle).(standing := Some(Row(st.scheduled, Unix(at))), scheduled := st.scheduled + 1,
                                     overwritten := st.overwritten + Standing(st))
       case _ => st)
    case Clear => st.(standing := None, cleared := st.cleared + Standing(st))
  }

  /** A statement out of turn changes nothing: a pass begins when idle, reads when it looks, claims what it read
      as due, and decides when it read that nothing waits. */
  lemma OutOfTurnChangesNothing(st: State, a: Statement)
    ensures !a.Clear? && PlaceOf(st, a.pass).Idle? && !a.Begin? ==> Step(st, a) == st
    ensures !a.Clear? && PlaceOf(st, a.pass).Looking? && !a.ReadPending? ==> Step(st, a) == st
    ensures !a.Clear? && PlaceOf(st, a.pass).Claiming? && !a.Claim? ==> Step(st, a) == st
    ensures !a.Clear? && PlaceOf(st, a.pass).Deciding? && !a.Decide? ==> Step(st, a) == st
  {
  }

  /** DELETE … WHERE at <= now finds the row. */
  predicate Gets(st: State, now: Instant) {
    st.standing.Some? && st.standing.value.at <= Unix(now)
  }

  function Standing(st: State): multiset<nat> {
    if st.standing.Some? then multiset{st.standing.value.serial} else multiset{}
  }

  ghost predicate IsRun(s: seq<State>, a: seq<Statement>) {
    && |s| == |a| + 1
    && s[0] == START
    && forall i :: 0 <= i < |a| ==> s[i + 1] == Step(s[i], a[i])
  }

  // ----- Any interleaving -----

  /** How often a row has been claimed, cleared or overwritten, or stands. */
  function Fates(st: State, serial: nat): nat {
    st.claimed[serial] + st.cleared[serial] + st.overwritten[serial]
    + if st.standing.Some? && st.standing.value.serial == serial then 1 else 0
  }

  /** How many rows have been claimed, cleared or overwritten, or stand. */
  function Accounted(st: State): nat {
    |st.claimed| + |st.cleared| + |st.overwritten| + if st.standing.Some? then 1 else 0
  }

  lemma FatesStep(st: State, a: Statement, serial: nat)
    ensures var after := Step(st, a);
            && st.scheduled <= after.scheduled <= st.scheduled + 1
            && Fates(after, serial) == Fates(st, serial) + (if st.scheduled <= serial < after.scheduled then 1 else 0)
            && (st.delivered[serial] <= st.claimed[serial] ==> after.delivered[serial] <= after.claimed[serial])
  {
  }

  lemma AccountedStep(st: State, a: Statement)
    ensures var after := Step(st, a);
            && Accounted(after) - Accounted(st) == after.scheduled - st.scheduled
            && |after.delivered| - |st.delivered| <= |after.claimed| - |st.claimed|
  {
  }

  /** Conservation, in every state any interleaving reaches: a row that was scheduled has exactly one fate, and
      a row that was not has none. */
  lemma {:induction false} RowsAreConserved(s: seq<State>, a: seq<Statement>, k: nat, serial: nat)
    requires IsRun(s, a) && k < |s|
    ensures Fates(s[k], serial) == if serial < s[k].scheduled then 1 else 0
    ensures s[k].delivered[serial] <= s[k].claimed[serial]
  {
    if k > 0 {
      RowsAreConserved(s, a, k - 1, serial);
      FatesStep(s[k - 1], a[k - 1], serial);
    }
  }

  /** Rows scheduled are rows claimed, cleared, overwritten and standing, in every such state. */
  lemma {:induction false} CountsAddUp(s: seq<State>, a: seq<Statement>, k: nat)
    requires IsRun(s, a) && k < |s|
    ensures Accounted(s[k]) == s[k].scheduled
    ensures |s[k].delivered| <= |s[k].claimed| <= s[k].scheduled
  {
    if k > 0 {
      CountsAddUp(s, a, k - 1);
      AccountedStep(s[k - 1], a[k - 1]);
    }
  }

  /** Two overlapping passes never both send the same nudge, nor one that was never scheduled. */
  lemma NothingIsSentTwice(s: seq<State>, a: seq<Statement>, k: nat, serial: nat)
    requires IsRun(s, a) && k < |s|
    ensures s[k].delivered[serial] <= if serial < s[k].scheduled then 1 else 0
  {
    RowsAreConserved(s, a, k, serial);
  }

  // ----- What an overwriting takes -----

  /** A pass that found nothing waiting decides, and schedules a row. */
  predicate Schedules(st: State, a: Statement) {
    a.Decide? && a.due && PlaceOf(st, a.pass).Deciding?
  }

  /** The row that stands is claimed or cleared away. */
  predicate Takes(st: State, a: Statement) {
    a.Clear? || (a.Claim? && PlaceOf(st, a.pass).Claiming? && Gets(st, PlaceOf(st, a.pass).now))
  }

  /** Step r is where this pass, still deciding at k, read that nothing was waiting. */
  ghost predicate FoundNothing(s: seq<State>, a: seq<Statement>, pass: nat, r: nat, k: nat)
    requires |s| == |a| + 1
  {
    && r < k < |s|
    && a[r] == ReadPending(pass) && PlaceOf(s[r], pass).Looking? && s[r].standing.None?
    && forall j :: r < j <= k ==> PlaceOf(s[j], pass).Deciding?
  }

  lemma DecidingStep(st: State, a: Statement, pass: nat)
    requires PlaceOf(Step(st, a), pass).Deciding? && !PlaceOf(st, pass).Deciding?
    ensures a == ReadPending(pass) && PlaceOf(st, pass).Looking? && st.standing.None?
  {
  }

  lemma {:induction false} DecidingFoundNothing(s: seq<State>, a: seq<Statement>, pass: nat, k: nat) returns (r: nat)
    requires IsRun(s, a) && k < |s| && PlaceOf(s[k], pass).Deciding?
    ensures FoundNothing(s, a, pass, r, k)
  {
    hide Step;
    assert k > 0;
    assert s[k] == Step(s[k - 1], a[k - 1]);
    if PlaceOf(s[k - 1], pass).Deciding? {
      r := DecidingFoundNothing(s, a, pass, k - 1);
    } else {
      DecidingStep(s[k - 1], a[k - 1], pass);
      r := k - 1;
    }
  }

  lemma StandingStep(st: State, a: Statement)
    ensures Schedules(st, a) ==> Step(st, a).standing.Some?
    ensures Takes(st, a) ==> Step(st, a).standing.None?
    ensures !Schedules(st, a) && !Takes(st, a) ==> Step(st, a).standing == st.standing
  {
  }

  /** A row that stands at k, when none stood at z, was scheduled in between and not taken since. */
  lemma {:induction false} StandingWasScheduled(s: seq<State>, a: seq<Statement>, z: nat, k: nat) returns (m: nat)
    requires IsRun(s, a) && z <= k < |s| && s[z].standing.None? && s[k].standing.Some?
    ensures z <= m < k && Schedules(s[m], a[m])
    ensures forall j :: m < j < k ==> !Takes(s[j], a[j])
    decreases k
  {
    hide Step, Schedules, Takes;
    assert s[k] == Step(s[k - 1], a[k - 1]);
    StandingStep(s[k - 1], a[k - 1]);
    if Schedules(s[k - 1], a[k - 1]) {
      m := k - 1;
    } else {
      m := StandingWasScheduled(s, a, z, k - 1);
    }
  }

  lemma {:induction false} UntakenStands(s: seq<State>, a: seq<Statement>, m: nat, k: nat)
    requires IsRun(s, a) && m < k < |s| && Schedules(s[m], a[m])
    requires forall j :: m < j < k ==> !Takes(s[j], a[j])
    ensures s[k].standing.Some?
    decreases k
  {
    hide Step, Schedules, Takes;
    assert s[k] == Step(s[k - 1], a[k - 1]);
    StandingStep(s[k - 1], a[k - 1]);
    if k > m + 1 {
      UntakenStands(s, a, m, k - 1);
    }
  }

  lemma OverwritingStep(st: State, a: Statement)
    requires Schedules(st, a)
    ensures Step(st, a).overwritten != st.overwritten <==> st.standing.Some?
  {
    if st.standing.Some? {
      var serial := st.standing.value.serial;
      assert Step(st, a).overwritten[serial] == st.overwritten[serial] + 1;
    }
  }

  /** Under every interleaving: a pass that schedules overwrites a row if and only if, since that pass read that
      nothing was waiting, another has scheduled one that nobody claimed or cleared. */
  lemma OverwritesExactlyWhen(s: seq<State>, a: seq<Statement>, k: nat) returns (r: nat)
    requires IsRun(s, a) && k < |a| && Schedules(s[k], a[k])
    ensures FoundNothing(s, a, a[k].pass, r, k)
    ensures s[k + 1].overwritten != s[k].overwritten <==>
            exists m :: r < m < k && Schedules(s[m], a[m]) && a[m].pass != a[k].pass
                        && forall j :: m < j < k ==> !Takes(s[j], a[j])
  {
    hide Step, Takes;
    r := DecidingFoundNothing(s, a, a[k].pass, k);
    OverwritingStep(s[k], a[k]);
    if s[k].standing.Some? {
      var m := StandingWasScheduled(s, a, r, k);
      ScheduledByAnother(s, a, a[k].pass, r, m, k);
    } else {
      forall m | r < m < k && Schedules(s[m], a[m]) ensures exists j :: m < j < k && Takes(s[j], a[j]) {
        if forall j :: m < j < k ==> !Takes(s[j], a[j]) {
          UntakenStands(s, a, m, k);
        }
      }
    }
  }

  /** A pass that goes on deciding has not scheduled. */
  lemma ScheduledByAnother(s: seq<State>, a: seq<Statement>, pass: nat, r: nat, m: nat, k: nat)
    requires IsRun(s, a) && FoundNothing(s, a, pass, r, k) && r <= m < k && Schedules(s[m], a[m])
    ensures r < m && a[m].pass != pass
  {
    assert s[m + 1] == Step(s[m], a[m]);
  }

  // ----- One pass at a time -----

  /** A pass begins only when no other is under way. */
  ghost predicate OneAtATime(s: seq<State>, a: seq<Statement>)
    requires |s| == |a| + 1
  {
    forall i :: 0 <= i < |a| && a[i].Begin? ==> forall p: nat :: PlaceOf(s[i], p).Idle?
  }

  ghost predicate OneUnderWay(st: State) {
    forall p: nat, q: nat :: !PlaceOf(st, p).Idle? && !PlaceOf(st, q).Idle? ==> p == q
  }

  /** What the one pass under way saw is still so, but for what a change of rhythm cleared. */
  ghost predicate Undisturbed(st: State) {
    && st.overwritten == multiset{}
    && (forall p: nat :: PlaceOf(st, p).Deciding? ==> st.standing.None?)
    && (forall p: nat :: PlaceOf(st, p).Claiming? && st.standing.Some? ==> Gets(st, PlaceOf(st, p).now))
  }

  predicate Moves(a: Statement, p: nat) {
    !a.Clear? && a.pass == p
  }

  lemma OthersStayPut(st: State, a: Statement, p: nat)
    requires !Moves(a, p)
    ensures PlaceOf(Step(st, a), p) == PlaceOf(st, p)
  {
  }

  lemma OneUnderWayStep(st: State, a: Statement)
    requires OneUnderWay(st)
    requires a.Begin? ==> forall p: nat :: PlaceOf(st, p).Idle?
    ensures OneUnderWay(Step(st, a))
  {
    var after := Step(st, a);
    forall p: nat | !Moves(a, p) ensures PlaceOf(after, p) == PlaceOf(st, p) { OthersStayPut(st, a, p); }
    assert !a.Clear? && !a.Begin? && PlaceOf(st, a.pass).Idle? ==> PlaceOf(after, a.pass).Idle?;
  }

  lemma UndisturbedStep(st: State, a: Statement)
    requires OneUnderWay(st) && Undisturbed(st)
    ensures Undisturbed(Step(st, a))
  {
    var after := Step(st, a);
    forall p: nat | !Moves(a, p) ensures PlaceOf(after, p) == PlaceOf(st, p) { OthersStayPut(st, a, p); }
    if a.ReadPending? && st.standing.Some? && PlaceOf(st, a.pass).Looking? {
      DueTestsAgree(st.standing.value.at, PlaceOf(st, a.pass).now);
    }
  }

  /** With passes one after another nothing is overwritten, and a row that stands while a pass is about to claim
      passes the test in SQL as it passed the one in memory: rounding never parts the two. */
  lemma {:induction false} SerialPassesOverwriteNothing(s: seq<State>, a: seq<Statement>, k: nat)
    requires IsRun(s, a) && OneAtATime(s, a) && k < |s|
    ensures OneUnderWay(s[k]) && Undisturbed(s[k])
  {
    if k > 0 {
      SerialPassesOverwriteNothing(s, a, k - 1);
      OneUnderWayStep(s[k - 1], a[k - 1]);
      UndisturbedStep(s[k - 1], a[k - 1]);
    }
  }

  /** Step r is where this pass, about to claim at k, read a row that was due. */
  ghost predicate FoundDue(s: seq<State>, a: seq<Statement>, pass: nat, r: nat, k: nat)
    requires |s| == |a| + 1
  {
    && r < k < |s|
    && a[r] == ReadPending(pass) && PlaceOf(s[r], pass).Looking? && s[r].standing.Some?
    && forall j :: r < j <= k ==> PlaceOf(s[j], pass).Claiming?
  }

  lemma ClaimingStep(st: State, a: Statement, pass: nat)
    requires PlaceOf(Step(st, a), pass).Claiming? && !PlaceOf(st, pass).Claiming?
    ensures a == ReadPending(pass) && PlaceOf(st, pass).Looking? && st.standing.Some?
    ensures Step(st, a).standing == st.standing
  {
  }

  /** While the one pass under way is about to claim, only a change of rhythm touches the row. */
  lemma OnlyClearingTakes(st: State, a: Statement, pass: nat)
    requires OneUnderWay(st) && PlaceOf(st, pass).Claiming? && PlaceOf(Step(st, a), pass).Claiming?
    requires a.Begin? ==> forall p: nat :: PlaceOf(st, p).Idle?
    ensures Step(st, a).standing == if a.Clear? then None else st.standing
  {
  }

  lemma {:induction false} ClaimingFoundDue(s: seq<State>, a: seq<Statement>, pass: nat, k: nat) returns (r: nat)
    requires IsRun(s, a) && OneAtATime(s, a) && k < |s| && PlaceOf(s[k], pass).Claiming?
    ensures FoundDue(s, a, pass, r, k)
    ensures s[k].standing == if exists j :: r < j < k && a[j].Clear? then None else s[r].standing
  {
    hide Step;
    assert k > 0;
    assert s[k] == Step(s[k - 1], a[k - 1]);
    if PlaceOf(s[k - 1], pass).Claiming? {
      r := ClaimingFoundDue(s, a, pass, k - 1);
      SerialPassesOverwriteNothing(s, a, k - 1);
      OnlyClearingTakes(s[k - 1], a[k - 1], pass);
    } else {
      ClaimingStep(s[k - 1], a[k - 1], pass);
      r := k - 1;
    }
  }

  /** With passes one after another, a claim gets the row its pass read as due if and only if no change of rhythm
      cleared it in between. */
  lemma ClaimSucceedsExactlyWhen(s: seq<State>, a: seq<Statement>, k: nat) returns (r: nat)
    requires IsRun(s, a) && OneAtATime(s, a) && k < |a| && a[k].Claim? && PlaceOf(s[k], a[k].pass).Claiming?
    ensures FoundDue(s, a, a[k].pass, r, k)
    ensures Gets(s[k], PlaceOf(s[k], a[k].pass).now) <==> forall j :: r < j < k ==> !a[j].Clear?
    ensures Gets(s[k], PlaceOf(s[k], a[k].pass).now) ==> s[k].standing == s[r].standing
  {
    hide Step;
    r := ClaimingFoundDue(s, a, a[k].pass, k);
    SerialPassesOverwriteNothing(s, a, k);
  }

  /** And a moment that stands at two states is the same moment: no step moves it. */
  lemma {:induction false} StandingMomentStays(s: seq<State>, a: seq<Statement>, i: nat, k: nat)
    requires IsRun(s, a) && OneAtATime(s, a) && i <= k < |s|
    requires forall j :: i <= j <= k ==> s[j].standing.Some?
    ensures s[k].standing == s[i].standing
    decreases k
  {
    if i < k {
      StandingMomentStays(s, a, i, k - 1);
      SerialPassesOverwriteNothing(s, a, k - 1);
    }
  }

  /** One statement more. */
  lemma Then(s: seq<State>, a: seq<Statement>, next: Statement) returns (s': seq<State>, a': seq<Statement>)
    requires IsRun(s, a)
    ensures IsRun(s', a') && s'[|a'|] == Step(s[|a|], next)
  {
    hide Step;
    s', a' := s + [Step(s[|a|], next)], a + [next];
    forall i | 0 <= i < |a'| ensures s'[i + 1] == Step(s'[i], a'[i]) {
      if i < |a| { assert s[i + 1] == Step(s[i], a[i]); }
    }
  }

  /** Only overlapping does it: two passes that both found nothing waiting both schedule, and the first
      moment is lost to the second. */
  lemma OverlapOverwrites() returns (s: seq<State>, a: seq<Statement>)
    ensures IsRun(s, a) && s[|a|].overwritten != multiset{}
  {
    s, a := [START], [];
    s, a := Then(s, a, Begin(0, 0));
    s, a := Then(s, a, Begin(1, 0));
    s, a := Then(s, a, ReadPending(0));
    s, a := Then(s, a, ReadPending(1));
    BothDecide(s[|a|]);
    s, a := Then(s, a, Decide(0, true, 0));
    s, a := Then(s, a, Decide(1, true, SECOND));
  }

  lemma BothDecide(st: State)
    requires PlaceOf(st, 0).Deciding? && PlaceOf(st, 1).Deciding?
    ensures Step(Step(st, Decide(0, true, 0)), Decide(1, true, SECOND)).overwritten != multiset{}
  {
    var first := Step(st, Decide(0, true, 0));
    assert st.scheduled in Step(first, Decide(1, true, SECOND)).overwritten;
  }
}
