/** Signed-in browsers: an expiry that slides forward on use, at most once an hour. */
module Sessions {
  import opened Clock

  /** In seconds. */
  const LIFETIME := 7 * 24 * 3600
  const REFRESH := 3600

  datatype Session = Session(owner: string, createdAt: int, lastSeenAt: int, expiresAt: int)

  /** Rows by the digest of the cookie value. */
  type Table = map<string, Session>

  /** What a request with a cookie is told: not signed in, or signed in and whether the expiry moved. */
  datatype Answer = NotSignedIn | SignedIn(session: Session, moved: bool)

  // ----- One statement -----

  function Created(t: Table, key: string, who: string, now: Instant): Table {
    if key in t then t else t[key := Session(who, Unix(now), Unix(now), Unix(now) + LIFETIME)]
  }

  function Resolved(t: Table, key: string, now: Instant): Answer {
    if key !in t || Unix(now) >= t[key].expiresAt then NotSignedIn
    else if Unix(now) - t[key].lastSeenAt >= REFRESH then
      SignedIn(t[key].(lastSeenAt := Unix(now), expiresAt := Unix(now) + LIFETIME), true)
    else SignedIn(t[key], false)
  }

  /** Reading slides the row or, finding it expired, deletes it. */
  function AfterRead(t: Table, key: string, now: Instant): Table {
    if key !in t then t
    else
      match Resolved(t, key, now)
      case NotSignedIn => t - {key}
      case SignedIn(session, _) => t[key := session]
  }

  function Swept(t: Table, now: Instant): Table {
    map key | key in t && t[key].expiresAt > Unix(now) :: t[key]
  }

  function Without(t: Table, who: string): Table {
    map key | key in t && t[key].owner != who :: t[key]
  }

  /** What a request with a cookie is told and leaves behind: from its expiry on a session is over and its row
      gone; an hour or more since it was last seen it moves, to a week from now; and until then nothing does. */
  lemma ReadExactly(t: Table, key: string, now: Instant)
    ensures key !in t ==> Resolved(t, key, now) == NotSignedIn && AfterRead(t, key, now) == t
    ensures key in t && now / SECOND >= t[key].expiresAt ==>
              Resolved(t, key, now) == NotSignedIn && AfterRead(t, key, now) == t - {key}
    ensures key in t && now / SECOND < t[key].expiresAt && now / SECOND < t[key].lastSeenAt + 3600 ==>
              Resolved(t, key, now) == SignedIn(t[key], false) && AfterRead(t, key, now) == t
    ensures key in t && now / SECOND < t[key].expiresAt && now / SECOND >= t[key].lastSeenAt + 3600 ==>
              var moved := Session(t[key].owner, t[key].createdAt, now / SECOND, now / SECOND + 604_800);
              Resolved(t, key, now) == SignedIn(moved, true) && AfterRead(t, key, now) == t[key := moved]
  {
    if key in t {
      assert t[key := t[key]] == t;
    }
  }

  lemma CreatedExactly(t: Table, key: string, who: string, now: Instant)
    ensures key in t ==> Created(t, key, who, now) == t
    ensures key !in t ==>
              Created(t, key, who, now) == t[key := Session(who, now / SECOND, now / SECOND, now / SECOND + 604_800)]
  {
  }

  class SessionStore {
    var rows: Table

    constructor ()
      ensures rows == map[]
    {
      rows := map[];
    }

    method CreateSession(key: string, who: string, now: Instant) returns (ok: bool)
      modifies this
      ensures rows == Created(old(rows), key, who, now)
      ensures ok <==> key !in old(rows)
    {
      ok := key !in rows;
      if ok {
        rows := rows[key := Session(who, Unix(now), Unix(now), Unix(now) + LIFETIME)];
      }
    }

    method ReadSession(key: string, now: Instant) returns (answer: Answer)
      modifies this
      ensures answer == Resolved(old(rows), key, now)
      ensures rows == AfterRead(old(rows), key, now)
    {
      if key !in rows {
        return NotSignedIn;
      }
      var session := rows[key];
      var at := Unix(now);
      if at >= session.expiresAt {
        rows := rows - {key};
        return NotSignedIn;
      }
      if at - session.lastSeenAt >= REFRESH {
        session := session.(lastSeenAt := at, expiresAt := at + LIFETIME);
        rows := rows[key := session];
        return SignedIn(session, true);
      }
      return SignedIn(session, false);
    }

    /** DELETE … WHERE the row has expired, and how many rows that was. */
    method Sweep(now: Instant) returns (removed: nat)
      modifies this
      ensures forall key :: key in rows <==> key in old(rows) && Unix(now) < old(rows)[key].expiresAt
      ensures forall key :: key in rows ==> rows[key] == old(rows)[key]
      ensures rows == Swept(old(rows), now)
      ensures removed == |old(rows)| - |rows|
    {
      var expired := set key | key in rows && rows[key].expiresAt <= Unix(now);
      removed := |expired|;
      ghost var kept := rows - expired;
      assert rows.Keys - expired == kept.Keys;
      assert |rows.Keys - expired| == |rows.Keys| - |expired|;
      rows := rows - expired;
    }

    method DeleteSession(key: string)
      modifies this
      ensures rows == old(rows) - {key}
    {
      rows := rows - {key};
    }

    /** DELETE … WHERE the row is this account's. */
    method DeleteSessionsFor(who: string)
      modifies this
      ensures forall key :: key in rows <==> key in old(rows) && old(rows)[key].owner != who
      ensures forall key :: key in rows ==> rows[key] == old(rows)[key]
      ensures rows == Without(old(rows), who)
    {
      rows := rows - set key | key in rows && rows[key].owner == who;
    }
  }

  // ----- Runs -----

  datatype Event =
    | Create(now: Instant, key: string, who: string)
    | Read(now: Instant, key: string)
    | Sweep(now: Instant)
    | Delete(now: Instant, key: string)
    | DeleteFor(now: Instant, who: string)

  function Step(t: Table, e: Event): Table {
    match e
    case Create(now, key, who) => Created(t, key, who, now)
    case Read(now, key) => AfterRead(t, key, now)
    case Sweep(now) => Swept(t, now)
    case Delete(_, key) => t - {key}
    case DeleteFor(_, who) => Without(t, who)
  }

  ghost predicate ClockForward(e: seq<Event>) {
    forall i, j :: 0 <= i < j < |e| ==> e[i].now <= e[j].now
  }

  ghost predicate IsRun(s: seq<Table>, e: seq<Event>) {
    && |s| == |e| + 1
    && s[0] == map[]
    && ClockForward(e)
    && forall i :: 0 <= i < |e| ==> s[i + 1] == Step(s[i], e[i])
  }

  /** Every row expires one lifetime after it was last seen. */
  ghost predicate Sliding(t: Table) {
    forall key :: key in t ==> t[key].expiresAt == t[key].lastSeenAt + LIFETIME
  }

  lemma {:induction false} RowsSlide(s: seq<Table>, e: seq<Event>, k: nat)
    requires IsRun(s, e) && k < |s|
    ensures Sliding(s[k])
  {
    if k > 0 {
      RowsSlide(s, e, k - 1);
    }
  }

  /** A use of this session that worked: it was created, or a request with it was signed in. */
  predicate Uses(t: Table, e: Event, key: string) {
    || (e.Create? && e.key == key && key !in t)
    || (e.Read? && e.key == key && Resolved(t, key, e.now).SignedIn?)
  }

  /** Neither used nor ended by its owner. */
  predicate LeavesAlone(t: Table, e: Event, key: string) {
    && ((e.Create? || e.Read? || e.Delete?) ==> e.key != key)
    && (e.DeleteFor? ==> key !in t || t[key].owner != e.who)
  }

  /** Right after a use the row is there, seen within the throttle of it. */
  lemma UseKeepsRow(t: Table, e: Event, key: string)
    requires Sliding(t) && Uses(t, e, key)
    ensures var after := Step(t, e);
            && key in after
            && Unix(e.now) - REFRESH < after[key].lastSeenAt
            && after[key].expiresAt == after[key].lastSeenAt + LIFETIME
  {
  }

  /** Left alone, a row stays as it was or is swept once expired. */
  lemma {:induction false} RowWaits(s: seq<Table>, e: seq<Event>, key: string, i: nat, k: nat)
    requires IsRun(s, e) && i < k < |s| && key in s[i + 1]
    requires forall j :: i < j < k ==> LeavesAlone(s[j], e[j], key)
    ensures key in s[k] ==> s[k][key] == s[i + 1][key]
    ensures key !in s[k] ==> s[i + 1][key].expiresAt <= Unix(e[k - 1].now)
    decreases k
  {
    if k > i + 1 {
      RowWaits(s, e, key, i, k - 1);
      UnixMonotone(e[k - 2].now, e[k - 1].now);
    }
  }

  lemma {:induction false} SeenInThePast(s: seq<Table>, e: seq<Event>, k: nat, key: string)
    requires IsRun(s, e) && 0 < k < |s| && key in s[k]
    ensures s[k][key].lastSeenAt <= Unix(e[k - 1].now)
  {
    if key in s[k - 1] {
      if k > 1 {
        SeenInThePast(s, e, k - 1, key);
        UnixMonotone(e[k - 2].now, e[k - 1].now);
      }
    }
  }

  /** The throttled session keeps to an ideal one that slides on every use, to within the throttle: after a
      use at a, with nothing ending it, it is good at every t up to a lifetime less an hour after a, and at
      none from a lifetime after a on, whatever was swept meanwhile. */
  lemma WithinAnHourOfIdeal(s: seq<Table>, e: seq<Event>, key: string, i: nat, k: nat)
    requires IsRun(s, e) && i < k < |e| && Uses(s[i], e[i], key)
    requires forall j :: i < j < k ==> LeavesAlone(s[j], e[j], key)
    requires e[k] == Read(e[k].now, key)
    ensures e[k].now <= e[i].now + (LIFETIME - REFRESH) * SECOND ==> Resolved(s[k], key, e[k].now).SignedIn?
    ensures e[k].now >= e[i].now + LIFETIME * SECOND ==> Resolved(s[k], key, e[k].now).NotSignedIn?
  {
    var a, t := e[i].now, e[k].now;
    RowsSlide(s, e, i);
    UseKeepsRow(s[i], e[i], key);
    SeenInThePast(s, e, i + 1, key);
    RowWaits(s, e, key, i, k);
    UnixMonotone(e[k - 1].now, t);
    UnixShift(a, LIFETIME);
    UnixShift(a, LIFETIME - REFRESH);
    if t >= a + LIFETIME * SECOND {
      UnixMonotone(a + LIFETIME * SECOND, t);
    }
    if t <= a + (LIFETIME - REFRESH) * SECOND {
      UnixMonotone(t, a + (LIFETIME - REFRESH) * SECOND);
    }
  }

  lemma UnixShift(t: Instant, seconds: int)
    ensures Unix(t + seconds * SECOND) == Unix(t) + seconds
  {
  }

  /** A request that moved the expiry. */
  predicate Moves(t: Table, e: Event, key: string) {
    && e == Read(e.now, key)
    && Resolved(t, key, e.now).SignedIn?
    && Resolved(t, key, e.now).moved
  }

  /** No session is created under this key in steps i..k. */
  ghost predicate NotRecreated(e: seq<Event>, key: string, i: nat, k: nat) {
    forall j :: i <= j < k && j < |e| ==> !(e[j].Create? && e[j].key == key)
  }

  lemma {:induction false} LastSeenGrows(s: seq<Table>, e: seq<Event>, key: string, i: nat, k: nat)
    requires IsRun(s, e) && i < k < |s| && Moves(s[i], e[i], key) && NotRecreated(e, key, i, k)
    ensures key in s[k] ==> s[k][key].lastSeenAt >= Unix(e[i].now)
    decreases k
  {
    if k > i + 1 {
      LastSeenGrows(s, e, key, i, k - 1);
      UnixMonotone(e[i].now, e[k - 1].now);
    }
  }

  /** The cookie is re-issued at most once an hour, counted in whole seconds. */
  lemma MovesAreAnHourApart(s: seq<Table>, e: seq<Event>, key: string, i: nat, k: nat)
    requires IsRun(s, e) && i < k < |e| && NotRecreated(e, key, i, k)
    requires Moves(s[i], e[i], key) && Moves(s[k], e[k], key)
    ensures Unix(e[k].now) - Unix(e[i].now) >= REFRESH
    ensures e[k].now - e[i].now > (REFRESH - 1) * SECOND
  {
    LastSeenGrows(s, e, key, i, k);
    UnixRounds(e[i].now);
    UnixRounds(e[k].now);
  }

  // ----- Signing an account out -----

  ghost predicate HasNone(t: Table, who: string) {
    forall key :: key in t ==> t[key].owner != who
  }

  /** Once all of an account's sessions are ended, no request is signed in as that account until a new
      session is created for it. */
  lemma {:induction false} SignedOutStaysOut(s: seq<Table>, e: seq<Event>, who: string, i: nat, k: nat)
    requires IsRun(s, e) && i < k < |s| && e[i].DeleteFor? && e[i].who == who
    requires forall j :: i < j < k && e[j].Create? ==> e[j].who != who
    ensures HasNone(s[k], who)
    ensures forall key, now :: Resolved(s[k], key, now).SignedIn? ==> Resolved(s[k], key, now).session.owner != who
    decreases k
  {
    if k > i + 1 {
      SignedOutStaysOut(s, e, who, i, k - 1);
    }
  }

  // ----- The sweep -----

  /** The same requests with every sweep left out. */
  ghost predicate IsUnswept(u: seq<Table>, e: seq<Event>) {
    && |u| == |e| + 1
    && u[0] == map[]
    && forall i :: 0 <= i < |e| ==> u[i + 1] == if e[i].Sweep? then u[i] else Step(u[i], e[i])
  }

  /** Swept and unswept rows differ only in rows that had expired by then. */
  ghost predicate DiffersByExpired(t: Table, u: Table, at: int) {
    && (forall key :: key in t ==> key in u && u[key] == t[key])
    && (forall key :: key in u && key !in t ==> u[key].expiresAt <= at)
  }

  lemma SweepStep(t: Table, u: Table, e: Event, at: int)
    requires DiffersByExpired(t, u, at) && at <= Unix(e.now)
    requires e.Create? ==> e.key !in u
    ensures DiffersByExpired(Step(t, e), if e.Sweep? then u else Step(u, e), Unix(e.now))
    ensures e.Read? ==> Resolved(t, e.key, e.now) == Resolved(u, e.key, e.now)
  {
  }

  lemma {:induction false} SweptDiffersByExpired(s: seq<Table>, u: seq<Table>, e: seq<Event>, k: nat)
    requires IsRun(s, e) && IsUnswept(u, e) && k < |s|
    requires forall i :: 0 <= i < |e| && e[i].Create? ==> e[i].key !in u[i]
    ensures DiffersByExpired(s[k], u[k], if k == 0 then 0 else Unix(e[k - 1].now))
  {
    if k > 0 {
      SweptDiffersByExpired(s, u, e, k - 1);
      if k > 1 {
        UnixMonotone(e[k - 2].now, e[k - 1].now);
      } else {
        assert DiffersByExpired(s[0], u[0], Unix(e[0].now));
      }
      SweepStep(s[k - 1], u[k - 1], e[k - 1], if k > 1 then Unix(e[k - 2].now) else Unix(e[0].now));
    }
  }

  /** Running the sweep, at any moments at all, changes no answer anybody gets. */
  lemma SweepIsInvisible(s: seq<Table>, u: seq<Table>, e: seq<Event>, k: nat)
    requires IsRun(s, e) && IsUnswept(u, e) && k < |e| && e[k].Read?
    requires forall i :: 0 <= i < |e| && e[i].Create? ==> e[i].key !in u[i]
    ensures Resolved(s[k], e[k].key, e[k].now) == Resolved(u[k], e[k].key, e[k].now)
  {
    SweptDiffersByExpired(s, u, e, k);
    if k == 0 {
    } else {
      UnixMonotone(e[k - 1].now, e[k].now);
      SweepStep(s[k], u[k], e[k], Unix(e[k - 1].now));
    }
  }
}
