/** The rows the scheduler reads and writes, and what each of its acts does to them, as functions.
    main.db holds rhythms and reminders; derived.db, which may be deleted, the pending rows and the log. */
module Tables {
  import opened Clock
  import opened Rhythms
  import opened Picks
  import opened Orders

  /** Times in columns are whole seconds. */
  datatype Reminder = Reminder(
    id: string,
    owner: string,
    priority: int,
    minInterval: int,
    doneAt: Option<int>,
    lastNudged: Option<int>)

  datatype Nudge = Nudge(id: string, owner: string, reminder: string, sentAt: int)

  datatype Db = Db(
    rhythms: map<string, Rhythm>,
    reminders: seq<Reminder>,
    pending: map<string, int>,
    nudges: seq<Nudge>)

  // ----- Reads -----

  function RhythmOf(db: Db, who: string): Rhythm {
    if who in db.rhythms then db.rhythms[who] else DEFAULT
  }

  /** max(sent_at) over one account's log. */
  function LastSent(log: seq<Nudge>, who: string): Option<int> {
    if |log| == 0 then None
    else
      var rest, n := LastSent(log[..|log| - 1], who), log[|log| - 1];
      if n.owner != who || (rest.Some? && rest.value >= n.sentAt) then rest else Some(n.sentAt)
  }

  function LastNudgeAt(db: Db, who: string): Option<Instant> {
    var at := LastSent(db.nudges, who);
    if at.None? then None else Some(FromUnix(at.value))
  }

  /** The log's order: by when it was sent, ties by id. */
  predicate SortsAfter(n: Nudge, m: Nudge) {
    n.sentAt > m.sentAt || (n.sentAt == m.sentAt && Below(m.id, n.id))
  }

  /** The first row of one account's log in descending order. */
  function Latest(log: seq<Nudge>, who: string): Option<Nudge> {
    if |log| == 0 then None
    else
      var rest, n := Latest(log[..|log| - 1], who), log[|log| - 1];
      if n.owner != who || (rest.Some? && !SortsAfter(n, rest.value)) then rest else Some(n)
  }

  function LastReminder(log: seq<Nudge>, who: string): string {
    var n := Latest(log, who);
    if n.None? then "" else n.value.reminder
  }

  predicate Offered(r: Reminder, who: string, now: Instant, floor: bool) {
    && r.owner == who
    && r.doneAt.None?
    && r.priority > 0
    && (floor ==> r.lastNudged.None? || r.lastNudged.value + r.minInterval <= Unix(now))
  }

  function AsCandidate(r: Reminder): Candidate {
    Candidate(r.id, r.priority, r.minInterval * SECOND,
              if r.lastNudged.None? then None else Some(FromUnix(r.lastNudged.value)))
  }

  function Candidates(rows: seq<Reminder>, who: string, now: Instant, floor: bool): seq<Candidate> {
    if |rows| == 0 then []
    else
      var rest, r := Candidates(rows[..|rows| - 1], who, now, floor), rows[|rows| - 1];
      if Offered(r, who, now, floor) then rest + [AsCandidate(r)] else rest
  }

  /** In the rows' own terms: the person's own, not ended, not silenced, past its floor when floors count, and
      read with its times in nanoseconds. */
  predicate MayCarry(r: Reminder, c: Candidate, who: string, now: Instant, floor: bool) {
    && r.owner == who
    && r.doneAt == None
    && r.priority > 0
    && (floor && r.lastNudged.Some? ==> r.lastNudged.value + r.minInterval <= now / SECOND)
    && c.id == r.id && c.priority == r.priority && c.minInterval == r.minInterval * SECOND
    && (c.lastNudged.Some? <==> r.lastNudged.Some?)
    && (c.lastNudged.Some? ==> c.lastNudged.value == r.lastNudged.value * SECOND)
  }

  lemma OfferedMeans(rows: seq<Reminder>, who: string, now: Instant, floor: bool, c: Candidate)
    ensures forall i :: 0 <= i < |rows| ==>
              (Offered(rows[i], who, now, floor) && AsCandidate(rows[i]) == c <==> MayCarry(rows[i], c, who, now, floor))
  {
  }

  lemma {:induction false} CandidatesAreOffered(rows: seq<Reminder>, who: string, now: Instant, floor: bool, c: Candidate)
    ensures c in Candidates(rows, who, now, floor) <==>
            exists i :: 0 <= i < |rows| && Offered(rows[i], who, now, floor) && AsCandidate(rows[i]) == c
    ensures c in Candidates(rows, who, now, floor) <==>
            exists i :: 0 <= i < |rows| && MayCarry(rows[i], c, who, now, floor)
  {
    OfferedMeans(rows, who, now, floor, c);
    if |rows| > 0 {
      CandidatesAreOffered(rows[..|rows| - 1], who, now, floor, c);
      var last := rows[|rows| - 1];
      if Offered(last, who, now, floor) && AsCandidate(last) == c {
        assert rows[|rows| - 1] == last;
      }
      forall i | 0 <= i < |rows| - 1 ensures rows[i] == rows[..|rows| - 1][i] {
      }
    }
  }

  // ----- Writes -----

  function Schedule(db: Db, who: string, at: Instant): Db {
    db.(pending := db.pending[who := Unix(at)])
  }

  predicate Claimable(db: Db, who: string, now: Instant) {
    who in db.pending && db.pending[who] <= Unix(now)
  }

  function Unschedule(db: Db, who: string): Db {
    db.(pending := db.pending - {who})
  }

  function Stamped(rows: seq<Reminder>, id: string, at: int): seq<Reminder> {
    seq(|rows|, i requires 0 <= i < |rows| =>
      if rows[i].id == id then rows[i].(lastNudged := Some(at)) else rows[i])
  }

  predicate Logged(log: seq<Nudge>, id: string) {
    exists i :: 0 <= i < |log| && log[i].id == id
  }

  /** How far the two writes of one recording got. They are in two databases and in no transaction. */
  datatype Writes = Both | LogOnly | Neither

  /** Logging a delivery and stamping its reminder. An id already in the log is a key conflict. */
  function Record(db: Db, n: Nudge, writes: Writes): Db {
    if writes.Neither? || Logged(db.nudges, n.id) then db
    else
      var logged := db.(nudges := db.nudges + [n]);
      if writes.LogOnly? then logged
      else logged.(reminders := Stamped(db.reminders, n.reminder, n.sentAt))
  }

  function SetRhythm(db: Db, who: string, r: Rhythm): Db {
    if Rhythms.Valid(r) then db.(rhythms := db.rhythms[who := r]) else db
  }

  // ----- One delivery -----

  datatype PushResult = Accepted | Gone | Failed

  datatype Outcome = Sent | NothingToSend | Undelivered

  /** Everything one delivery is told by the world: the clock as it starts and as it records, the id it
      minted, what the generator drew, what each device's push service answered, how far recording got. */
  datatype Delivery = Delivery(
    at: Instant,
    id: string,
    draw: Draw,
    results: seq<PushResult>,
    recordedAt: Instant,
    writes: Writes)

  function AcceptedBy(results: seq<PushResult>): nat {
    if |results| == 0 then 0
    else AcceptedBy(results[..|results| - 1]) + if results[|results| - 1].Accepted? then 1 else 0
  }

  /** Devices that are gone and devices that failed do not count. */
  lemma {:induction false} AcceptedAreCounted(results: seq<PushResult>)
    ensures AcceptedBy(results) == |set i | 0 <= i < |results| && results[i].Accepted?|
    ensures AcceptedBy(results) > 0 <==> exists i :: 0 <= i < |results| && results[i].Accepted?
  {
    var accepted := set i | 0 <= i < |results| && results[i].Accepted?;
    if |results| == 0 {
      assert accepted == {};
    } else {
      var n := |results| - 1;
      var front := set i | 0 <= i < n && results[..n][i].Accepted?;
      AcceptedAreCounted(results[..n]);
      assert accepted == if results[n].Accepted? then front + {n} else front;
      if i :| 0 <= i < |results| && results[i].Accepted? {
        assert i < n ==> results[..n][i].Accepted?;
      }
    }
  }

  /** The reminder a delivery would carry. */
  function Choice(db: Db, who: string, floor: bool, d: Delivery): Option<Candidate> {
    Chosen(Candidates(db.reminders, who, d.at, floor), d.at, LastReminder(db.nudges, who), d.draw)
  }

  function DeliverOutcome(db: Db, who: string, floor: bool, d: Delivery): Outcome {
    if Choice(db, who, floor, d).None? then NothingToSend
    else if AcceptedBy(d.results) == 0 then Undelivered
    else Sent
  }

  function Deliver(db: Db, who: string, floor: bool, d: Delivery): Db {
    if DeliverOutcome(db, who, floor, d) != Sent then db
    else Record(db, Nudge(d.id, who, Choice(db, who, floor, d).value.id, Unix(d.recordedAt)), d.writes)
  }

  // ----- The scheduling decision for one person -----

  /** Nothing waits and somebody is owed a nudge, so one is scheduled. */
  predicate Decides(db: Db, who: string, now: Instant) {
    && who !in db.pending
    && Due(RhythmOf(db, who), Since(RhythmOf(db, who), LastNudgeAt(db, who), now), now)
  }

  /** The moment of a waiting nudge has come and the person is awake, so it is claimed and delivered. */
  predicate Fires(db: Db, who: string, now: Instant) {
    Claimable(db, who, now) && Awake(RhythmOf(db, who), now)
  }

  function Consider(db: Db, who: string, now: Instant, delay: Duration, d: Delivery): Db {
    if Fires(db, who, now) then Deliver(Unschedule(db, who), who, true, d)
    else if Claimable(db, who, now) then Unschedule(db, who)
    else if Decides(db, who, now) then Schedule(db, who, now + delay)
    else db
  }

  /** One pass: the same instant for everybody, one after another. */
  function PassOver(db: Db, people: seq<string>, now: Instant, delays: seq<Duration>, ds: seq<Delivery>): Db
    requires |people| == |delays| == |ds|
  {
    if |people| == 0 then db
    else
      var n := |people| - 1;
      Consider(PassOver(db, people[..n], now, delays[..n], ds[..n]), people[n], now, delays[n], ds[n])
  }
}
