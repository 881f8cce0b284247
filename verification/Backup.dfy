/** When a copy of the databases goes to the backup agent, and what is remembered of it. */
module Backups {
  import opened Clock

  type Digest = string

  datatype Mode = MainOnly | Relaxed | All

  function CarriesDerived(mode: Mode): bool {
    !mode.MainOnly?
  }

  /** The longest silence a mode allows; zero allows any. */
  function Period(mode: Mode): Duration {
    if mode.All? then 30 * MINUTE else 0
  }

  /** The single remembered row: main.db's digest as last recorded, and when, in seconds. */
  datatype Memory = Memory(digest: Digest, at: int)

  datatype Archive = Archive(main: string, carriesDerived: bool, takenAt: Instant)

  /** What btw remembers, and the series the agent has accepted. */
  datatype State = State(remembered: Option<Memory>, accepted: seq<Archive>)

  const START := State(None, [])

  /** How far a pass that has something to send gets: it fails before the upload or the agent refuses it, it
      is accepted and then never recorded, or it goes all the way. */
  datatype Reach = NotAccepted | AcceptedOnly | Through

  /** One pass. main.db may be written between its two snapshots; `probe` and `built` are what they saw. A
      pass whose first reads fail is no pass at all. */
  datatype Pass = Pass(now: Instant, probe: string, built: string, reach: Reach)

  predicate Changed(st: State, digestOf: string -> Digest, p: Pass) {
    st.remembered.None? || st.remembered.value.digest != digestOf(p.probe)
  }

  predicate FloorDue(st: State, mode: Mode, p: Pass) {
    Period(mode) > 0 && st.remembered.Some? && p.now - FromUnix(st.remembered.value.at) >= Period(mode)
  }

  predicate Sends(st: State, mode: Mode, digestOf: string -> Digest, p: Pass) {
    Changed(st, digestOf, p) || FloorDue(st, mode, p)
  }

  predicate Uploads(st: State, mode: Mode, digestOf: string -> Digest, p: Pass) {
    Sends(st, mode, digestOf, p) && !p.reach.NotAccepted?
  }

  /** The pass reports success. */
  predicate Succeeds(st: State, mode: Mode, digestOf: string -> Digest, p: Pass) {
    Sends(st, mode, digestOf, p) ==> p.reach.Through?
  }

  function Once(st: State, mode: Mode, digestOf: string -> Digest, p: Pass): State {
    if !Uploads(st, mode, digestOf, p) then st
    else
      State(if p.reach.Through? then Some(Memory(digestOf(p.built), Unix(p.now))) else st.remembered,
            st.accepted + [Archive(p.built, CarriesDerived(mode), p.now)])
  }

  // ----- One archive -----

  datatype File = File(name: string, data: string)

  const MAIN_FILE := "main.db"
  const DERIVED_FILE := "derived.db"

  /** The databases, consistently: main.db first, and derived.db only when asked for. */
  function Snapshot(main: string, derived: string, carriesDerived: bool): seq<File> {
    [File(MAIN_FILE, main)] + if carriesDerived then [File(DERIVED_FILE, derived)] else []
  }

  /** The digest an archive of these files carries. */
  function DigestIn(files: seq<File>, digestOf: string -> Digest): Option<Digest> {
    if |files| == 0 then None
    else if files[|files| - 1].name == MAIN_FILE then Some(digestOf(files[|files| - 1].data))
    else DigestIn(files[..|files| - 1], digestOf)
  }

  method Build(files: seq<File>, digestOf: string -> Digest) returns (body: seq<File>, digest: Option<Digest>)
    ensures digest == DigestIn(files, digestOf)
    ensures body == files
  {
    body, digest := [], None;
    for i := 0 to |files|
      invariant body == files[..i] && digest == DigestIn(files[..i], digestOf)
    {
      assert files[..i + 1][..i] == files[..i];
      if files[i].name == MAIN_FILE {
        digest := Some(digestOf(files[i].data));
      }
      body := body + [files[i]];
    }
    assert files[..|files|] == files;
  }

  /** A snapshot holds main.db, and derived.db only when asked for; and an archive of it is known by main.db and
      nothing else. */
  lemma DigestIsOfMain(main: string, derived: string, carriesDerived: bool, digestOf: string -> Digest)
    ensures forall f :: f in Snapshot(main, derived, carriesDerived) <==>
              f == File("main.db", main) || (carriesDerived && f == File("derived.db", derived))
    ensures |Snapshot(main, derived, carriesDerived)| == if carriesDerived then 2 else 1
    ensures DigestIn(Snapshot(main, derived, carriesDerived), digestOf) == Some(digestOf(main))
  {
    var files := Snapshot(main, derived, carriesDerived);
    if carriesDerived {
      assert files[..1] == [File(MAIN_FILE, main)];
      assert files[1].name[0] != MAIN_FILE[0];
    }
  }

  // ----- One pass -----

  class Pusher {
    var remembered: Option<Memory>
    ghost var accepted: seq<Archive>
    const mode: Mode
    const digestOf: string -> Digest

    constructor (mode: Mode, digestOf: string -> Digest)
      ensures this.mode == mode && this.digestOf == digestOf && Contents() == START
    {
      this.mode, this.digestOf := mode, digestOf;
      remembered, accepted := None, [];
    }

    ghost function Contents(): State
      reads this
    {
      State(remembered, accepted)
    }

    method RunOnce(p: Pass) returns (ok: bool)
      modifies this
      ensures Contents() == Once(old(Contents()), mode, digestOf, p)
      ensures ok <==> Succeeds(old(Contents()), mode, digestOf, p)
    {
      var changed := remembered.None? || remembered.value.digest != digestOf(p.probe);
      var period := Period(mode);
      var due := period > 0 && remembered.Some? && p.now - FromUnix(remembered.value.at) >= period;
      if !changed && !due {
        return true;
      }
      if p.reach.NotAccepted? {
        return false;
      }
      accepted := accepted + [Archive(p.built, CarriesDerived(mode), p.now)];
      if p.reach.AcceptedOnly? {
        return false;
      }
      remembered := Some(Memory(digestOf(p.built), Unix(p.now)));
      return true;
    }
  }

  // ----- Runs -----

  /** A pass of the loop, or derived.db, where the memory lives, being lost. */
  datatype Event = Look(pass: Pass) | LoseDerived

  function Step(st: State, mode: Mode, digestOf: string -> Digest, e: Event): State {
    match e
    case Look(p) => Once(st, mode, digestOf, p)
    case LoseDerived => st.(remembered := None)
  }

  /** Any stretch of a run, from any state. */
  ghost predicate IsStretch(s: seq<State>, e: seq<Event>, mode: Mode, digestOf: string -> Digest) {
    && |s| == |e| + 1
    && forall i :: 0 <= i < |e| ==> s[i + 1] == Step(s[i], mode, digestOf, e[i])
  }

  ghost predicate IsRun(s: seq<State>, e: seq<Event>, mode: Mode, digestOf: string -> Digest) {
    IsStretch(s, e, mode, digestOf) && s[0] == START
  }

  ghost predicate Injective(digestOf: string -> Digest) {
    forall a: string, b: string :: digestOf(a) == digestOf(b) ==> a == b
  }

  /** What is remembered is the digest of something the agent accepted, at the time it was taken. */
  ghost predicate MemoryIsTrue(st: State, digestOf: string -> Digest) {
    st.remembered.Some? ==>
      exists a :: a in st.accepted && digestOf(a.main) == st.remembered.value.digest && Unix(a.takenAt) == st.remembered.value.at
  }

  /** Across rejections, crashes at any point and losses of derived.db. */
  lemma {:induction false} RememberedWasAccepted(s: seq<State>, e: seq<Event>, mode: Mode, digestOf: string -> Digest, k: nat)
    requires IsRun(s, e, mode, digestOf) && k < |s|
    ensures MemoryIsTrue(s[k], digestOf)
  {
    if k > 0 {
      RememberedWasAccepted(s, e, mode, digestOf, k - 1);
      assert s[k] == Step(s[k - 1], mode, digestOf, e[k - 1]);
      if s[k].remembered.Some? && s[k].remembered == s[k - 1].remembered {
        var a :| a in s[k - 1].accepted && digestOf(a.main) == s[k - 1].remembered.value.digest && Unix(a.takenAt) == s[k - 1].remembered.value.at;
        assert a in s[k].accepted;
      } else if s[k].remembered.Some? {
        var a := s[k].accepted[|s[k].accepted| - 1];
        assert a in s[k].accepted;
      }
    }
  }

  /** Whenever a pass succeeds the accepted series holds main.db as that pass saw it: as it built it, if it had
      something to send, and as it probed it otherwise. */
  lemma SuccessMeansThereIsACopy(s: seq<State>, e: seq<Event>, mode: Mode, digestOf: string -> Digest, k: nat)
    requires IsRun(s, e, mode, digestOf) && Injective(digestOf) && k < |e| && e[k].Look?
    requires Succeeds(s[k], mode, digestOf, e[k].pass)
    ensures exists a :: a in s[k + 1].accepted
              && a.main == if Sends(s[k], mode, digestOf, e[k].pass) then e[k].pass.built else e[k].pass.probe
  {
    assert s[k + 1] == Step(s[k], mode, digestOf, e[k]);
    RememberedWasAccepted(s, e, mode, digestOf, k);
    if Sends(s[k], mode, digestOf, e[k].pass) {
      var a := s[k + 1].accepted[|s[k + 1].accepted| - 1];
      assert a in s[k + 1].accepted;
    } else {
      var a :| a in s[k].accepted && digestOf(a.main) == s[k].remembered.value.digest;
      assert a in s[k + 1].accepted;
    }
  }

  /** Every archive the agent has accepted carries derived.db if and only if the mode is not main only. */
  lemma {:induction false} ArchivesCarryDerived(s: seq<State>, e: seq<Event>, mode: Mode, digestOf: string -> Digest, k: nat)
    requires IsRun(s, e, mode, digestOf) && k < |s|
    ensures forall a :: a in s[k].accepted ==> (a.carriesDerived <==> mode != MainOnly)
  {
    if k > 0 {
      ArchivesCarryDerived(s, e, mode, digestOf, k - 1);
      assert s[k] == Step(s[k - 1], mode, digestOf, e[k - 1]);
    }
  }

  /** What one pass sends and remembers. It sends when nothing is remembered, or main.db differs from what is, or
      in the mode for everything half an hour has gone by; and what was accepted is what it built. */
  lemma OnceExactly(st: State, mode: Mode, digestOf: string -> Digest, p: Pass)
    ensures var m := st.remembered;
            var due := m.None? || m.value.digest != digestOf(p.probe)
                       || (mode == All && p.now - m.value.at * SECOND >= 1800 * SECOND);
            var after := Once(st, mode, digestOf, p);
            && (Succeeds(st, mode, digestOf, p) <==> !due || p.reach == Through)
            && (!due || p.reach == NotAccepted ==> after == st)
            && (due && p.reach != NotAccepted ==>
                  && after.accepted == st.accepted + [Archive(p.built, mode != MainOnly, p.now)]
                  && after.remembered == if p.reach == Through then Some(Memory(digestOf(p.built), p.now / SECOND)) else m)
  {
  }

  // ----- Quiet instances -----

  /** main.db is no longer written, derived.db is kept, and nothing accepted goes unrecorded. */
  ghost predicate Quiet(e: seq<Event>, main: string) {
    forall i :: 0 <= i < |e| ==>
      e[i].Look? && e[i].pass.probe == main && e[i].pass.built == main && !e[i].pass.reach.AcceptedOnly?
  }

  /** In the modes without a floor a quiet instance sends at most once more, and once it has, never again. */
  lemma {:induction false} QuietInstanceSendsOnce(s: seq<State>, e: seq<Event>, mode: Mode, digestOf: string -> Digest, main: string, k: nat)
    requires IsStretch(s, e, mode, digestOf) && Quiet(e, main) && !mode.All? && k < |s|
    ensures |s[0].accepted| <= |s[k].accepted| <= |s[0].accepted| + 1
    ensures |s[k].accepted| > |s[0].accepted| ==> s[k].remembered.Some? && s[k].remembered.value.digest == digestOf(main)
  {
    if k > 0 {
      QuietInstanceSendsOnce(s, e, mode, digestOf, main, k - 1);
      assert s[k] == Step(s[k - 1], mode, digestOf, e[k - 1]);
    }
  }

  // ----- With crashes and losses -----

  /** main.db is no longer written; anything else may happen. */
  ghost predicate Unwritten(e: seq<Event>, main: string) {
    forall i :: 0 <= i < |e| && e[i].Look? ==> e[i].pass.probe == main && e[i].pass.built == main
  }

  /** A copy is accepted and never recorded, or the record is lost. */
  predicate SetsBack(st: State, mode: Mode, digestOf: string -> Digest, e: Event) {
    e.LoseDerived? || (Uploads(st, mode, digestOf, e.pass) && e.pass.reach.AcceptedOnly?)
  }

  ghost function Setbacks(s: seq<State>, e: seq<Event>, mode: Mode, digestOf: string -> Digest, k: nat): nat
    requires |s| == |e| + 1 && k <= |e|
  {
    if k == 0 then 0
    else Setbacks(s, e, mode, digestOf, k - 1) + if SetsBack(s[k - 1], mode, digestOf, e[k - 1]) then 1 else 0
  }

  predicate Remembers(st: State, digest: Digest) {
    st.remembered.Some? && st.remembered.value.digest == digest
  }

  /** Crashes and losses and all: once main.db is no longer written, the modes without a floor send at most once
      for every setback, and once more if what it holds was not remembered to begin with. */
  lemma {:induction false} UploadsArePaidFor(s: seq<State>, e: seq<Event>, mode: Mode, digestOf: string -> Digest, main: string, k: nat)
    requires IsStretch(s, e, mode, digestOf) && Unwritten(e, main) && !mode.All? && k < |s|
    ensures |s[k].accepted| + (if Remembers(s[0], digestOf(main)) then 1 else 0)
            <= |s[0].accepted| + Setbacks(s, e, mode, digestOf, k) + if Remembers(s[k], digestOf(main)) then 1 else 0
  {
    if k > 0 {
      UploadsArePaidFor(s, e, mode, digestOf, main, k - 1);
      assert s[k] == Step(s[k - 1], mode, digestOf, e[k - 1]);
    }
  }

  /** No pass records anything in steps i..k. */
  ghost predicate NothingRecorded(s: seq<State>, e: seq<Event>, mode: Mode, digestOf: string -> Digest, i: nat, k: nat)
    requires |s| == |e| + 1
  {
    forall j :: i <= j < k && j < |e| && e[j].Look? ==> !(Uploads(s[j], mode, digestOf, e[j].pass) && e[j].pass.reach.Through?)
  }

  lemma {:induction false} MemoryIsNotRenewed(s: seq<State>, e: seq<Event>, mode: Mode, digestOf: string -> Digest, i: nat, k: nat)
    requires IsStretch(s, e, mode, digestOf) && i <= k < |s| && NothingRecorded(s, e, mode, digestOf, i, k)
    ensures s[k].remembered == s[i].remembered || s[k].remembered.None?
    decreases k
  {
    if i < k {
      MemoryIsNotRenewed(s, e, mode, digestOf, i, k - 1);
      assert s[k] == Step(s[k - 1], mode, digestOf, e[k - 1]);
    }
  }

  /** A copy that was accepted and never recorded is sent again by every later pass that finds main.db as it was,
      until one is recorded: made twice, never missed. */
  lemma UnrecordedCopyIsSentAgain(s: seq<State>, e: seq<Event>, mode: Mode, digestOf: string -> Digest, i: nat, k: nat)
    requires IsStretch(s, e, mode, digestOf) && i < k < |e| && e[i].Look? && e[k].Look?
    requires Uploads(s[i], mode, digestOf, e[i].pass) && e[i].pass.reach.AcceptedOnly?
    requires NothingRecorded(s, e, mode, digestOf, i, k)
    requires e[k].pass.probe == e[i].pass.probe && e[k].pass.now >= e[i].pass.now
    ensures Sends(s[k], mode, digestOf, e[k].pass)
  {
    MemoryIsNotRenewed(s, e, mode, digestOf, i, k);
  }

  // ----- The heartbeat -----

  /** Passes that all succeed, in order and at most `look` apart. */
  ghost predicate Beating(s: seq<State>, e: seq<Event>, mode: Mode, digestOf: string -> Digest, look: Duration) {
    && IsStretch(s, e, mode, digestOf)
    && (forall i :: 0 <= i < |e| ==> e[i].Look? && Succeeds(s[i], mode, digestOf, e[i].pass))
    && (forall i :: 0 <= i < |e| - 1 ==> e[i].pass.now <= e[i + 1].pass.now <= e[i].pass.now + look)
  }

  lemma {:induction false} MemoryStands(s: seq<State>, e: seq<Event>, mode: Mode, digestOf: string -> Digest, look: Duration, i: nat, k: nat)
    requires Beating(s, e, mode, digestOf, look) && i < k < |s|
    requires Uploads(s[i], mode, digestOf, e[i].pass)
    requires forall j :: i < j < k ==> !Uploads(s[j], mode, digestOf, e[j].pass)
    ensures s[k].remembered.Some? && s[k].remembered.value.at == Unix(e[i].pass.now)
    decreases k
  {
    assert s[k] == Step(s[k - 1], mode, digestOf, e[k - 1]);
    if k > i + 1 {
      MemoryStands(s, e, mode, digestOf, look, i, k - 1);
    }
  }

  /** In the mode with a floor, passes that keep succeeding never leave two copies further apart than the
      period and one look: with none sent after step i, no pass runs later than that. */
  lemma CopiesKeepComing(s: seq<State>, e: seq<Event>, digestOf: string -> Digest, look: Duration, i: nat, k: nat)
    requires Beating(s, e, All, digestOf, look) && i < k < |e|
    requires Uploads(s[i], All, digestOf, e[i].pass)
    requires forall j :: i < j < k ==> !Uploads(s[j], All, digestOf, e[j].pass)
    ensures e[k].pass.now < e[i].pass.now + 30 * MINUTE + look
  {
    if k > i + 1 {
      MemoryStands(s, e, All, digestOf, look, i, k - 1);
      UnixRounds(e[i].pass.now);
      assert Succeeds(s[k - 1], All, digestOf, e[k - 1].pass);
    }
  }
}
