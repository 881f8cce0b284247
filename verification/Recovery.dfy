/** Proving a recovery address with a mailed code: five guesses, fifteen minutes, one attempt at a time. */
module Recovery {
  import opened Clock
  import opened Codes

  const CODE_LIFETIME := 15 * 60
  const CODE_ATTEMPTS := 5

  type Digest = seq<bv8>

  datatype Attempt = Attempt(email: string, codeHash: Digest, attempts: int, expiresAt: int)

  datatype Address = Address(email: string, provedAt: int)

  datatype Books = Books(pending: map<string, Attempt>, proved: map<string, Address>)

  /** How SQLite compares addresses: ASCII letters without their case. */
  function Lower(s: string): string {
    seq(|s|, i requires 0 <= i < |s| => if 'A' <= s[i] <= 'Z' then (s[i] as int + 32) as char else s[i])
  }

  // ----- One call -----

  /** `parsed` is the address as read, or none when it is not one. */
  function Started(b: Books, who: string, parsed: Option<string>, codeHash: Digest, now: Instant): Books {
    if parsed.None? then b
    else b.(pending := b.pending[who := Attempt(parsed.value, codeHash, 0, Unix(now) + CODE_LIFETIME)])
  }

  function Dropped(b: Books, who: string): Books {
    b.(pending := b.pending - {who})
  }

  /** Two deletes and no transaction: the second may not happen. */
  function Forgotten(b: Books, who: string, completes: bool): Books {
    var gone := b.(proved := b.proved - {who});
    if completes then Dropped(gone, who) else gone
  }

  /** A guess is compared with the code only while the attempt is live. */
  predicate Compares(b: Books, who: string, now: Instant) {
    && who in b.pending
    && Unix(now) < b.pending[who].expiresAt
    && b.pending[who].attempts < CODE_ATTEMPTS
  }

  predicate Accepts(b: Books, who: string, guess: Digest, now: Instant) {
    Compares(b, who, now) && guess == b.pending[who].codeHash
  }

  function Guessed(b: Books, who: string): Books
    requires who in b.pending
  {
    var a := b.pending[who];
    if a.attempts + 1 >= CODE_ATTEMPTS then Dropped(b, who)
    else b.(pending := b.pending[who := a.(attempts := a.attempts + 1)])
  }

  /** The address moves to the account that has just proved it. */
  function Proved(b: Books, who: string, now: Instant): Books
    requires who in b.pending
  {
    var email := b.pending[who].email;
    Books(b.pending - {who},
          (map p | p in b.proved && !(Lower(b.proved[p].email) == Lower(email) && p != who) :: b.proved[p])
          [who := Address(email, Unix(now))])
  }

  function Confirmed(b: Books, who: string, guess: Digest, now: Instant): Books {
    if !Compares(b, who, now) then b
    else if guess == b.pending[who].codeHash then Proved(b, who, now)
    else Guessed(b, who)
  }

  // ----- In the rows' own terms -----

  lemma LowerExactly(s: string, i: nat)
    requires i < |s|
    ensures |Lower(s)| == |s|
    ensures Lower(s)[i] == if 65 <= s[i] as int <= 90 then (s[i] as int + 32) as char else s[i]
  {
  }

  /** An attempt is written over any other, with no guesses used and fifteen minutes to go. */
  lemma StartedExactly(b: Books, who: string, parsed: Option<string>, codeHash: Digest, now: Instant)
    ensures parsed.None? ==> Started(b, who, parsed, codeHash, now) == b
    ensures parsed.Some? ==>
              Started(b, who, parsed, codeHash, now) ==
              Books(b.pending[who := Attempt(parsed.value, codeHash, 0, now / SECOND + 900)], b.proved)
  {
  }

  /** What a confirmation changes. With no attempt, or one past its time or with five guesses used, nothing. A
      wrong guess is counted, and the fifth ends the attempt. The right one ends it and gives the account the
      address, and takes that address, in whatever case, from whoever else held it; and nobody else's. */
  lemma ConfirmedExactly(b: Books, who: string, guess: Digest, now: Instant)
    ensures var live := who in b.pending && now / SECOND < b.pending[who].expiresAt && b.pending[who].attempts < 5;
            var after := Confirmed(b, who, guess, now);
            && (!live ==> after == b)
            && (live && guess != b.pending[who].codeHash ==>
                  && after.proved == b.proved
                  && after.pending == if b.pending[who].attempts < 4
                                      then b.pending[who := b.pending[who].(attempts := b.pending[who].attempts + 1)]
                                      else b.pending - {who})
            && (live && guess == b.pending[who].codeHash ==>
                  && after.pending == b.pending - {who}
                  && who in after.proved && after.proved[who] == Address(b.pending[who].email, now / SECOND)
                  && forall p :: p != who ==>
                       && (p in after.proved <==> p in b.proved && Lower(b.proved[p].email) != Lower(b.pending[who].email))
                       && (p in after.proved ==> after.proved[p] == b.proved[p]))
  {
  }

  /** Equality that takes as long whichever byte differs. */
  method EqualHash(a: Digest, b: Digest) returns (same: bool)
    ensures same <==> a == b
  {
    if |a| != |b| {
      return false;
    }
    var diff: bv8 := 0;
    for i := 0 to |a|
      invariant diff == 0 <==> a[..i] == b[..i]
    {
      OrOfXor(diff, a[i], b[i]);
      diff := diff | (a[i] ^ b[i]);
      assert a[..i + 1] == a[..i] + [a[i]] && b[..i + 1] == b[..i] + [b[i]];
    }
    assert a[..|a|] == a && b[..|b|] == b;
    return diff == 0;
  }

  lemma OrOfXor(d: bv8, x: bv8, y: bv8)
    ensures d | (x ^ y) == 0 <==> d == 0 && x == y
  {
  }

  class RecoveryStore {
    var pending: map<string, Attempt>
    var proved: map<string, Address>
    const hash: string -> Digest

    constructor (hash: string -> Digest)
      ensures this.hash == hash && Contents() == Books(map[], map[])
    {
      this.hash := hash;
      pending, proved := map[], map[];
    }

    function Contents(): Books
      reads this
    {
      Books(pending, proved)
    }

    method StartRecovery(who: string, parsed: Option<string>, random: seq<int>, now: Instant) returns (code: Option<string>)
      requires |random| == CODE_LENGTH && forall i :: 0 <= i < |random| ==> 0 <= random[i] < 256
      modifies `pending
      ensures code.Some? <==> parsed.Some?
      ensures code.Some? ==> |code.value| == CODE_LENGTH && IsCode(code.value)
      ensures Contents() == if code.Some? then Started(old(Contents()), who, parsed, hash(code.value), now) else old(Contents())
    {
      if parsed.None? {
        return None;
      }
      var minted := NewCode(random);
      pending := pending[who := Attempt(parsed.value, hash(minted), 0, Unix(now) + CODE_LIFETIME)];
      return Some(minted);
    }

    method DropRecovery(who: string)
      modifies `pending
      ensures Contents() == Dropped(old(Contents()), who)
    {
      pending := pending - {who};
    }

    method ConfirmRecovery(who: string, typed: string, now: Instant) returns (email: Option<string>)
      modifies this
      ensures Contents() == Confirmed(old(Contents()), who, hash(Normalised(typed)), now)
      ensures email.Some? <==> Accepts(old(Contents()), who, hash(Normalised(typed)), now)
      ensures email.Some? ==> email.value == old(pending)[who].email
    {
      if who !in pending {
        return None;
      }
      var a := pending[who];
      if Unix(now) >= a.expiresAt || a.attempts >= CODE_ATTEMPTS {
        return None;
      }
      var given := NormaliseCode(typed);
      var same := EqualHash(hash(given), a.codeHash);
      if !same {
        pending := pending[who := a.(attempts := a.attempts + 1)];
        if a.attempts + 1 >= CODE_ATTEMPTS {
          pending := pending - {who};
        }
        assert Contents() == Guessed(old(Contents()), who);
        return None;
      }
      proved := map p | p in proved && !(Lower(proved[p].email) == Lower(a.email) && p != who) :: proved[p];
      proved := proved[who := Address(a.email, Unix(now))];
      pending := pending - {who};
      return Some(a.email);
    }

    method ForgetRecovery(who: string, completes: bool)
      modifies this
      ensures Contents() == Forgotten(old(Contents()), who, completes)
    {
      proved := proved - {who};
      if completes {
        DropRecovery(who);
      }
    }
  }

  // ----- Runs -----

  datatype Event =
    | Start(who: string, parsed: Option<string>, code: string, now: Instant)
    | Confirm(who: string, typed: string, now: Instant)
    | Drop(who: string)
    | Forget(who: string, completes: bool)

  function Step(b: Books, e: Event, hash: string -> Digest): Books {
    match e
    case Start(who, parsed, code, now) => Started(b, who, parsed, hash(code), now)
    case Confirm(who, typed, now) => Confirmed(b, who, hash(Normalised(typed)), now)
    case Drop(who) => Dropped(b, who)
    case Forget(who, completes) => Forgotten(b, who, completes)
  }

  ghost predicate IsRun(s: seq<Books>, e: seq<Event>, hash: string -> Digest) {
    && |s| == |e| + 1
    && s[0] == Books(map[], map[])
    && forall i :: 0 <= i < |e| ==> s[i + 1] == Step(s[i], e[i], hash)
  }

  predicate Starts(e: Event, who: string) {
    e.Start? && e.who == who && e.parsed.Some?
  }

  /** Replaces or throws away an attempt. */
  predicate Ends(e: Event, who: string) {
    e.who == who && ((e.Start? && e.parsed.Some?) || e.Drop? || (e.Forget? && e.completes))
  }

  predicate Succeeds(b: Books, e: Event, who: string, hash: string -> Digest) {
    e.Confirm? && e.who == who && Accepts(b, who, hash(Normalised(e.typed)), e.now)
  }

  predicate Guesses(b: Books, e: Event, who: string) {
    e.Confirm? && e.who == who && Compares(b, who, e.now)
  }

  /** How many guesses were compared with this account's code in steps i..k. */
  ghost function Comparisons(s: seq<Books>, e: seq<Event>, who: string, i: nat, k: nat): nat
    requires |s| == |e| + 1 && k <= |e|
    decreases k
  {
    if k <= i then 0
    else Comparisons(s, e, who, i, k - 1) + if Guesses(s[k - 1], e[k - 1], who) then 1 else 0
  }

  /** The attempt in flight at k is the one step i started, with every guess since a wrong one. */
  ghost predicate InFlight(s: seq<Books>, e: seq<Event>, who: string, hash: string -> Digest, i: nat, k: nat)
    requires |s| == |e| + 1
  {
    && i < k <= |e|
    && Starts(e[i], who)
    && (forall j :: i < j < k ==> !Ends(e[j], who) && !Succeeds(s[j], e[j], who, hash))
    && who in s[k].pending
    && s[k].pending[who] == Attempt(e[i].parsed.value, hash(e[i].code), Comparisons(s, e, who, i + 1, k), Unix(e[i].now) + CODE_LIFETIME)
    && Comparisons(s, e, who, i + 1, k) < CODE_ATTEMPTS
  }

  /** What one step does to an account's attempt. */
  lemma AttemptStep(b: Books, e: Event, who: string, hash: string -> Digest)
    ensures var after := Step(b, e, hash);
            && (Starts(e, who) ==> after.pending == b.pending[who := Attempt(e.parsed.value, hash(e.code), 0, Unix(e.now) + CODE_LIFETIME)])
            && (who in after.pending && !Starts(e, who) ==>
                && who in b.pending && !Ends(e, who) && !Succeeds(b, e, who, hash)
                && var guesses := b.pending[who].attempts + if Guesses(b, e, who) then 1 else 0;
                && after.pending[who] == b.pending[who].(attempts := guesses)
                && (Guesses(b, e, who) ==> guesses < CODE_ATTEMPTS))
  {
  }

  /** Every attempt in flight was started by some step, and has used fewer than five guesses. */
  lemma {:induction false} AttemptTracesBack(s: seq<Books>, e: seq<Event>, who: string, hash: string -> Digest, k: nat) returns (i: nat)
    requires IsRun(s, e, hash) && k < |s| && who in s[k].pending
    ensures InFlight(s, e, who, hash, i, k)
  {
    hide Step, Succeeds, Guesses;
    assert s[k] == Step(s[k - 1], e[k - 1], hash);
    AttemptStep(s[k - 1], e[k - 1], who, hash);
    if Starts(e[k - 1], who) {
      i := k - 1;
    } else {
      i := AttemptTracesBack(s, e, who, hash, k - 1);
    }
  }

  lemma {:induction false} GuessesAreCounted(s: seq<Books>, e: seq<Event>, who: string, hash: string -> Digest, i: nat, k: nat)
    requires IsRun(s, e, hash) && i < k <= |e| && Starts(e[i], who)
    requires forall j :: i < j < k ==> !Starts(e[j], who)
    ensures who in s[k].pending ==> InFlight(s, e, who, hash, i, k)
    ensures Comparisons(s, e, who, i + 1, k) <= CODE_ATTEMPTS
    decreases k
  {
    hide Step, Succeeds;
    assert s[k] == Step(s[k - 1], e[k - 1], hash);
    AttemptStep(s[k - 1], e[k - 1], who, hash);
    if k > i + 1 {
      GuessesAreCounted(s, e, who, hash, i, k - 1);
    }
  }

  /** No code ever issued is compared with more than five guesses. */
  lemma FiveGuessesPerCode(s: seq<Books>, e: seq<Event>, who: string, hash: string -> Digest, i: nat, k: nat)
    requires IsRun(s, e, hash) && i < k <= |e| && Starts(e[i], who)
    requires forall j :: i < j < k ==> !Starts(e[j], who)
    ensures Comparisons(s, e, who, i + 1, k) <= CODE_ATTEMPTS
    ensures who in s[k].pending ==> 0 <= s[k].pending[who].attempts < CODE_ATTEMPTS
  {
    GuessesAreCounted(s, e, who, hash, i, k);
  }

  ghost predicate Injective(hash: string -> Digest) {
    forall a: string, b: string :: hash(a) == hash(b) ==> a == b
  }

  /** A confirmation is accepted exactly when it comes within fifteen minutes of the start whose attempt is in
      flight and is a forgiving typing of the very code that start issued: not of any it superseded. */
  lemma AcceptedExactlyWhen(s: seq<Books>, e: seq<Event>, who: string, hash: string -> Digest, i: nat, k: nat)
    requires IsRun(s, e, hash) && Injective(hash) && k < |e|
    requires e[k].Confirm? && e[k].who == who && InFlight(s, e, who, hash, i, k) && IsCode(e[i].code)
    ensures Succeeds(s[k], e[k], who, hash) <==>
            Unix(e[k].now) < Unix(e[i].now) + CODE_LIFETIME && Types(Trim(e[k].typed), e[i].code)
  {
    NormalisingForgivesExactly(e[k].typed, e[i].code);
  }

  /** With no attempt in flight nothing is accepted. */
  lemma NothingToAccept(s: seq<Books>, e: seq<Event>, who: string, hash: string -> Digest, k: nat)
    requires IsRun(s, e, hash) && k < |e| && Succeeds(s[k], e[k], who, hash)
    ensures exists i :: InFlight(s, e, who, hash, i, k)
  {
    var i := AttemptTracesBack(s, e, who, hash, k);
  }

  /** Every proved address was started by its own account and confirmed with that start's code, in time,
      after fewer than five wrong guesses, with nothing in between that ends an attempt; and the account has
      proved nothing else since. */
  lemma {:induction false} ProvedTracesBack(s: seq<Books>, e: seq<Event>, who: string, hash: string -> Digest, k: nat) returns (i: nat, j: nat)
    requires IsRun(s, e, hash) && k < |s| && who in s[k].proved
    ensures i < j < k && InFlight(s, e, who, hash, i, j) && Succeeds(s[j], e[j], who, hash)
    ensures hash(Normalised(e[j].typed)) == hash(e[i].code) && Unix(e[j].now) < Unix(e[i].now) + CODE_LIFETIME
    ensures s[k].proved[who] == Address(e[i].parsed.value, Unix(e[j].now))
    ensures forall m :: j < m < k ==> !Succeeds(s[m], e[m], who, hash)
  {
    assert s[k] == Step(s[k - 1], e[k - 1], hash);
    if Succeeds(s[k - 1], e[k - 1], who, hash) {
      j := k - 1;
      i := AttemptTracesBack(s, e, who, hash, j);
    } else {
      i, j := ProvedTracesBack(s, e, who, hash, k - 1);
    }
  }

  /** Somebody takes this account's address: proves one that is the same but for its case. */
  predicate TakenBy(b: Books, e: Event, who: string, hash: string -> Digest) {
    && e.who != who && Succeeds(b, e, e.who, hash)
    && who in b.proved && Lower(b.pending[e.who].email) == Lower(b.proved[who].email)
  }

  /** A proved address is held until its account proves another or forgets it, or another account proves it. */
  lemma {:induction false} AddressIsHeld(s: seq<Books>, e: seq<Event>, who: string, hash: string -> Digest, i: nat, k: nat)
    requires IsRun(s, e, hash) && i <= k < |s| && who in s[i].proved
    requires forall j :: i <= j < k ==>
               && !(e[j].Forget? && e[j].who == who) && !Succeeds(s[j], e[j], who, hash) && !TakenBy(s[j], e[j], who, hash)
    ensures who in s[k].proved && s[k].proved[who] == s[i].proved[who]
    decreases k
  {
    if i < k {
      AddressIsHeld(s, e, who, hash, i, k - 1);
      AddressStep(s[k - 1], e[k - 1], who, hash);
      assert s[k] == Step(s[k - 1], e[k - 1], hash);
    }
  }

  lemma AddressStep(b: Books, e: Event, who: string, hash: string -> Digest)
    requires who in b.proved && !(e.Forget? && e.who == who)
    requires !Succeeds(b, e, who, hash) && !TakenBy(b, e, who, hash)
    ensures who in Step(b, e, hash).proved && Step(b, e, hash).proved[who] == b.proved[who]
  {
    if e.Confirm? { ConfirmedExactly(b, e.who, hash(Normalised(e.typed)), e.now); }
  }

  /** Only proving and forgetting change what is proved: starting, failing and dropping never do. */
  lemma ProvedIsLeftAlone(b: Books, e: Event, hash: string -> Digest)
    requires !e.Forget? && !Succeeds(b, e, e.who, hash)
    ensures Step(b, e, hash).proved == b.proved
  {
  }

  ghost predicate DistinctAddresses(b: Books) {
    forall p, q :: p in b.proved && q in b.proved && p != q ==> Lower(b.proved[p].email) != Lower(b.proved[q].email)
  }

  /** No two accounts ever hold one address, whatever its case, as addresses move between them; so the unique
      index never refuses a confirmation. */
  lemma {:induction false} AddressesStayDistinct(s: seq<Books>, e: seq<Event>, hash: string -> Digest, k: nat)
    requires IsRun(s, e, hash) && k < |s|
    ensures DistinctAddresses(s[k])
  {
    if k > 0 {
      AddressesStayDistinct(s, e, hash, k - 1);
      assert s[k] == Step(s[k - 1], e[k - 1], hash);
    }
  }

  // ----- Forgetting -----

  /** After forgetting, whatever is typed and whenever, the attempt that was in flight can still be confirmed
      if and only if the second delete did not happen, the code was typed and its fifteen minutes were not up;
      and the address that was on its way is then proved. */
  lemma ForgettingEndsAttempt(s: seq<Books>, e: seq<Event>, who: string, hash: string -> Digest, i: nat, k: nat,
                              completes: bool, typed: string, now: Instant)
    requires IsRun(s, e, hash) && Injective(hash) && InFlight(s, e, who, hash, i, k) && IsCode(e[i].code)
    ensures var left, guess := Forgotten(s[k], who, completes), hash(Normalised(typed));
            && who !in left.proved
            && (Accepts(left, who, guess, now) <==>
                !completes && Unix(now) < Unix(e[i].now) + CODE_LIFETIME && Types(Trim(typed), e[i].code))
            && (who in Confirmed(left, who, guess, now).proved <==> Accepts(left, who, guess, now))
            && (Accepts(left, who, guess, now) ==>
                Confirmed(left, who, guess, now).proved[who] == Address(e[i].parsed.value, Unix(now)))
  {
    NormalisingForgivesExactly(typed, e[i].code);
  }

  /** And so it goes with any code there is: forgotten by halves, an address is proved all the same. */
  lemma HalfForgottenComesBack(hash: string -> Digest, code: string) returns (s: seq<Books>, e: seq<Event>)
    requires |code| == CODE_LENGTH && IsCode(code)
    ensures IsRun(s, e, hash) && |e| == 3
    ensures e[0].Start? && e[0].code == code
    ensures e[1].Forget? && !e[1].completes && e[2].Confirm?
    ensures "p" !in s[2].proved && "p" in s[3].proved
  {
    e := [Start("p", Some("a@b"), code, 0), Forget("p", false), Confirm("p", code, 0)];
    var s1 := Step(Books(map[], map[]), e[0], hash);
    var s2 := Step(s1, e[1], hash);
    TypesItself(code);
    EveryTypingComesBack(code, code);
    s := [Books(map[], map[]), s1, s2, Step(s2, e[2], hash)];
  }
}
