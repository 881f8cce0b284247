/** A fixed-window counter per key, swept by throwing the whole map away when it has grown too large. */
module Limiting {
  import opened Clock

  datatype Window = Window(count: int, until: Instant)

  const MOST_KEYS := 10_000

  // ----- One call -----

  predicate Opens(seen: map<string, Window>, key: string, now: Instant) {
    key !in seen || now > seen[key].until
  }

  predicate Sweeps(seen: map<string, Window>, key: string, now: Instant) {
    Opens(seen, key, now) && |seen| > MOST_KEYS
  }

  predicate Admits(seen: map<string, Window>, limit: int, key: string, now: Instant) {
    Opens(seen, key, now) || seen[key].count + 1 <= limit
  }

  function After(seen: map<string, Window>, period: Duration, key: string, now: Instant): map<string, Window> {
    if Opens(seen, key, now) then
      (if Sweeps(seen, key, now) then map[] else seen)[key := Window(1, now + period)]
    else
      seen[key := Window(seen[key].count + 1, seen[key].until)]
  }

  class Limiter {
    var seen: map<string, Window>
    const limit: int
    const period: Duration

    constructor (limit: int, period: Duration)
      ensures this.limit == limit && this.period == period && seen == map[]
    {
      this.limit, this.period := limit, period;
      seen := map[];
    }

    method Allow(key: string, now: Instant) returns (ok: bool)
      modifies this
      ensures ok == Admits(old(seen), limit, key, now)
      ensures seen == After(old(seen), period, key, now)
    {
      if key !in seen || now > seen[key].until {
        if |seen| > MOST_KEYS {
          seen := map[];
        }
        seen := seen[key := Window(1, now + period)];
        return true;
      }
      var w := seen[key];
      seen := seen[key := Window(w.count + 1, w.until)];
      return w.count + 1 <= limit;
    }
  }

  // ----- Histories -----

  datatype Call = Call(key: string, now: Instant)

  ghost predicate IsHistory(s: seq<map<string, Window>>, c: seq<Call>, period: Duration) {
    && |s| == |c| + 1
    && s[0] == map[]
    && (forall i :: 0 <= i < |c| ==> s[i + 1] == After(s[i], period, c[i].key, c[i].now))
    && (forall i, j :: 0 <= i < j < |c| ==> c[i].now <= c[j].now)
  }

  /** The map never outgrows its limit by more than the one key that tripped it. */
  lemma {:induction false} MapStaysSmall(s: seq<map<string, Window>>, c: seq<Call>, period: Duration, k: nat)
    requires IsHistory(s, c, period) && k < |s|
    ensures |s[k]| <= 10_001
  {
    if k > 0 {
      MapStaysSmall(s, c, period, k - 1);
      var seen, key := s[k - 1], c[k - 1].key;
      OneKeyMore(seen, key, s[k][key]);
      OneKeyMore(map[], key, s[k][key]);
    }
  }

  lemma OneKeyMore(m: map<string, Window>, key: string, w: Window)
    ensures |m[key := w]| == if key in m then |m| else |m| + 1
  {
    assert m[key := w].Keys == m.Keys + {key};
    assert |m[key := w].Keys| == |m[key := w]| && |m.Keys| == |m|;
  }

  /** A call counts itself in its window, or opens one a period long and counts as its first; and the other keys
      keep theirs, unless a window is opened over more than ten thousand. */
  lemma AfterExactly(seen: map<string, Window>, period: Duration, key: string, now: Instant)
    ensures var after := After(seen, period, key, now);
            var opens := key !in seen || now > seen[key].until;
            && (!opens ==> after == seen[key := Window(seen[key].count + 1, seen[key].until)])
            && (opens && |seen| <= 10_000 ==> after == seen[key := Window(1, now + period)])
            && (opens && |seen| > 10_000 ==> after == map[key := Window(1, now + period)])
  {
  }

  // ----- What a call is told -----

  /** How many of the calls i..k were for a key. */
  function CallsOf(c: seq<Call>, key: string, i: nat, k: nat): nat
    requires k <= |c|
    decreases k
  {
    if k <= i then 0 else CallsOf(c, key, i, k - 1) + if c[k - 1].key == key then 1 else 0
  }

  /** A key's window goes back to the call that opened it, and has counted every call for the key since. */
  lemma {:induction false} WindowTracesBack(s: seq<map<string, Window>>, c: seq<Call>, period: Duration, key: string, k: nat)
    returns (i: nat)
    requires IsHistory(s, c, period) && k < |s| && key in s[k]
    ensures i < k && c[i].key == key && (key in s[i] ==> c[i].now > s[i][key].until)
    ensures s[k][key] == Window(CallsOf(c, key, i, k), c[i].now + period)
  {
    assert k > 0;
    assert s[k] == After(s[k - 1], period, c[k - 1].key, c[k - 1].now);
    if c[k - 1].key == key && Opens(s[k - 1], key, c[k - 1].now) {
      i := k - 1;
      assert CallsOf(c, key, i, i) == 0;
    } else {
      i := WindowTracesBack(s, c, period, key, k - 1);
    }
  }

  /** A call is admitted if and only if its key has no window, or that window is over, or no more calls than the
      limit, with this one, have come in it. */
  lemma AdmittedExactlyWhen(s: seq<map<string, Window>>, c: seq<Call>, limit: int, period: Duration, k: nat) returns (i: nat)
    requires IsHistory(s, c, period) && k < |c|
    ensures c[k].key !in s[k] ==> Admits(s[k], limit, c[k].key, c[k].now)
    ensures c[k].key in s[k] ==>
              && i < k && c[i].key == c[k].key && s[k][c[k].key].until == c[i].now + period
              && (Admits(s[k], limit, c[k].key, c[k].now) <==>
                  c[k].now > c[i].now + period || CallsOf(c, c[k].key, i, k + 1) <= limit)
  {
    i := 0;
    if c[k].key in s[k] {
      i := WindowTracesBack(s, c, period, c[k].key, k);
    }
  }

  /** A key has a window from its first call on, unless a sweep forgot it. */
  lemma {:induction false} OnlySweepsForget(s: seq<map<string, Window>>, c: seq<Call>, period: Duration, key: string, j: nat, k: nat)
    requires IsHistory(s, c, period) && j < k < |s| && c[j].key == key
    requires forall i :: j < i < k ==> !Sweeps(s[i], c[i].key, c[i].now)
    ensures key in s[k]
    decreases k
  {
    assert s[k] == After(s[k - 1], period, c[k - 1].key, c[k - 1].now);
    if j < k - 1 {
      OnlySweepsForget(s, c, period, key, j, k - 1);
    }
  }

  // ----- How many are admitted -----

  predicate CountsIn(seen: map<string, Window>, call: Call, limit: int, period: Duration, key: string, from: Instant) {
    && call.key == key
    && from <= call.now <= from + period
    && Admits(seen, limit, key, call.now)
  }

  /** How many of the first k calls were admitted for a key in the closed interval of one period from `from`. */
  ghost function AdmittedIn(s: seq<map<string, Window>>, c: seq<Call>, limit: int, period: Duration, key: string, from: Instant, k: nat): nat
    requires |s| == |c| + 1 && k <= |c|
  {
    if k == 0 then 0
    else AdmittedIn(s, c, limit, period, key, from, k - 1)
         + if CountsIn(s[k - 1], c[k - 1], limit, period, key, from) then 1 else 0
  }

  /** The most one window admits: the call that opens it is never refused. */
  function PerWindow(limit: int): int {
    if limit > 1 then limit else 1
  }

  function Min(a: int, b: int): int {
    if a < b then a else b
  }

  /** By when the key's current window opened, how much of the interval can have been used. */
  ghost predicate Bounded(seen: map<string, Window>, limit: int, period: Duration, key: string, from: Instant, admitted: nat) {
    if key !in seen then admitted == 0
    else
      var start := seen[key].until - period;
      var used := Min(seen[key].count, PerWindow(limit));
      && seen[key].count >= 1
      && (start < from ==> admitted <= used - 1)
      && (from <= start <= from + period ==> admitted <= PerWindow(limit) - 1 + used)
      && admitted <= 2 * PerWindow(limit) - 1
  }

  lemma {:induction false} HistoryIsBounded(s: seq<map<string, Window>>, c: seq<Call>, limit: int, period: Duration, key: string, from: Instant, k: nat)
    requires IsHistory(s, c, period) && k <= |c| && period >= 0
    requires forall i :: 0 <= i < k ==> !Sweeps(s[i], c[i].key, c[i].now)
    ensures Bounded(s[k], limit, period, key, from, AdmittedIn(s, c, limit, period, key, from, k))
    ensures AdmittedIn(s, c, limit, period, key, from, k) > 0 ==> k > 0 && c[k - 1].now >= from
    ensures key in s[k] ==> k > 0 && s[k][key].until - period <= c[k - 1].now
  {
    if k > 0 {
      HistoryIsBounded(s, c, limit, period, key, from, k - 1);
      assert s[k] == After(s[k - 1], period, c[k - 1].key, c[k - 1].now);
      if k > 1 {
        assert c[k - 2].now <= c[k - 1].now;
      }
    }
  }

  /** In any history in which the map is not swept, a closed interval one period long admits fewer than twice
      the limit for a key: if it reaches into a second window, it misses the call that opened the first. A
      limit of none still lets through the call that opens a window. */
  lemma FewerThanTwiceTheLimit(s: seq<map<string, Window>>, c: seq<Call>, limit: int, period: Duration, key: string, from: Instant)
    requires IsHistory(s, c, period) && period >= 0
    requires forall i :: 0 <= i < |c| ==> !Sweeps(s[i], c[i].key, c[i].now)
    ensures AdmittedIn(s, c, limit, period, key, from, |c|) <= 2 * PerWindow(limit) - 1
  {
    HistoryIsBounded(s, c, limit, period, key, from, |c|);
  }

  // ----- The bound is reached -----

  /** One call opens a window; as many more as it has left come at its very end; and as soon as it is over a
      second window is opened and used up. */
  function BurstCall(n: nat, period: Duration, j: nat): Call {
    Call("k", if j == 0 then 0 else if j < n then period else period + 1)
  }

  function BurstSeen(n: nat, period: Duration, j: nat): map<string, Window> {
    if j == 0 then map[]
    else if j <= n then map["k" := Window(j, period)]
    else map["k" := Window(j - n, 2 * period + 1)]
  }

  ghost predicate IsBurst(s: seq<map<string, Window>>, c: seq<Call>, n: nat, period: Duration) {
    && |c| == 2 * n && |s| == 2 * n + 1
    && (forall j :: 0 <= j < |c| ==> c[j] == BurstCall(n, period, j))
    && (forall j :: 0 <= j < |s| ==> s[j] == BurstSeen(n, period, j))
  }

  lemma BurstStep(n: nat, period: Duration, j: nat)
    requires n > 0 && period > 0 && j < 2 * n
    ensures var c := BurstCall(n, period, j);
            && BurstSeen(n, period, j + 1) == After(BurstSeen(n, period, j), period, c.key, c.now)
            && !Sweeps(BurstSeen(n, period, j), c.key, c.now)
  {
    assert |BurstSeen(n, period, j)| <= 1;
  }

  lemma BurstIsHistory(s: seq<map<string, Window>>, c: seq<Call>, n: nat, period: Duration)
    requires IsBurst(s, c, n, period) && n > 0 && period > 0
    ensures IsHistory(s, c, period)
    ensures forall j :: 0 <= j < |c| ==> !Sweeps(s[j], c[j].key, c[j].now)
  {
    hide After, Sweeps;
    forall j | 0 <= j < |c|
      ensures s[j + 1] == After(s[j], period, c[j].key, c[j].now) && !Sweeps(s[j], c[j].key, c[j].now)
    {
      BurstStep(n, period, j);
    }
  }

  lemma {:induction false} BurstIsAdmitted(s: seq<map<string, Window>>, c: seq<Call>, limit: int, period: Duration, k: nat)
    requires IsBurst(s, c, PerWindow(limit), period) && period > 0 && k <= |c|
    ensures AdmittedIn(s, c, limit, period, "k", period, k) == if k == 0 then 0 else k - 1
  {
    if k > 0 {
      BurstIsAdmitted(s, c, limit, period, k - 1);
    }
  }

  /** And one short of twice is reached, whatever the limit and the period: a window used up at its very end,
      and the next one at once. */
  lemma OneShortOfTwiceIsReached(limit: int, period: Duration) returns (s: seq<map<string, Window>>, c: seq<Call>)
    requires period > 0
    ensures IsHistory(s, c, period)
    ensures forall i :: 0 <= i < |c| ==> !Sweeps(s[i], c[i].key, c[i].now)
    ensures AdmittedIn(s, c, limit, period, "k", period, |c|) == 2 * PerWindow(limit) - 1
  {
    hide AdmittedIn, IsHistory, Sweeps;
    var n := PerWindow(limit);
    c := seq(2 * n, j requires 0 <= j < 2 * n => BurstCall(n, period, j));
    s := seq(2 * n + 1, j requires 0 <= j < 2 * n + 1 => BurstSeen(n, period, j));
    BurstIsHistory(s, c, n, period);
    BurstIsAdmitted(s, c, limit, period, |c|);
  }
}
