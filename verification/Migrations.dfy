/** Schema steps in the order of their names, each committed with the version that counts it, across crashes
    and upgrades. */
module Migrations {
  import opened Orders

  /** A step by its name; names begin with a timestamp. */
  type Name = string

  /** What a database has had done to it, and the version it was stamped with. */
  datatype Schema = Schema(applied: seq<Name>, version: nat)

  const EMPTY := Schema([], 0)

  // ----- Sorting by name -----

  ghost predicate Ascending(list: seq<Name>) {
    forall i, j :: 0 <= i < j < |list| ==> Below(list[i], list[j])
  }

  /** What sorting a list of distinct names by name yields. */
  ghost predicate SortedFrom(sorted: seq<Name>, declared: seq<Name>) {
    Ascending(sorted) && multiset(sorted) == multiset(declared)
  }

  /** With distinct names there is only one answer: two builds that declare the same steps, in whatever orders
      and whatever sorts them, carry the same list. */
  lemma OrderDeclaredDoesNotMatter(a: seq<Name>, b: seq<Name>, declaredA: seq<Name>, declaredB: seq<Name>)
    requires SortedFrom(a, declaredA) && SortedFrom(b, declaredB) && multiset(declaredA) == multiset(declaredB)
    ensures a == b
  {
    AscendingIsUnique(a, b);
  }

  lemma {:induction false} AscendingIsUnique(a: seq<Name>, b: seq<Name>)
    requires Ascending(a) && Ascending(b) && multiset(a) == multiset(b)
    ensures a == b
  {
    SameLength(a, b);
    if |a| > 0 {
      FirstIsLeast(a, b);
      FirstAndRest(a);
      FirstAndRest(b);
      AscendingIsUnique(a[1..], b[1..]);
    }
  }

  lemma FirstAndRest(a: seq<Name>)
    requires |a| > 0
    ensures a == [a[0]] + a[1..] && multiset(a[1..]) == multiset(a) - multiset{a[0]}
  {
    assert a == [a[0]] + a[1..];
  }

  lemma SameLength(a: seq<Name>, b: seq<Name>)
    requires multiset(a) == multiset(b)
    ensures |a| == |b|
  {
    assert |multiset(a)| == |a| && |multiset(b)| == |b|;
  }

  lemma FirstIsLeast(a: seq<Name>, b: seq<Name>)
    requires Ascending(a) && Ascending(b) && multiset(a) == multiset(b) && |a| == |b| > 0
    ensures a[0] == b[0]
  {
    assert a[0] in multiset(a) && b[0] in multiset(b);
    assert a[0] in b && b[0] in a;
    var i :| 0 <= i < |b| && b[i] == a[0];
    var j :| 0 <= j < |a| && a[j] == b[0];
    BelowIsTotal(a[0], b[0]);
  }

  // ----- Migrating -----

  /** One step of the list is committed, with the version that says so. */
  function Applied(db: Schema, list: seq<Name>): Schema
    requires db.version < |list|
  {
    Schema(db.applied + [list[db.version]], db.version + 1)
  }

  /** Opening a database with a sorted list: refused when the database is ahead of it, and otherwise brought
      forward until the end or until a step fails or the process dies. `survives` steps are committed. */
  function Opened(db: Schema, list: seq<Name>, survives: nat): Schema
    decreases survives
  {
    if db.version >= |list| || survives == 0 then db
    else Opened(Applied(db, list), list, survives - 1)
  }

  datatype Outcome = Refused | Stopped | Current

  class Database {
    var applied: seq<Name>
    var version: nat

    constructor ()
      ensures Contents() == EMPTY
    {
      applied, version := [], 0;
    }

    function Contents(): Schema
      reads this
    {
      Schema(applied, version)
    }

    method Migrate(list: seq<Name>, survives: nat) returns (outcome: Outcome)
      modifies this
      ensures Contents() == Opened(old(Contents()), list, survives)
      ensures outcome.Refused? <==> old(version) > |list|
      ensures outcome.Current? <==> version == |list|
    {
      if version > |list| {
        return Refused;
      }
      var left := survives;
      while version < |list|
        invariant version <= |list|
        invariant Opened(Contents(), list, left) == Opened(old(Contents()), list, survives)
        decreases |list| - version
      {
        if left == 0 {
          return Stopped;
        }
        applied, version := applied + [list[version]], version + 1;
        left := left - 1;
      }
      return Current;
    }
  }

  // ----- Any history -----

  /** A start of the program: the list its build carries, sorted, and how far migrating gets. */
  datatype Launch = Launch(list: seq<Name>, survives: nat)

  ghost predicate IsHistory(s: seq<Schema>, l: seq<Launch>) {
    && |s| == |l| + 1
    && s[0] == EMPTY
    && forall i :: 0 <= i < |l| ==> s[i + 1] == Opened(s[i], l[i].list, l[i].survives)
  }

  /** The database is exactly the first `version` steps of this list. */
  ghost predicate UpTo(db: Schema, list: seq<Name>) {
    db.version <= |list| && db.applied == list[..db.version]
  }

  lemma {:induction false} OpeningKeepsPrefix(db: Schema, list: seq<Name>, survives: nat)
    requires UpTo(db, list)
    ensures UpTo(Opened(db, list, survives), list)
    ensures Opened(db, list, survives).version >= db.version
    ensures survives >= |list| - db.version ==> Opened(db, list, survives).version == |list|
    decreases survives
  {
    if db.version < |list| && survives > 0 {
      OpeningKeepsPrefix(Applied(db, list), list, survives - 1);
    }
  }

  /** Opening appends what the list holds from the version on, as many steps as survive, and nothing else. */
  lemma {:induction false} OpeningAppends(db: Schema, list: seq<Name>, survives: nat)
    requires |db.applied| == db.version
    ensures var after := Opened(db, list, survives);
            && |after.applied| == after.version
            && (db.version > |list| ==> after == db)
            && (db.version <= |list| ==>
                && db.version <= after.version <= |list|
                && after.applied == db.applied + list[db.version..after.version]
                && after.version == if survives < |list| - db.version then db.version + survives else |list|)
    decreases survives
  {
    if db.version < |list| && survives > 0 {
      OpeningAppends(Applied(db, list), list, survives - 1);
    }
  }

  lemma {:induction false} CountedInStep(s: seq<Schema>, l: seq<Launch>, k: nat)
    requires IsHistory(s, l) && k < |s|
    ensures |s[k].applied| == s[k].version
  {
    if k > 0 {
      CountedInStep(s, l, k - 1);
      OpeningAppends(s[k - 1], l[k - 1].list, l[k - 1].survives);
    }
  }

  /** In any history whatever, a step that has run is never undone or run again in its place, and a version never
      goes back. */
  lemma VersionsOnlyGrow(s: seq<Schema>, l: seq<Launch>, k: nat)
    requires IsHistory(s, l) && k < |l|
    ensures s[k].version <= s[k + 1].version && s[k].applied <= s[k + 1].applied
  {
    CountedInStep(s, l, k);
    OpeningAppends(s[k], l[k].list, l[k].survives);
  }

  /** Two lists name the same steps at the positions a launch committed. */
  ghost predicate Agree(ran: seq<Name>, list: seq<Name>, from: nat, to: nat) {
    forall i :: from <= i < to && i < |ran| && i < |list| ==> ran[i] == list[i]
  }

  /** In any history, through any crashes, restarts, upgrades and downgrades, what has been applied is exactly
      the first `version` steps of a list that is long enough if and only if every launch so far committed, at
      the positions it committed, the steps that list has there. */
  lemma {:induction false} AppliedExactlyWhen(s: seq<Schema>, l: seq<Launch>, k: nat, list: seq<Name>)
    requires IsHistory(s, l) && k < |s| && s[k].version <= |list|
    ensures UpTo(s[k], list) <==> forall j :: 0 <= j < k ==> Agree(l[j].list, list, s[j].version, s[j + 1].version)
  {
    CountedInStep(s, l, k);
    if k > 0 {
      VersionsOnlyGrow(s, l, k - 1);
      AppliedExactlyWhen(s, l, k - 1, list);
      assert s[k] == Opened(s[k - 1], l[k - 1].list, l[k - 1].survives);
      CountedInStep(s, l, k - 1);
      CommittedExactlyWhen(s[k - 1], l[k - 1], list, s[k]);
    }
  }

  lemma CommittedExactlyWhen(db: Schema, launch: Launch, list: seq<Name>, after: Schema)
    requires after == Opened(db, launch.list, launch.survives) && |db.applied| == db.version && after.version <= |list|
    ensures db.version <= after.version
    ensures UpTo(after, list) <==> UpTo(db, list) && Agree(launch.list, list, db.version, after.version)
  {
    OpeningAppends(db, launch.list, launch.survives);
    if db.version <= |launch.list| {
      AppendedAgrees(db.applied, launch.list, list, after.version);
    }
  }

  lemma AppendedAgrees(applied: seq<Name>, ran: seq<Name>, list: seq<Name>, to: nat)
    requires |applied| <= to <= |ran| && to <= |list|
    ensures applied + ran[|applied|..to] == list[..to] <==> applied == list[..|applied|] && Agree(ran, list, |applied|, to)
  {
    var v := |applied|;
    var after := applied + ran[v..to];
    if after == list[..to] {
      assert applied == after[..v] == list[..v];
      forall i | v <= i < to ensures ran[i] == list[i] {
        assert after[i] == ran[i] && list[..to][i] == list[i];
      }
    }
    if applied == list[..v] && Agree(ran, list, v, to) {
      forall i | 0 <= i < to ensures after[i] == list[i] {
        if i < v { assert applied[i] == list[..v][i]; }
      }
    }
  }

  /** A start that is not interrupted appends all that its list holds from the version on; and its list is what
      has then been applied if and only if its beginning was. */
  lemma UninterruptedStartFinishes(s: seq<Schema>, l: seq<Launch>, k: nat)
    requires IsHistory(s, l) && k < |l|
    requires l[k].survives >= |l[k].list|
    ensures s[k].version > |l[k].list| ==> s[k + 1] == s[k]
    ensures s[k].version <= |l[k].list| ==>
              && s[k + 1] == Schema(s[k].applied + l[k].list[s[k].version..], |l[k].list|)
              && (s[k + 1].applied == l[k].list <==> UpTo(s[k], l[k].list))
  {
    CountedInStep(s, l, k);
    OpeningAppends(s[k], l[k].list, l[k].survives);
    if s[k].version <= |l[k].list| {
      var v := s[k].version;
      assert (s[k].applied + l[k].list[v..])[..v] == s[k].applied;
      assert l[k].list[..v] + l[k].list[v..] == l[k].list;
    }
  }

  // ----- Builds that add steps -----

  ghost predicate Upgrades(l: seq<Launch>) {
    forall k :: 0 <= k < |l| ==> l[k].survives >= |l[k].list| && (k > 0 ==> |l[k - 1].list| <= |l[k].list|)
  }

  lemma {:induction false} UpgradesFinish(s: seq<Schema>, l: seq<Launch>, k: nat)
    requires IsHistory(s, l) && Upgrades(l) && k < |s|
    ensures s[k].version == if k == 0 then 0 else |l[k - 1].list|
  {
    if k > 0 {
      UpgradesFinish(s, l, k - 1);
      UninterruptedStartFinishes(s, l, k - 1);
    }
  }

  /** Over a history of upgrades, none of them interrupted, every start leaves exactly its own list applied if
      and only if each sorted list extends the one before it. */
  lemma {:induction false} UpgradesFitExactlyWhen(s: seq<Schema>, l: seq<Launch>)
    requires IsHistory(s, l) && Upgrades(l)
    ensures (forall k :: 0 <= k < |l| ==> s[k + 1].applied == l[k].list) <==>
            (forall k :: 0 < k < |l| ==> l[k - 1].list <= l[k].list)
  {
    if |l| > 0 {
      var n := |l| - 1;
      UpgradesFitExactlyWhen(s[..n + 1], l[..n]);
      LastUpgradeFits(s, l, n);
      forall k | 0 <= k < n ensures s[..n + 1][k + 1] == s[k + 1] && l[..n][k] == l[k] { }
    }
  }

  lemma LastUpgradeFits(s: seq<Schema>, l: seq<Launch>, n: nat)
    requires IsHistory(s, l) && Upgrades(l) && n < |l|
    ensures n == 0 ==> s[1].applied == l[0].list
    ensures n > 0 && s[n].applied == l[n - 1].list ==> (s[n + 1].applied == l[n].list <==> l[n - 1].list <= l[n].list)
  {
    CountedInStep(s, l, n);
    UpgradesFinish(s, l, n);
    UninterruptedStartFinishes(s, l, n);
  }

  /** A step added to the sorted list at position p of a build, where the database has all the others: it is
      applied in its place if and only if it sorts last. Anywhere else it is passed over, and the last step runs
      a second time. */
  lemma AddedStepExactlyWhen(list: seq<Name>, p: nat, survives: nat)
    requires Ascending(list) && p < |list| && survives > 0
    ensures var before := list[..p] + list[p + 1..];
            var after := Opened(Schema(before, |before|), list, survives);
            && Ascending(before)
            && after == Schema(before + [list[|list| - 1]], |list|)
            && (after.applied == list <==> p == |list| - 1)
            && (list[p] in after.applied <==> p == |list| - 1)
            && (p < |list| - 1 ==> after.applied[|list| - 2] == after.applied[|list| - 1])
  {
    var n := |list| - 1;
    var before := list[..p] + list[p + 1..];
    var db := Schema(before, |before|);
    assert forall i :: 0 <= i < n ==> before[i] == if i < p then list[i] else list[i + 1];
    OpeningAppends(db, list, survives);
    assert list[n..] == [list[n]];
    AscendingNeverRepeats(list);
    var after := before + [list[n]];
    assert after[n] == list[n];
    if p == n {
      assert after == list;
    } else {
      assert forall i :: 0 <= i <= n ==> after[i] != list[p];
    }
  }

  lemma AscendingNeverRepeats(list: seq<Name>)
    requires Ascending(list)
    ensures forall i, j :: 0 <= i < |list| && 0 <= j < |list| && i != j ==> list[i] != list[j]
  {
    forall i, j | 0 <= i < j < |list| ensures list[i] != list[j] {
      BelowIsTotal(list[i], list[j]);
      BelowIsTotal(list[i], list[i]);
    }
  }

  // ----- Builds that extend each other -----

  /** Of any two builds ever started, one's sorted list extends the other's; an older build may come back. */
  ghost predicate Extending(l: seq<Launch>) {
    forall i, j :: 0 <= i < |l| && 0 <= j < |l| ==> l[i].list <= l[j].list || l[j].list <= l[i].list
  }

  /** Some build started so far carries every step the database has, or none has started. */
  lemma {:induction false} AppliedByABuild(s: seq<Schema>, l: seq<Launch>, k: nat)
    requires IsHistory(s, l) && Extending(l) && k < |s|
    ensures s[k] == EMPTY || exists i :: 0 <= i < k && UpTo(s[k], l[i].list)
  {
    if k > 0 {
      AppliedByABuild(s, l, k - 1);
      var db, list := s[k - 1], l[k - 1].list;
      if db == EMPTY {
        assert UpTo(db, list);
      } else {
        var i :| 0 <= i < k - 1 && UpTo(db, l[i].list);
        if db.version <= |list| {
          assert UpTo(db, list) by { assert l[i].list <= list || list <= l[i].list; }
        } else {
          assert s[k] == db;
        }
      }
      if UpTo(db, list) {
        OpeningKeepsPrefix(db, list, l[k - 1].survives);
      }
    }
  }

  /** Through any crashes, restarts, upgrades and refused downgrades, what has been applied is exactly the
      first `version` steps of any build's list that is long enough, each once and in order. */
  lemma AppliedIsAPrefix(s: seq<Schema>, l: seq<Launch>, k: nat, b: nat)
    requires IsHistory(s, l) && Extending(l) && k < |s| && b < |l|
    ensures s[k].version <= |l[b].list| ==> s[k].applied == l[b].list[..s[k].version]
    ensures |s[k].applied| == s[k].version
  {
    AppliedByABuild(s, l, k);
    if s[k] != EMPTY {
      var i :| 0 <= i < k && UpTo(s[k], l[i].list);
      assert l[i].list <= l[b].list || l[b].list <= l[i].list;
    }
  }
}
