/** What a nudge carries: filtering, the no-repeat rule and the weighted draw, in exact arithmetic. */
module Picks {
  import opened Clock

  datatype Candidate = Candidate(
    id: string,
    priority: int,
    minInterval: Duration,
    lastNudged: Option<Instant>)

  const STALENESS_CAP: real := 4.0
  const NOMINAL_INTERVAL: Duration := DAY

  /** What the seeded generator yields: a fraction for the weighted draw and a number for the uniform
      one. */
  datatype Draw = Draw(fraction: real, number: nat)

  // ----- Specification -----

  function Unsilenced(cs: seq<Candidate>): seq<Candidate> {
    if |cs| == 0 then []
    else
      var rest, last := Unsilenced(cs[..|cs| - 1]), cs[|cs| - 1];
      if last.priority > 0 then rest + [last] else rest
  }

  function Without(cs: seq<Candidate>, id: string): seq<Candidate> {
    if |cs| == 0 then []
    else
      var rest, last := Without(cs[..|cs| - 1], id), cs[|cs| - 1];
      if last.id != id then rest + [last] else rest
  }

  /** The pool a draw is made from: nothing silenced, and not the excluded one unless it is all there is. */
  function Pool(cs: seq<Candidate>, exclude: string): seq<Candidate> {
    var eligible := Unsilenced(cs);
    if exclude != "" && |Without(eligible, exclude)| > 0 then Without(eligible, exclude) else eligible
  }

  /** How many of its own intervals a reminder has waited, for one that states no floor a nominal day. */
  function Denominator(c: Candidate): (d: Duration)
    ensures d > 0
  {
    if c.minInterval <= 0 then NOMINAL_INTERVAL else c.minInterval
  }

  function Staleness(c: Candidate, now: Instant): real {
    if c.lastNudged.None? then STALENESS_CAP
    else
      var waited := (now - c.lastNudged.value) as real / Denominator(c) as real;
      if waited > STALENESS_CAP then STALENESS_CAP
      else if waited < 0.0 then 0.0
      else waited
  }

  function Weight(c: Candidate, now: Instant): real {
    if c.priority <= 0 then 0.0 else Times(c.priority as real, Staleness(c, now))
  }

  function Times(a: real, b: real): real {
    a * b
  }

  function Weights(cs: seq<Candidate>, now: Instant): seq<real> {
    seq(|cs|, i requires 0 <= i < |cs| => Weight(cs[i], now))
  }

  function Sum(ws: seq<real>): real {
    if |ws| == 0 then 0.0 else Sum(ws[..|ws| - 1]) + ws[|ws| - 1]
  }

  /** Which slot the point falls in when the weights are laid end to end, or the last one past the end. */
  function SlotFrom(ws: seq<real>, point: real, i: nat): (slot: nat)
    requires i < |ws|
    ensures i <= slot < |ws|
    decreases |ws| - i
  {
    if point - ws[i] < 0.0 || i == |ws| - 1 then i else SlotFrom(ws, point - ws[i], i + 1)
  }

  /** How far along the total a draw fraction lands. */
  function Point(fraction: real, total: real): real {
    fraction * total
  }

  /** The reminder a draw answers with. */
  function Chosen(cs: seq<Candidate>, now: Instant, exclude: string, draw: Draw): Option<Candidate> {
    var pool := Pool(cs, exclude);
    if |pool| == 0 then None
    else
      var ws := Weights(pool, now);
      if Sum(ws) <= 0.0 then Some(pool[draw.number % |pool|])
      else Some(pool[SlotFrom(ws, Point(draw.fraction, Sum(ws)), 0)])
  }

  // ----- Implementation -----

  method Pick(candidates: seq<Candidate>, now: Instant, exclude: string, draw: Draw)
    returns (answer: Option<Candidate>)
    ensures answer == Chosen(candidates, now, exclude, draw)
  {
    hide Weight, Staleness, SlotFrom;
    var eligible: seq<Candidate> := [];
    for i := 0 to |candidates|
      invariant eligible == Unsilenced(candidates[..i])
    {
      assert candidates[..i + 1][..i] == candidates[..i];
      if candidates[i].priority > 0 {
        eligible := eligible + [candidates[i]];
      }
    }
    assert candidates[..|candidates|] == candidates;
    if exclude != "" {
      var filtered: seq<Candidate> := [];
      for i := 0 to |eligible|
        invariant filtered == Without(eligible[..i], exclude)
      {
        assert eligible[..i + 1][..i] == eligible[..i];
        if eligible[i].id != exclude {
          filtered := filtered + [eligible[i]];
        }
      }
      assert eligible[..|eligible|] == eligible;
      if |filtered| > 0 {
        eligible := filtered;
      }
    }
    if |eligible| == 0 {
      return None;
    }

    var weights: seq<real> := [];
    var total := 0.0;
    for i := 0 to |eligible|
      invariant weights == Weights(eligible, now)[..i]
      invariant total == Sum(weights)
    {
      var w := Weight(eligible[i], now);
      assert (weights + [w])[..i] == weights;
      weights := weights + [w];
      total := total + w;
    }
    assert weights == Weights(eligible, now);
    if total <= 0.0 {
      return Some(eligible[draw.number % |eligible|]);
    }

    var slot := DrawSlot(weights, Point(draw.fraction, total));
    return Some(eligible[slot]);
  }

  method DrawSlot(weights: seq<real>, start: real) returns (slot: nat)
    requires |weights| > 0
    ensures slot < |weights| && slot == SlotFrom(weights, start, 0)
  {
    var point := start;
    for i := 0 to |weights|
      invariant i < |weights| ==> SlotFrom(weights, point, i) == SlotFrom(weights, start, 0)
      invariant i == |weights| ==> SlotFrom(weights, start, 0) == |weights| - 1
    {
      point := point - weights[i];
      if point < 0.0 {
        return i;
      }
    }
    return |weights| - 1;
  }

  // ----- The pool -----

  lemma {:induction false} UnsilencedMembers(cs: seq<Candidate>, c: Candidate)
    ensures c in Unsilenced(cs) <==> c in cs && c.priority > 0
  {
    if |cs| > 0 {
      UnsilencedMembers(cs[..|cs| - 1], c);
      assert cs == cs[..|cs| - 1] + [cs[|cs| - 1]];
    }
  }

  lemma {:induction false} WithoutMembers(cs: seq<Candidate>, id: string, c: Candidate)
    ensures c in Without(cs, id) <==> c in cs && c.id != id
  {
    if |cs| > 0 {
      WithoutMembers(cs[..|cs| - 1], id, c);
      assert cs == cs[..|cs| - 1] + [cs[|cs| - 1]];
    }
  }

  /** The pool holds exactly the candidates that are not silenced, less the excluded one when it is not
      the only one left. */
  lemma PoolMembers(cs: seq<Candidate>, exclude: string, c: Candidate)
    ensures c in Pool(cs, exclude) <==>
            && c in cs
            && c.priority > 0
            && (c.id == exclude && exclude != "" ==> forall o :: o in cs && o.priority > 0 ==> o.id == exclude)
  {
    var eligible := Unsilenced(cs);
    forall o ensures o in eligible <==> o in cs && o.priority > 0 { UnsilencedMembers(cs, o); }
    var others := Without(eligible, exclude);
    forall o ensures o in others <==> o in eligible && o.id != exclude { WithoutMembers(eligible, exclude, o); }
    if |others| > 0 {
      assert others[0] in others;
    }
  }

  lemma {:induction false} UnsilencedCounts(cs: seq<Candidate>, c: Candidate)
    ensures multiset(Unsilenced(cs))[c] == if c.priority > 0 then multiset(cs)[c] else 0
  {
    if |cs| > 0 {
      UnsilencedCounts(cs[..|cs| - 1], c);
      assert cs == cs[..|cs| - 1] + [cs[|cs| - 1]];
    }
  }

  lemma {:induction false} WithoutCounts(cs: seq<Candidate>, id: string, c: Candidate)
    ensures multiset(Without(cs, id))[c] == if c.id != id then multiset(cs)[c] else 0
  {
    if |cs| > 0 {
      WithoutCounts(cs[..|cs| - 1], id, c);
      assert cs == cs[..|cs| - 1] + [cs[|cs| - 1]];
    }
  }

  /** And holds each of them as often as it was offered: nobody's chance is doubled. */
  lemma PoolCounts(cs: seq<Candidate>, exclude: string, c: Candidate)
    ensures c in Pool(cs, exclude) ==> multiset(Pool(cs, exclude))[c] == multiset(cs)[c]
  {
    UnsilencedCounts(cs, c);
    WithoutCounts(Unsilenced(cs), exclude, c);
    WithoutMembers(Unsilenced(cs), exclude, c);
    UnsilencedMembers(cs, c);
  }

  /** With nothing to weigh every member of the pool has the same chance: the remainder says which. */
  lemma WeightlessDrawIsUniform(cs: seq<Candidate>, now: Instant, exclude: string, draw: Draw, i: nat)
    requires i < |Pool(cs, exclude)| && Sum(Weights(Pool(cs, exclude), now)) <= 0.0
    requires draw.number % |Pool(cs, exclude)| == i
    ensures Chosen(cs, now, exclude, draw) == Some(Pool(cs, exclude)[i])
  {
  }

  lemma ChosenFromPool(cs: seq<Candidate>, now: Instant, exclude: string, draw: Draw)
    ensures Chosen(cs, now, exclude, draw).Some? ==> Chosen(cs, now, exclude, draw).value in Pool(cs, exclude)
    ensures Chosen(cs, now, exclude, draw).None? <==> Pool(cs, exclude) == []
  {
  }

  /** A draw answers if and only if something is not silenced, and only ever with something that is not. */
  lemma AnswersWhenAnythingCan(cs: seq<Candidate>, now: Instant, exclude: string, draw: Draw)
    ensures Chosen(cs, now, exclude, draw).Some? <==> exists c :: c in cs && c.priority > 0
    ensures Chosen(cs, now, exclude, draw).Some? ==>
              Chosen(cs, now, exclude, draw).value in cs && Chosen(cs, now, exclude, draw).value.priority > 0
  {
    var answer := Chosen(cs, now, exclude, draw);
    ChosenFromPool(cs, now, exclude, draw);
    if answer.Some? {
      PoolMembers(cs, exclude, answer.value);
    } else {
      forall c | c in cs ensures c.priority <= 0 {
        PoolMembers(cs, exclude, c);
        if c.priority > 0 {
          var o :| o in cs && o.priority > 0 && o.id != exclude;
          PoolMembers(cs, exclude, o);
          assert false;
        }
      }
    }
  }

  /** The excluded reminder comes back only when nothing else could be sent at all. */
  lemma RepeatsOnlyWhenAlone(cs: seq<Candidate>, now: Instant, exclude: string, draw: Draw)
    requires exclude != "" && Chosen(cs, now, exclude, draw).Some?
    ensures Chosen(cs, now, exclude, draw).value.id == exclude <==>
            forall c :: c in cs && c.priority > 0 ==> c.id == exclude
  {
    var c := Chosen(cs, now, exclude, draw).value;
    ChosenFromPool(cs, now, exclude, draw);
    PoolMembers(cs, exclude, c);
  }

  // ----- The weighted draw -----

  lemma RealProduct(a: real, b: real)
    requires a > 0.0
    ensures b > 0.0 <==> Times(a, b) > 0.0
    ensures b == 0.0 ==> Times(a, b) == 0.0
    ensures b <= 4.0 ==> Times(a, b) <= 4.0 * a
    ensures b >= 1.0 ==> Times(a, b) >= a
  {
    if b > 0.0 { Positive(a, b); } else { NonNegative(a, -b); }
    if b <= 4.0 { NonNegative(a, 4.0 - b); }
    if b >= 1.0 { NonNegative(a, b - 1.0); }
  }

  lemma Positive(a: real, b: real)
    requires a > 0.0 && b > 0.0
    ensures a * b > 0.0
  {
  }

  lemma NonNegative(a: real, b: real)
    requires a >= 0.0 && b >= 0.0
    ensures a * b >= 0.0
  {
  }

  lemma CancelPositive(a: real, b: real)
    requires b > 0.0 && a * b >= 0.0
    ensures a >= 0.0
  {
    if a < 0.0 { Positive(-a, b); }
  }

  lemma RealQuotient(a: real, b: real)
    requires b > 0.0
    ensures a > 0.0 <==> a / b > 0.0
    ensures a >= b ==> a / b >= 1.0
  {
    var q := a / b;
    assert q * b == a;
    if a > 0.0 { CancelPositive(q, b); }
    if q > 0.0 { Positive(q, b); }
    if a >= b {
      assert (q - 1.0) * b == q * b - b;
      CancelPositive(q - 1.0, b);
    }
  }

  /** The multiplier is bounded on both sides, and a reminder not silenced weighs nothing exactly when it was
      nudged at this very instant or later. */
  lemma WeightBounds(c: Candidate, now: Instant)
    ensures 0.0 <= Weight(c, now)
    ensures c.priority > 0 ==> Weight(c, now) <= 4.0 * c.priority as real
    ensures Weight(c, now) > 0.0 <==> c.priority > 0 && (c.lastNudged.None? || c.lastNudged.value < now)
    ensures c.priority > 0 && (c.lastNudged.None? || now - c.lastNudged.value >= Denominator(c))
            ==> Weight(c, now) >= c.priority as real
  {
    StalenessBounds(c, now);
    if c.priority > 0 {
      RealProduct(c.priority as real, Staleness(c, now));
    }
  }

  /** The weight itself. For a reminder not silenced it grows in proportion to the wait, priority for every
      interval of its own or every day if it states none, from nothing to four times the priority and no
      further; and one never nudged is at four already. */
  lemma WeightExactly(c: Candidate, now: Instant)
    ensures var d := if c.minInterval > 0 then c.minInterval else 24 * 3600 * SECOND;
            && (c.priority <= 0 ==> Weight(c, now) == 0.0)
            && (c.priority > 0 && c.lastNudged.None? ==> Weight(c, now) == 4.0 * c.priority as real)
            && (c.priority > 0 && c.lastNudged.Some? ==>
                  var elapsed := now - c.lastNudged.value;
                  && (elapsed <= 0 ==> Weight(c, now) == 0.0)
                  && (0 <= elapsed <= 4 * d ==> Weight(c, now) * d as real == c.priority as real * elapsed as real)
                  && (elapsed >= 4 * d ==> Weight(c, now) == 4.0 * c.priority as real))
  {
    if c.priority > 0 && c.lastNudged.Some? {
      var d := if c.minInterval > 0 then c.minInterval else 24 * 3600 * SECOND;
      var elapsed := now - c.lastNudged.value;
      StalenessExactly(c, now, d, elapsed);
      if 0 <= elapsed <= 4 * d {
        ProductOfQuotient(c.priority as real, Staleness(c, now), d as real, elapsed as real);
      }
      RealProduct(c.priority as real, Staleness(c, now));
      assert elapsed >= 4 * d ==> Times(c.priority as real, 4.0) == 4.0 * c.priority as real;
    } else if c.priority > 0 {
      assert Times(c.priority as real, 4.0) == 4.0 * c.priority as real;
    }
  }

  lemma StalenessExactly(c: Candidate, now: Instant, d: Duration, elapsed: Duration)
    requires c.lastNudged.Some? && elapsed == now - c.lastNudged.value
    requires d == if c.minInterval > 0 then c.minInterval else 24 * 3600 * SECOND
    ensures elapsed <= 0 ==> Staleness(c, now) == 0.0
    ensures 0 <= elapsed <= 4 * d ==> Staleness(c, now) * d as real == elapsed as real
    ensures elapsed >= 4 * d ==> Staleness(c, now) == 4.0
  {
    var a, b := elapsed as real, d as real;
    var q := a / b;
    assert q * b == a;
    RealQuotient(a, b);
    if q > 4.0 { Positive(q - 4.0, b); assert (q - 4.0) * b == a - 4.0 * b; }
    if q < 4.0 { Positive(4.0 - q, b); assert (4.0 - q) * b == 4.0 * b - a; }
    if q < 0.0 { Positive(-q, b); }
  }

  lemma ProductOfQuotient(p: real, q: real, d: real, e: real)
    requires q * d == e
    ensures Times(p, q) * d == p * e
  {
    assert (p * q) * d == p * (q * d);
  }

  lemma StalenessBounds(c: Candidate, now: Instant)
    ensures 0.0 <= Staleness(c, now) <= STALENESS_CAP
    ensures Staleness(c, now) > 0.0 <==> c.lastNudged.None? || c.lastNudged.value < now
    ensures c.lastNudged.None? || now - c.lastNudged.value >= Denominator(c) ==> Staleness(c, now) >= 1.0
  {
    if c.lastNudged.Some? {
      RealQuotient((now - c.lastNudged.value) as real, Denominator(c) as real);
    }
  }

  function Prefix(ws: seq<real>, i: nat): real
    requires i <= |ws|
  {
    Sum(ws[..i])
  }

  lemma PrefixStep(ws: seq<real>, i: nat)
    requires i < |ws|
    ensures Prefix(ws, i + 1) == Prefix(ws, i) + ws[i]
  {
    assert ws[..i + 1][..i] == ws[..i];
  }

  lemma {:induction false} PrefixMonotone(ws: seq<real>, i: nat, j: nat)
    requires i <= j <= |ws| && forall k :: 0 <= k < |ws| ==> ws[k] >= 0.0
    ensures Prefix(ws, i) <= Prefix(ws, j)
    decreases j
  {
    if i < j {
      PrefixMonotone(ws, i, j - 1);
      PrefixStep(ws, j - 1);
    }
  }

  lemma {:induction false} SlotFromIsInterval(ws: seq<real>, point: real, i: nat)
    requires i < |ws| && forall k :: 0 <= k < |ws| ==> ws[k] >= 0.0
    requires 0.0 <= point && Prefix(ws, i) + point < Sum(ws)
    ensures var slot := SlotFrom(ws, point, i);
            Prefix(ws, slot) <= Prefix(ws, i) + point < Prefix(ws, slot + 1)
    decreases |ws| - i
  {
    PrefixStep(ws, i);
    assert ws[..|ws|] == ws;
    if point - ws[i] >= 0.0 && i < |ws| - 1 {
      SlotFromIsInterval(ws, point - ws[i], i + 1);
    }
  }

  /** The points below the total that select slot i are exactly an interval of length ws[i]: the draw gives
      each slot its own weight and nothing else, a weightless slot nothing at all, and never falls off the end. */
  lemma DrawIsFaithful(ws: seq<real>, point: real, i: nat)
    requires i < |ws| && forall k :: 0 <= k < |ws| ==> ws[k] >= 0.0
    requires 0.0 <= point < Sum(ws)
    ensures SlotFrom(ws, point, 0) == i <==> Prefix(ws, i) <= point < Prefix(ws, i) + ws[i]
  {
    var slot := SlotFrom(ws, point, 0);
    SlotFromIsInterval(ws, point, 0);
    PrefixStep(ws, i);
    PrefixStep(ws, slot);
    if slot < i {
      PrefixMonotone(ws, slot + 1, i);
    } else if i < slot {
      PrefixMonotone(ws, i + 1, slot);
    }
  }

  /** The same, said of reminders: with some weight in the pool, a draw fraction below 1 selects the i-th of
      the pool exactly when its point lies in that reminder's own stretch of the total, and what it selects
      is never weightless. */
  lemma PickIsFaithful(cs: seq<Candidate>, now: Instant, exclude: string, draw: Draw, i: nat)
    requires i < |Pool(cs, exclude)| && 0.0 <= draw.fraction < 1.0
    requires Sum(Weights(Pool(cs, exclude), now)) > 0.0
    ensures var pool := Pool(cs, exclude);
            var ws := Weights(pool, now);
            var point := draw.fraction * Sum(ws);
            var slot := SlotFrom(ws, point, 0);
            && Chosen(cs, now, exclude, draw) == Some(pool[slot])
            && Weight(pool[slot], now) > 0.0
            && (slot == i <==> Prefix(ws, i) <= point < Prefix(ws, i) + Weight(pool[i], now))
  {
    hide Chosen, Pool, Sum, Weight, Point, SlotFrom, Prefix;
    var pool := Pool(cs, exclude);
    var total := Sum(Weights(pool, now));
    PointBelowTotal(draw.fraction, total);
    ChosenAtPoint(cs, now, exclude, draw, draw.fraction * total);
    FaithfulAtPoint(pool, now, draw.fraction * total, i);
  }

  lemma ChosenAtPoint(cs: seq<Candidate>, now: Instant, exclude: string, draw: Draw, point: real)
    requires |Pool(cs, exclude)| > 0 && Sum(Weights(Pool(cs, exclude), now)) > 0.0
    requires point == draw.fraction * Sum(Weights(Pool(cs, exclude), now))
    ensures |Weights(Pool(cs, exclude), now)| == |Pool(cs, exclude)|
    ensures Chosen(cs, now, exclude, draw) == Some(Pool(cs, exclude)[SlotFrom(Weights(Pool(cs, exclude), now), point, 0)])
  {
    hide Pool, Sum, Weight, SlotFrom;
  }

  lemma FaithfulAtPoint(pool: seq<Candidate>, now: Instant, point: real, i: nat)
    requires i < |pool| && 0.0 <= point < Sum(Weights(pool, now))
    ensures var ws := Weights(pool, now);
            var slot := SlotFrom(ws, point, 0);
            && Weight(pool[slot], now) > 0.0
            && (slot == i <==> Prefix(ws, i) <= point < Prefix(ws, i) + Weight(pool[i], now))
  {
    var ws := Weights(pool, now);
    forall k | 0 <= k < |ws| ensures ws[k] >= 0.0 { WeightBounds(pool[k], now); }
    DrawIsFaithful(ws, point, i);
    DrawIsFaithful(ws, point, SlotFrom(ws, point, 0));
  }

  lemma PointBelowTotal(f: real, total: real)
    requires 0.0 <= f < 1.0 && total > 0.0
    ensures Point(f, total) == f * total
    ensures 0.0 <= f * total < total
  {
    var rest := 1.0 - f;
    assert rest * total > 0.0;
    assert f * total + rest * total == total;
  }

  // ----- No starvation -----

  function Priorities(cs: seq<Candidate>): int {
    if |cs| == 0 then 0 else Priorities(cs[..|cs| - 1]) + cs[|cs| - 1].priority
  }

  lemma {:induction false} TotalIsCapped(cs: seq<Candidate>, now: Instant)
    requires forall c :: c in cs ==> c.priority > 0
    ensures Sum(Weights(cs, now)) <= 4.0 * Priorities(cs) as real
    ensures |cs| > 0 ==> Priorities(cs) > 0
    ensures 0.0 <= Sum(Weights(cs, now))
  {
    if |cs| > 0 {
      var shorter := cs[..|cs| - 1];
      TotalIsCapped(shorter, now);
      assert Weights(cs, now)[..|cs| - 1] == Weights(shorter, now);
      WeightBounds(cs[|cs| - 1], now);
    }
  }

  lemma {:induction false} WeightWithinTotal(cs: seq<Candidate>, now: Instant, i: nat)
    requires i < |cs|
    ensures Weight(cs[i], now) <= Sum(Weights(cs, now))
  {
    var ws := Weights(cs, now);
    forall k | 0 <= k < |ws| ensures ws[k] >= 0.0 { WeightBounds(cs[k], now); }
    PrefixStep(ws, i);
    PrefixMonotone(ws, 0, i);
    PrefixMonotone(ws, i + 1, |ws|);
    assert ws[..|ws|] == ws;
  }

  function Share(part: real, whole: real): real {
    if whole <= 0.0 then 0.0 else part / whole
  }

  /** However long everything else has been ignored, a reminder in the pool that has waited at least one of its
      own intervals holds at least a quarter of the share its priority has of all the priorities. */
  lemma NoStarvation(cs: seq<Candidate>, now: Instant, exclude: string, i: nat)
    requires i < |Pool(cs, exclude)|
    requires var c := Pool(cs, exclude)[i];
             c.lastNudged.None? || now - c.lastNudged.value >= Denominator(c)
    ensures var pool := Pool(cs, exclude);
            var total := Sum(Weights(pool, now));
            && total > 0.0
            && Priorities(pool) > 0
            && Share(Weight(pool[i], now), total) >= Share(pool[i].priority as real, 4.0 * Priorities(pool) as real)
  {
    forall c | c in Pool(cs, exclude) ensures c.priority > 0 { PoolMembers(cs, exclude, c); }
    ShareInPool(Pool(cs, exclude), now, i);
  }

  lemma ShareInPool(pool: seq<Candidate>, now: Instant, i: nat)
    requires i < |pool| && forall c :: c in pool ==> c.priority > 0
    requires pool[i].lastNudged.None? || now - pool[i].lastNudged.value >= Denominator(pool[i])
    ensures var total := Sum(Weights(pool, now));
            && total > 0.0
            && Priorities(pool) > 0
            && Share(Weight(pool[i], now), total) >= Share(pool[i].priority as real, 4.0 * Priorities(pool) as real)
  {
    hide *;
    BoundsInPool(pool, now, i);
    ShareMonotone(Weight(pool[i], now), Sum(Weights(pool, now)), pool[i].priority as real, 4.0 * Priorities(pool) as real);
  }

  lemma BoundsInPool(pool: seq<Candidate>, now: Instant, i: nat)
    requires i < |pool| && forall c :: c in pool ==> c.priority > 0
    requires pool[i].lastNudged.None? || now - pool[i].lastNudged.value >= Denominator(pool[i])
    ensures 0.0 < pool[i].priority as real <= Weight(pool[i], now) <= Sum(Weights(pool, now))
    ensures Sum(Weights(pool, now)) <= 4.0 * Priorities(pool) as real
  {
    TotalIsCapped(pool, now);
    assert pool[i] in pool;
    WeightBounds(pool[i], now);
    WeightWithinTotal(pool, now, i);
  }

  lemma ShareMonotone(a: real, b: real, c: real, d: real)
    requires a >= c > 0.0 && 0.0 < b <= d
    ensures Share(a, b) >= Share(c, d)
  {
    var x, y := a / b, c / d;
    assert x * b == a && y * d == c;
    CancelPositive(x, b);
    NonNegative(x, d - b);
    assert x * (d - b) == x * d - x * b;
    assert (x - y) * d == x * d - y * d;
    CancelPositive(x - y, d);
  }
}
