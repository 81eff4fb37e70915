/** A debuff that covers a slot of several body parts and forwards to one
    wrapped debuff. Damage and healing events are only accumulated as they
    arrive; once per tick the accumulated events are forwarded as one
    averaged healing call and one averaged damage call, followed by an
    update, all carrying the mean health fraction of the covered parts.

    The wrapped debuff's own behaviour is not modelled: the calls made on it
    are returned as a trace, in the order they are made. */
module Debuffs {
  import opened Wrappers
  import opened PlayerState

  /** A debuff slot: the ordinals of the body parts it groups. */
  datatype DebuffSlot = DebuffSlot(playerParts: seq<nat>)

  /** Construction refuses a slot of fewer than two parts. */
  datatype ConstructionError = OnlySlotsWithSeveralParts

  /** One call on the wrapped debuff. */
  datatype DebuffCall =
    | HandleHealing(amount: real, healthFraction: real)
    | HandleDamageTaken(amount: real, healthFraction: real)
    | Update(healthFraction: real)

  /** The shared debuff: the covered part ordinals and the four transient
      accumulators. The event counts are Java ints; their wrap-around after
      2^31 events is not modelled. */
  datatype SharedDebuff = SharedDebuff(
    parts: seq<nat>,
    damage: real,
    healingDone: real,
    damageCount: nat,
    healingCount: nat)

  /** The class invariant established by construction. */
  predicate Valid(d: SharedDebuff)
  {
    |d.parts| >= 2
  }

  /** No event is pending. */
  predicate Pristine(d: SharedDebuff)
  {
    d.damage == 0.0 && d.healingDone == 0.0 && d.damageCount == 0 && d.healingCount == 0
  }

  /** The constructor: fails for a slot of at most one part, otherwise
      covers exactly the slot's parts with nothing pending. */
  function New(slot: DebuffSlot): (r: Result<SharedDebuff, ConstructionError>)
    ensures r.Success? <==> |slot.playerParts| > 1
    ensures r.Success? ==> Valid(r.value) && Pristine(r.value) && r.value.parts == slot.playerParts
  {
    if |slot.playerParts| <= 1 then Failure(OnlySlotsWithSeveralParts)
    else Success(SharedDebuff(slot.playerParts, 0.0, 0.0, 0, 0))
  }

  /** `handleDamageTaken`: accumulate only; the wrapped debuff is not called. */
  function RecordDamage(d: SharedDebuff, amount: real): (r: SharedDebuff)
    ensures r.damage == d.damage + amount && r.damageCount == d.damageCount + 1
    ensures r.healingDone == d.healingDone && r.healingCount == d.healingCount
    ensures r.parts == d.parts
  {
    d.(damage := d.damage + amount, damageCount := d.damageCount + 1)
  }

  /** `handleHealing`: accumulate only; the wrapped debuff is not called. */
  function RecordHealing(d: SharedDebuff, amount: real): (r: SharedDebuff)
    ensures r.healingDone == d.healingDone + amount && r.healingCount == d.healingCount + 1
    ensures r.damage == d.damage && r.damageCount == d.damageCount
    ensures r.parts == d.parts
  {
    d.(healingDone := d.healingDone + amount, healingCount := d.healingCount + 1)
  }

  // ---------------------------------------------------------------------------
  // Health fraction
  // ---------------------------------------------------------------------------

  /** Every covered ordinal names a part of the model, with positive maximum health. */
  predicate Covers(m: PlayerDamageModel, parts: seq<nat>)
  {
    forall i :: 0 <= i < |parts| ==> parts[i] < |m.parts| && m.parts[parts[i]].maxHealth > 0.0
  }

  function Fraction(m: PlayerDamageModel, o: nat): real
    requires o < |m.parts| && m.parts[o].maxHealth > 0.0
  {
    m.parts[o].currentHealth / m.parts[o].maxHealth
  }

  /** Sum of the fractions, accumulated left to right as `tick`'s loop does. */
  function FractionSum(m: PlayerDamageModel, parts: seq<nat>): real
    requires Covers(m, parts)
  {
    if |parts| == 0 then 0.0
    else FractionSum(m, parts[..|parts| - 1]) + Fraction(m, parts[|parts| - 1])
  }

  /** The arithmetic mean of `current / max` over the covered parts. */
  function HealthFraction(m: PlayerDamageModel, parts: seq<nat>): real
    requires Covers(m, parts) && |parts| > 0
  {
    FractionSum(m, parts) / (|parts| as real)
  }

  /** `tick`'s health-fraction loop: sum `current / max` part by part, then
      divide by the number of parts. */
  method ComputeHealthFraction(m: PlayerDamageModel, parts: seq<nat>) returns (f: real)
    requires Covers(m, parts) && |parts| > 0
    ensures f == HealthFraction(m, parts)
  {
    f := 0.0;
    var i := 0;
    while i < |parts|
      invariant 0 <= i <= |parts|
      invariant f == FractionSum(m, parts[..i])
    {
      assert parts[..i + 1][..i] == parts[..i];
      f := f + Fraction(m, parts[i]);
      i := i + 1;
    }
    assert parts[..i] == parts;
    f := f / (|parts| as real);
  }

  lemma {:induction false} FractionSumBounds(m: PlayerDamageModel, parts: seq<nat>)
    requires Covers(m, parts)
    requires forall i :: 0 <= i < |parts| ==> 0.0 <= m.parts[parts[i]].currentHealth <= m.parts[parts[i]].maxHealth
    ensures 0.0 <= FractionSum(m, parts) <= |parts| as real
  {
    if |parts| > 0 {
      var init := parts[..|parts| - 1];
      var o := parts[|parts| - 1];
      assert Covers(m, init) by {
        forall i | 0 <= i < |init| ensures init[i] < |m.parts| && m.parts[init[i]].maxHealth > 0.0 {
          assert init[i] == parts[i];
        }
      }
      forall i | 0 <= i < |init|
        ensures 0.0 <= m.parts[init[i]].currentHealth <= m.parts[init[i]].maxHealth
      {
        assert init[i] == parts[i];
      }
      FractionSumBounds(m, init);
      FractionInUnitInterval(m.parts[o].currentHealth, m.parts[o].maxHealth);
    }
  }

  lemma FractionInUnitInterval(c: real, mx: real)
    requires 0.0 <= c <= mx && mx > 0.0
    ensures 0.0 <= c / mx <= 1.0
  {
  }

  /** The health fraction lies in [0, 1] when every covered part has
      0 <= current <= max. */
  lemma HealthFractionInUnitInterval(m: PlayerDamageModel, parts: seq<nat>)
    requires Covers(m, parts) && |parts| > 0
    requires forall i :: 0 <= i < |parts| ==> 0.0 <= m.parts[parts[i]].currentHealth <= m.parts[parts[i]].maxHealth
    ensures 0.0 <= HealthFraction(m, parts) <= 1.0
  {
    FractionSumBounds(m, parts);
    FractionInUnitInterval(FractionSum(m, parts), |parts| as real);
  }

  lemma {:induction false} FractionSumAppend(m: PlayerDamageModel, a: seq<nat>, b: seq<nat>)
    requires Covers(m, a) && Covers(m, b)
    ensures Covers(m, a + b)
    ensures FractionSum(m, a + b) == FractionSum(m, a) + FractionSum(m, b)
  {
    assert Covers(m, a + b) by {
      forall i | 0 <= i < |a + b| ensures (a + b)[i] < |m.parts| && m.parts[(a + b)[i]].maxHealth > 0.0 {
        if i < |a| { assert (a + b)[i] == a[i]; } else { assert (a + b)[i] == b[i - |a|]; }
      }
    }
    if |b| > 0 {
      var init := b[..|b| - 1];
      assert Covers(m, init) by {
        forall i | 0 <= i < |init| ensures init[i] < |m.parts| && m.parts[init[i]].maxHealth > 0.0 {
          assert init[i] == b[i];
        }
      }
      FractionSumAppend(m, a, init);
      assert (a + b)[..|a + b| - 1] == a + init;
    } else {
      assert a + b == a;
    }
  }

  lemma CoversSubset(m: PlayerDamageModel, xs: seq<nat>, ys: seq<nat>)
    requires Covers(m, ys) && multiset(xs) <= multiset(ys)
    ensures Covers(m, xs)
  {
    forall i | 0 <= i < |xs| ensures xs[i] < |m.parts| && m.parts[xs[i]].maxHealth > 0.0 {
      assert xs[i] in multiset(xs);
      assert xs[i] in multiset(ys);
      var j :| 0 <= j < |ys| && ys[j] == xs[i];
    }
  }

  /** Taking one part out of the middle of the sequence removes exactly its
      fraction from the sum. */
  lemma FractionSumRemove(m: PlayerDamageModel, ys: seq<nat>, i: nat)
    requires Covers(m, ys) && i < |ys|
    ensures Covers(m, ys[..i] + ys[i + 1..])
    ensures FractionSum(m, ys) == FractionSum(m, ys[..i] + ys[i + 1..]) + Fraction(m, ys[i])
  {
    var pre, x, post := ys[..i], ys[i], ys[i + 1..];
    assert ys == (pre + [x]) + post;
    CoversSubset(m, pre + [x], ys);
    CoversSubset(m, pre, ys);
    CoversSubset(m, post, ys);
    FractionSumAppend(m, pre + [x], post);
    assert (pre + [x])[..|pre + [x]| - 1] == pre;
    FractionSumAppend(m, pre, post);
  }

  /** Locates the last element of `xs` in its permutation `ys` and shows
      that the remaining elements are still permutations of each other. */
  lemma RemoveOneMultiset(xs: seq<nat>, ys: seq<nat>) returns (i: nat)
    requires |xs| > 0 && multiset(xs) == multiset(ys)
    ensures i < |ys| && ys[i] == xs[|xs| - 1]
    ensures multiset(xs[..|xs| - 1]) == multiset(ys[..i] + ys[i + 1..])
    ensures multiset(xs[..|xs| - 1]) <= multiset(xs)
  {
    var n := |xs| - 1;
    var x := xs[n];
    assert xs == xs[..n] + [x];
    var rx := multiset(xs[..n]);
    assert multiset(xs) == rx + multiset{x};
    assert x in multiset(ys);
    i :| 0 <= i < |ys| && ys[i] == x;
    assert ys == ys[..i] + [x] + ys[i + 1..];
    var ry := multiset(ys[..i] + ys[i + 1..]);
    assert ry == multiset(ys[..i]) + multiset(ys[i + 1..]);
    assert multiset(ys) == ry + multiset{x};
    assert rx == (rx + multiset{x}) - multiset{x};
    assert ry == (ry + multiset{x}) - multiset{x};
  }

  /** The health fraction does not depend on the order of the parts: it is a
      function of the multiset of covered ordinals. */
  lemma {:induction false} FractionSumPermutation(m: PlayerDamageModel, xs: seq<nat>, ys: seq<nat>)
    requires Covers(m, xs) && Covers(m, ys)
    requires multiset(xs) == multiset(ys)
    ensures FractionSum(m, xs) == FractionSum(m, ys)
    decreases |xs|
  {
    if |xs| == 0 {
      assert |ys| == |multiset(ys)| == 0;
    } else {
      var n := |xs| - 1;
      var i := RemoveOneMultiset(xs, ys);
      FractionSumRemove(m, ys, i);
      CoversSubset(m, xs[..n], xs);
      FractionSumPermutation(m, xs[..n], ys[..i] + ys[i + 1..]);
    }
  }

  lemma HealthFractionPermutation(m: PlayerDamageModel, xs: seq<nat>, ys: seq<nat>)
    requires Covers(m, xs) && |xs| > 0
    requires multiset(xs) == multiset(ys)
    ensures Covers(m, ys) && |ys| == |xs|
    ensures HealthFraction(m, xs) == HealthFraction(m, ys)
  {
    CoversSubset(m, ys, xs);
    assert |ys| == |multiset(ys)| == |multiset(xs)| == |xs|;
    FractionSumPermutation(m, xs, ys);
  }

  // ---------------------------------------------------------------------------
  // Tick
  // ---------------------------------------------------------------------------

  /** `tick` acts only for a server-side player whose damage model is present. */
  predicate Eligible(player: Player)
  {
    player.isServerPlayer && player.damageModel.Some?
  }

  /** What `tick` needs of an eligible player: every covered part exists and
      has positive maximum health (an invariant of the damage model that the
      shared debuff relies on without checking). */
  predicate TickReady(parts: seq<nat>, player: Player)
  {
    Eligible(player) ==> Covers(player.damageModel.value, parts)
  }

  function Mean(xs: seq<real>): real
    requires |xs| > 0
  {
    Sum(xs) / (|xs| as real)
  }

  function Sum(xs: seq<real>): real
  {
    if |xs| == 0 then 0.0 else xs[0] + Sum(xs[1..])
  }

  /** The calls `tick` makes on the wrapped debuff for the pending events,
      given the health fraction. */
  function Flush(d: SharedDebuff, f: real): seq<DebuffCall>
  {
    (if d.healingCount > 0 then [HandleHealing(d.healingDone / (d.healingCount as real), f)] else [])
    + (if d.damageCount > 0 then [HandleDamageTaken(d.damage / (d.damageCount as real), f)] else [])
    + [Update(f)]
  }

  /** `tick`: a no-op that keeps the pending events for an ineligible player;
      otherwise forwards the averaged events and an update, then clears the
      accumulators. */
  function Tick(d: SharedDebuff, player: Player): (r: (SharedDebuff, seq<DebuffCall>))
    requires Valid(d) && TickReady(d.parts, player)
    ensures !Eligible(player) ==> r.0 == d && r.1 == []
    ensures Eligible(player) ==> Pristine(r.0) && r.0.parts == d.parts
    ensures Eligible(player) ==>
      var f := HealthFraction(player.damageModel.value, d.parts);
      var trace := r.1;
      && |trace| == 1 + (if d.healingCount > 0 then 1 else 0) + (if d.damageCount > 0 then 1 else 0)
      && trace[|trace| - 1] == Update(f)
      && (forall i :: 0 <= i < |trace| - 1 ==> !trace[i].Update?)
      && (forall i :: 0 <= i < |trace| ==> trace[i].healthFraction == f)
      && (d.healingCount > 0 <==> trace[0].HandleHealing?)
      && (d.healingCount > 0 ==> trace[0].amount == d.healingDone / (d.healingCount as real))
      && (d.damageCount > 0 <==> (|trace| >= 2 && trace[|trace| - 2].HandleDamageTaken?))
      && (d.damageCount > 0 ==> trace[|trace| - 2].amount == d.damage / (d.damageCount as real))
      && (forall i :: 0 <= i < |trace| && trace[i].HandleDamageTaken? ==>
            forall j :: 0 <= j < i ==> !trace[j].HandleDamageTaken?)
      && (forall i, j :: 0 <= i < j < |trace| && trace[j].HandleHealing? ==> trace[i].HandleHealing?)
  {
    if !Eligible(player) then (d, [])
    else
      var f := HealthFraction(player.damageModel.value, d.parts);
      (d.(damage := 0.0, healingDone := 0.0, damageCount := 0, healingCount := 0), Flush(d, f))
  }

  // ---------------------------------------------------------------------------
  // Sequences of events
  // ---------------------------------------------------------------------------

  /** An event reaching the shared debuff: a damage or healing report, or a tick. */
  datatype Event = DamageTaken(amount: real) | Healed(amount: real) | TickFor(player: Player)

  predicate EventReady(parts: seq<nat>, e: Event)
  {
    e.TickFor? ==> TickReady(parts, e.player)
  }

  function Step(d: SharedDebuff, e: Event): (r: (SharedDebuff, seq<DebuffCall>))
    requires Valid(d) && EventReady(d.parts, e)
    ensures Valid(r.0) && r.0.parts == d.parts
    ensures !e.TickFor? ==> r.1 == []
  {
    match e
    case DamageTaken(a) => (RecordDamage(d, a), [])
    case Healed(a) => (RecordHealing(d, a), [])
    case TickFor(p) => Tick(d, p)
  }

  /** Feeds the events to the shared debuff in order; returns the final state
      and every call made on the wrapped debuff. */
  function Run(d: SharedDebuff, events: seq<Event>): (r: (SharedDebuff, seq<DebuffCall>))
    requires Valid(d)
    requires forall i :: 0 <= i < |events| ==> EventReady(d.parts, events[i])
    ensures Valid(r.0) && r.0.parts == d.parts
    decreases |events|
  {
    if |events| == 0 then (d, [])
    else
      var s := Step(d, events[0]);
      var rest := Run(s.0, events[1..]);
      (rest.0, s.1 + rest.1)
  }

  function DamageAmounts(events: seq<Event>): seq<real>
  {
    if |events| == 0 then []
    else (if events[0].DamageTaken? then [events[0].amount] else []) + DamageAmounts(events[1..])
  }

  function HealingAmounts(events: seq<Event>): seq<real>
  {
    if |events| == 0 then []
    else (if events[0].Healed? then [events[0].amount] else []) + HealingAmounts(events[1..])
  }

  /** No tick among the events finds the player eligible. */
  predicate AllTicksSkipped(events: seq<Event>)
  {
    forall i :: 0 <= i < |events| && events[i].TickFor? ==> !Eligible(events[i].player)
  }

  /** Events reported across skipped ticks pile up: the accumulators grow by
      the sum and number of the reported amounts, and nothing is forwarded. */
  lemma {:induction false} SkippedTicksKeepPending(d: SharedDebuff, events: seq<Event>)
    requires Valid(d) && AllTicksSkipped(events)
    ensures forall i :: 0 <= i < |events| ==> EventReady(d.parts, events[i])
    ensures Run(d, events).1 == []
    ensures Run(d, events).0 == d.(
      damage := d.damage + Sum(DamageAmounts(events)),
      damageCount := d.damageCount + |DamageAmounts(events)|,
      healingDone := d.healingDone + Sum(HealingAmounts(events)),
      healingCount := d.healingCount + |HealingAmounts(events)|)
    decreases |events|
  {
    if |events| > 0 {
      var e := events[0];
      assert EventReady(d.parts, e);
      var s := Step(d, e);
      assert AllTicksSkipped(events[1..]) by {
        forall i | 0 <= i < |events[1..]| && events[1..][i].TickFor?
          ensures !Eligible(events[1..][i].player)
        {
          assert events[1..][i] == events[i + 1];
        }
      }
      SkippedTicksKeepPending(s.0, events[1..]);
      assert Run(d, events) == (Run(s.0, events[1..]).0, s.1 + Run(s.0, events[1..]).1);
      match e
      case DamageTaken(a) =>
        assert DamageAmounts(events) == [a] + DamageAmounts(events[1..]);
        assert HealingAmounts(events) == HealingAmounts(events[1..]);
        assert Sum(DamageAmounts(events)) == a + Sum(DamageAmounts(events[1..])) by {
          assert DamageAmounts(events)[1..] == DamageAmounts(events[1..]);
        }
      case Healed(a) =>
        assert HealingAmounts(events) == [a] + HealingAmounts(events[1..]);
        assert DamageAmounts(events) == DamageAmounts(events[1..]);
        assert Sum(HealingAmounts(events)) == a + Sum(HealingAmounts(events[1..])) by {
          assert HealingAmounts(events)[1..] == HealingAmounts(events[1..]);
        }
      case TickFor(p) =>
        assert DamageAmounts(events) == DamageAmounts(events[1..]);
        assert HealingAmounts(events) == HealingAmounts(events[1..]);
    }
  }

  /** Starting from nothing pending, the first tick that finds the player
      eligible forwards the mean of every healing amount and the mean of
      every damage amount reported since, however many ticks were skipped,
      and then the update. */
  lemma FlushAveragesAllPending(d: SharedDebuff, events: seq<Event>, player: Player)
    requires Valid(d) && Pristine(d) && AllTicksSkipped(events)
    requires Eligible(player) && TickReady(d.parts, player)
    ensures forall i :: 0 <= i < |events| ==> EventReady(d.parts, events[i])
    ensures
      var pending := Run(d, events).0;
      var f := HealthFraction(player.damageModel.value, d.parts);
      var heal := HealingAmounts(events);
      var dmg := DamageAmounts(events);
      && pending.parts == d.parts
      && Tick(pending, player).1 ==
           (if |heal| > 0 then [HandleHealing(Mean(heal), f)] else [])
           + (if |dmg| > 0 then [HandleDamageTaken(Mean(dmg), f)] else [])
           + [Update(f)]
  {
    SkippedTicksKeepPending(d, events);
  }

  /** With no events between them, the second of two successful ticks only
      calls `update`. */
  lemma SecondTickOnlyUpdates(d: SharedDebuff, p1: Player, p2: Player)
    requires Valid(d) && TickReady(d.parts, p1) && TickReady(d.parts, p2)
    requires Eligible(p1) && Eligible(p2)
    ensures Valid(Tick(d, p1).0) && TickReady(Tick(d, p1).0.parts, p2)
    ensures Tick(Tick(d, p1).0, p2).1 == [Update(HealthFraction(p2.damageModel.value, d.parts))]
  {
  }

  /** The worked scenario: two parts at 0.8 and 0.4, damage 4 and 2, healing
      10; the tick forwards healing 10, damage 3 and the update, all at 0.6,
      and clears the accumulators. */
  lemma TwoPartScenario()
    ensures
      var model := PlayerDamageModel([DamageablePart(4.0, 5.0, None), DamageablePart(2.0, 5.0, None)]);
      var player := Player(true, Inventory(ItemStack(OtherItem(0), 0), ItemStack(OtherItem(0), 0)), Some(model));
      var d := RecordHealing(RecordDamage(RecordDamage(New(DebuffSlot([0, 1])).value, 4.0), 2.0), 10.0);
      && Tick(d, player).1 == [HandleHealing(10.0, 0.6), HandleDamageTaken(3.0, 0.6), Update(0.6)]
      && Pristine(Tick(d, player).0)
  {
    var model := PlayerDamageModel([DamageablePart(4.0, 5.0, None), DamageablePart(2.0, 5.0, None)]);
    assert HealthFraction(model, [0, 1]) == 0.6 by {
      assert [0, 1][..1] == [0];
      assert [0][..0] == [];
    }
  }
}
