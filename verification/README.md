# FirstAid: shared debuff and healing-item message, modelled in Dafny

This project models two host-independent pieces of the FirstAid mod's
per-player health system.

- **The shared debuff** (`module Debuffs`, `shared_debuff.dfy`). It is a
  debuff for a slot that groups several body parts (both arms, say) and wraps
  one underlying debuff. Damage and healing reports are only accumulated:
  a running sum and a count for each. Once per tick it does three things for
  a server-side player whose damage model is present. It computes the mean
  `current / max` health fraction over the slot's parts. It forwards one
  averaged healing call and then one averaged damage call, each only if such
  events are pending. It clears the accumulators and calls `update`. The
  calls on the wrapped debuff are returned as a trace of `DebuffCall`
  values, so their order is part of every contract.
- **The apply-healing-item message** (`module ApplyHealingItem`,
  `apply_healing_item.dfy`). It has a two-byte wire format: the body-part
  ordinal as a byte, then the hand as a boolean. Its server-side handler
  decides among three outcomes. With no damage model it does nothing. With
  an item that yields no healer it changes nothing and the player is told.
  Otherwise the stack in hand shrinks by one and the named part gets the new
  healer.

`module PlayerState` (`player_state.dfy`) holds the slice of player state
both read. `module Wrappers` (`wrappers.dfy`) holds `Option` and `Result`.
Floats are modelled as `real`. Body parts are their ordinals. `partCount`
stands for the number of body-part constants.

## Model

| member | source | states |
|---|---|---|
| `Debuffs.New` | src/main/java/ichttt/mods/firstaid/common/damagesystem/debuff/SharedDebuff.java:39-44 | construction fails exactly when the slot has at most one part; otherwise the debuff covers exactly the slot's parts (so at least two), with nothing pending |
| `Debuffs.RecordDamage` | src/main/java/ichttt/mods/firstaid/common/damagesystem/debuff/SharedDebuff.java:47-50 | a damage report adds its amount to the damage sum and one to the damage count; healing fields and parts are unchanged, and nothing is forwarded |
| `Debuffs.RecordHealing` | src/main/java/ichttt/mods/firstaid/common/damagesystem/debuff/SharedDebuff.java:53-56 | a healing report adds its amount to the healing sum and one to the healing count; damage fields and parts are unchanged, and nothing is forwarded |
| `Debuffs.Tick` | src/main/java/ichttt/mods/firstaid/common/damagesystem/debuff/SharedDebuff.java:58-83 | for a non-server player or a missing damage model: empty trace, state untouched; otherwise: healing call iff healing is pending (first, with the healing mean), damage call iff damage is pending (after it, with the damage mean), exactly one update and it is last, every call carries the mean health fraction, and all four accumulators end at zero |
| `Debuffs.ComputeHealthFraction` | src/main/java/ichttt/mods/firstaid/common/damagesystem/debuff/SharedDebuff.java:64-70 | the source's summing loop followed by the division by the part count yields the arithmetic mean of `current / max` over exactly the covered parts |
| `Debuffs.HealthFractionInUnitInterval` | src/main/java/ichttt/mods/firstaid/common/damagesystem/debuff/SharedDebuff.java:64-70 | the health fraction lies in [0, 1] when every covered part has 0 <= current <= max and max > 0 |
| `Debuffs.FractionSumPermutation` | src/main/java/ichttt/mods/firstaid/common/damagesystem/debuff/SharedDebuff.java:65-68 | the summed fractions depend only on the multiset of covered parts, not their order |
| `Debuffs.HealthFractionPermutation` | src/main/java/ichttt/mods/firstaid/common/damagesystem/debuff/SharedDebuff.java:64-70 | the health fraction is the same for any reordering of the covered parts |
| `Debuffs.Run` | src/main/java/ichttt/mods/firstaid/common/damagesystem/debuff/SharedDebuff.java:33-43 | over any sequence of reports and ticks the covered parts never change and the two-part invariant is kept |
| `Debuffs.SkippedTicksKeepPending` | src/main/java/ichttt/mods/firstaid/common/damagesystem/debuff/SharedDebuff.java:47-63 | reports interleaved with ticks that find the player ineligible forward nothing; the sums grow by exactly the reported amounts and the counts by their number |
| `Debuffs.FlushAveragesAllPending` | src/main/java/ichttt/mods/firstaid/common/damagesystem/debuff/SharedDebuff.java:47-82 | from nothing pending, the first successful tick forwards the mean of every healing amount and of every damage amount reported since, across any skipped ticks, then the update |
| `Debuffs.SecondTickOnlyUpdates` | src/main/java/ichttt/mods/firstaid/common/damagesystem/debuff/SharedDebuff.java:71-82 | two successful ticks with no report between them: the second forwards only the update |
| `Debuffs.TwoPartScenario` | src/main/java/ichttt/mods/firstaid/common/damagesystem/debuff/SharedDebuff.java:58-83 | parts at 0.8 and 0.4, damage 4 and 2, healing 10: the tick forwards healing 10, damage 3, update, all at fraction 0.6 |
| `ApplyHealingItem.Encode` | src/main/java/ichttt/mods/firstaid/common/network/MessageApplyHealingItem.java:53-56 | exactly two bytes: the part byte, which reads back as the ordinal iff the ordinal is below 128, then a boolean byte that is non-zero iff the hand is the main hand |
| `ApplyHealingItem.Decode` | src/main/java/ichttt/mods/firstaid/common/network/MessageApplyHealingItem.java:43-46 | succeeds iff there are two bytes and the signed part byte is a valid ordinal; an empty buffer underflows; an out-of-range part byte fails with that index; a valid part byte with no second byte underflows; on success the part is the first byte read as a signed byte, the hand is main iff the second byte is non-zero, and exactly two bytes are consumed |
| `ApplyHealingItem.HandBijection` | src/main/java/ichttt/mods/firstaid/common/network/MessageApplyHealingItem.java:45-55 | true maps to the main hand and false to the off hand, in both directions |
| `ApplyHealingItem.RoundTrip` | src/main/java/ichttt/mods/firstaid/common/network/MessageApplyHealingItem.java:43-56 | decoding the bytes written by encode yields the same part and hand for every ordinal below the part count and at most 127, leaving the following bytes unread |
| `ApplyHealingItem.EncodeDecoded` | src/main/java/ichttt/mods/firstaid/common/network/MessageApplyHealingItem.java:43-56 | re-encoding a decoded message reproduces the two bytes read when the boolean byte is 0 or 1 |
| `ApplyHealingItem.LargeOrdinalDoesNotRoundTrip` | src/main/java/ichttt/mods/firstaid/common/network/MessageApplyHealingItem.java:43-56 | an ordinal of 128 or more does not survive the byte encoding |
| `ApplyHealingItem.OnMessage` | src/main/java/ichttt/mods/firstaid/common/network/MessageApplyHealingItem.java:63-79 | no damage model: nothing changes; an empty stack (its item is air), an item that is not a healing item, or one that yields no healer: nothing changes and the player is told; otherwise the chosen hand's stack shrinks by exactly one, the named part alone gets the new healer, and the other hand and all other parts are unchanged |
| `ApplyHealingItem.LastItemThenRefused` | src/main/java/ichttt/mods/firstaid/common/network/MessageApplyHealingItem.java:66-76 | after the last item of a stack is applied the hand is empty, and the same message sent again is refused without changing anything |
| `ApplyHealingItem.HealerCountUpdate` | src/main/java/ichttt/mods/firstaid/common/network/MessageApplyHealingItem.java:77-78 | installing a healer on one part raises the number of parts with a healer by one if it had none, and otherwise leaves it |
| `ApplyHealingItem.HandlerAccounting` | src/main/java/ichttt/mods/firstaid/common/network/MessageApplyHealingItem.java:64-78 | one item is consumed exactly when a healer is applied; then at most one more part carries a healer; a well-formed damage model stays well-formed since health is never touched |
| `ApplyHealingItem.DeliveredMessageTargetsItsPart` | src/main/java/ichttt/mods/firstaid/common/network/MessageApplyHealingItem.java:43-78 | a message encoded, decoded and handled installs the healer on the part it was built for and consumes one item from the hand it named |

## Left out

- `CapProvider` and `CapWrapper`: thin adapters over the host's capability interfaces, whose serialisation delegates to a damage model that is not part of this model.
- The server check and hand-off to the server thread in the message handler, the warning log and the registry lookup it prints: host scheduling and I/O. The chat message "Unable to apply healing item!" is the `InvalidItem` outcome.
- The wrapped debuff's behaviour: only the calls made on it are modelled, as a trace.
- The concrete damage model, `EnumPlayerPart` and `EnumDebuffSlot`: parts are ordinals into `PlayerDamageModel.parts` and the number of constants is the parameter `partCount`.
- `ItemHealing.createNewHealer`: a parameter function; healers are opaque identities. An empty stack never reaches it, because the host reports an empty stack's item as air.
- Stack counts are natural numbers; the host's clamping of counts above the stack limit is not modelled.
- Debuffs.Tick: requires every covered part to exist with positive maximum health, an invariant of the damage model that `SharedDebuff` relies on without checking; the source would produce infinities or NaN otherwise.
- Debuffs.RecordDamage: the counts are unbounded; the Java `int` wrap-around after 2^31 reports is not modelled.
- Debuffs.RecordHealing: same unbounded count as for damage.
- IEEE float rounding in sums and averages: amounts and fractions are `real`, so exact float equality is not claimed.
- ApplyHealingItem.OnMessage: requires the named part to exist in the damage model, since the lookup by part constant is total in the host.
- What the host does with bytes left over after the message is not modelled; `Decode` returns them.
