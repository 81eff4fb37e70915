/** The slice of a player's state that the two modelled components read and
    write: the extended damage model (one damageable part per body-part
    ordinal) and the item stacks held in either hand. The concrete damage
    model, the part healers and the items themselves belong to the host and
    are represented here only by the fields the components touch. */
module PlayerState {
  import opened Wrappers

  /** Stands for an `AbstractPartHealer` instance; its behaviour is opaque
      here, only its identity matters. */
  datatype Healer = Healer(id: nat)

  /** One body part of the damage model. `maxHealth` is an integer in the
      host; it is kept as a real here because the components only divide by it. */
  datatype DamageablePart = DamageablePart(currentHealth: real, maxHealth: real, activeHealer: Option<Healer>)

  /** The player's damage model; `parts[o]` is the part whose body-part
      ordinal is `o`, so `parts[o]` is what `getFromEnum` returns. */
  datatype PlayerDamageModel = PlayerDamageModel(parts: seq<DamageablePart>)

  /** Health of every part lies between zero and a positive maximum. */
  ghost predicate WellFormed(m: PlayerDamageModel)
  {
    forall o :: 0 <= o < |m.parts| ==>
      0.0 < m.parts[o].maxHealth && 0.0 <= m.parts[o].currentHealth <= m.parts[o].maxHealth
  }

  datatype Hand = MainHand | OffHand

  function OtherHand(h: Hand): (o: Hand)
    ensures o != h
  {
    if h == MainHand then OffHand else MainHand
  }

  /** An item type: a healing item, which can create part healers, or any other item. */
  datatype Item = HealingItem(kind: nat) | OtherItem(kind: nat)

  /** A stack whose count is zero is empty: the host then reports its item
      as air, whatever item it held before. */
  datatype ItemStack = ItemStack(item: Item, count: nat)
  {
    predicate IsEmpty()
    {
      count == 0
    }
  }

  /** The stacks in the two hands; an empty hand holds an empty stack. */
  datatype Inventory = Inventory(mainHand: ItemStack, offHand: ItemStack)
  {
    function Get(h: Hand): ItemStack
    {
      if h == MainHand then mainHand else offHand
    }

    function Set(h: Hand, s: ItemStack): (r: Inventory)
      ensures r.Get(h) == s
      ensures r.Get(OtherHand(h)) == Get(OtherHand(h))
    {
      if h == MainHand then this.(mainHand := s) else this.(offHand := s)
    }
  }

  /** `isServerPlayer` says whether the entity is a server-side player;
      `damageModel` is `None` when the capability lookup yields null. */
  datatype Player = Player(isServerPlayer: bool, inventory: Inventory, damageModel: Option<PlayerDamageModel>)
}
