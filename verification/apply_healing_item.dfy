/** The network message a client sends to apply the healing item in one of
    its hands to one body part: its two-field wire format and the server-side
    decision taken when it arrives.

    Body parts are identified by their ordinal; `partCount` is the number of
    body-part constants (the length of the ordinal-indexed values array).
    The wire is modelled as a sequence of unsigned byte values. */
module ApplyHealingItem {
  import opened Wrappers
  import opened PlayerState

  type Byte = b: int | 0 <= b < 256

  datatype Message = Message(part: nat, hand: Hand)

  datatype DecodeError =
    | BufferUnderflow                 // fewer bytes than the message needs
    | PartIndexOutOfRange(index: int) // the part byte is not an ordinal

  /** `writeByte` keeps the low eight bits of its argument. */
  function WriteByte(v: int): Byte
  {
    v % 256
  }

  /** `readByte` yields a signed byte. */
  function ReadSignedByte(b: Byte): (v: int)
    ensures -128 <= v < 128
    ensures WriteByte(v) == b
  {
    if b < 128 then b else b - 256
  }

  /** `writeBoolean` writes one or zero. */
  function EncodeHand(h: Hand): (b: Byte)
    ensures b == 1 || b == 0
  {
    if h == MainHand then 1 else 0
  }

  /** `readBoolean` is true for any non-zero byte; true selects the main hand. */
  function DecodeHand(b: Byte): Hand
  {
    if b != 0 then MainHand else OffHand
  }

  /** The hand mapping is a bijection between the two hands and the two
      canonical boolean bytes. */
  lemma HandBijection(h: Hand, b: Byte)
    ensures DecodeHand(EncodeHand(h)) == h
    ensures (EncodeHand(h) == 1) <==> (h == MainHand)
    ensures b == 0 || b == 1 ==> EncodeHand(DecodeHand(b)) == b
    ensures (DecodeHand(b) == MainHand) <==> b != 0
  {
  }

  /** `encode`: the part ordinal as one byte, then the hand as a boolean. */
  function Encode(m: Message): (bytes: seq<Byte>)
    ensures |bytes| == 2
    ensures ReadSignedByte(bytes[0]) == m.part <==> m.part < 128
    ensures (bytes[1] != 0) <==> (m.hand == MainHand)
  {
    [WriteByte(m.part), EncodeHand(m.hand)]
  }

  /** The buffer constructor: reads the part byte and indexes the values
      array with it (which throws for an index outside it), then reads the
      hand. Returns the message and the bytes left unread. */
  function Decode(buf: seq<Byte>, partCount: nat): (r: Result<(Message, seq<Byte>), DecodeError>)
    ensures r.Success? <==>
      |buf| >= 2 && 0 <= ReadSignedByte(buf[0]) < partCount
    ensures |buf| == 0 ==> r == Failure(BufferUnderflow)
    ensures |buf| == 1 && 0 <= ReadSignedByte(buf[0]) < partCount ==> r == Failure(BufferUnderflow)
    ensures |buf| > 0 && !(0 <= ReadSignedByte(buf[0]) < partCount) ==>
      r == Failure(PartIndexOutOfRange(ReadSignedByte(buf[0])))
    ensures r.Success? ==>
      && r.value.0.part < partCount
      && r.value.0.part == ReadSignedByte(buf[0])
      && (r.value.0.hand == MainHand <==> buf[1] != 0)
      && buf == buf[..2] + r.value.1
  {
    if |buf| < 1 then Failure(BufferUnderflow)
    else
      var index := ReadSignedByte(buf[0]);
      if !(0 <= index < partCount) then Failure(PartIndexOutOfRange(index))
      else if |buf| < 2 then Failure(BufferUnderflow)
      else Success((Message(index, DecodeHand(buf[1])), buf[2..]))
  }

  /** Decoding what `encode` wrote gives back the same part and hand, and
      leaves whatever followed on the wire unread. */
  lemma RoundTrip(m: Message, partCount: nat, rest: seq<Byte>)
    requires m.part < partCount && m.part <= 127
    ensures Decode(Encode(m) + rest, partCount) == Success((m, rest))
  {
  }

  /** Re-encoding a decoded message reproduces the two bytes read, when the
      boolean byte is canonical. */
  lemma EncodeDecoded(buf: seq<Byte>, partCount: nat)
    requires Decode(buf, partCount).Success?
    requires buf[1] == 0 || buf[1] == 1
    ensures Encode(Decode(buf, partCount).value.0) == buf[..2]
  {
  }

  /** A part ordinal of 128 or more does not survive the wire: its byte reads
      back as a different (negative or wrapped) index. */
  lemma LargeOrdinalDoesNotRoundTrip(m: Message, partCount: nat, rest: seq<Byte>)
    requires m.part >= 128
    ensures Decode(Encode(m) + rest, partCount) != Success((m, rest))
  {
  }

  // ---------------------------------------------------------------------------
  // Server-side handling
  // ---------------------------------------------------------------------------

  /** How the handler ended: no damage model, an item that yields no healer
      (the player is sent "Unable to apply healing item!"), or the healer was
      applied. */
  datatype Outcome = NoDamageModel | InvalidItem | Applied

  /** The healer the stack yields: only a non-empty stack of a healing item
      can create one (an empty stack's item is air), and it may still decline.
      `createNewHealer` stands for the item's own healer factory, which is not
      part of this model. */
  function HealerFor(stack: ItemStack, createNewHealer: ItemStack -> Option<Healer>): (h: Option<Healer>)
    ensures h.Some? ==> !stack.IsEmpty() && stack.item.HealingItem?
    ensures !stack.IsEmpty() && stack.item.HealingItem? ==> h == createNewHealer(stack)
  {
    if !stack.IsEmpty() && stack.item.HealingItem? then createNewHealer(stack) else None
  }

  /** The message names a part of the player's damage model, when there is one. */
  predicate Addressable(msg: Message, player: Player)
  {
    player.damageModel.Some? ==> msg.part < |player.damageModel.value.parts|
  }

  /** The work the handler enqueues on the server thread. */
  function OnMessage(msg: Message, player: Player, createNewHealer: ItemStack -> Option<Healer>): (r: (Player, Outcome))
    requires Addressable(msg, player)
    ensures r.1 == NoDamageModel <==> player.damageModel.None?
    ensures r.1 == InvalidItem <==>
      player.damageModel.Some? && HealerFor(player.inventory.Get(msg.hand), createNewHealer).None?
    ensures r.1 != Applied ==> r.0 == player
    ensures player.damageModel.Some? && player.inventory.Get(msg.hand).IsEmpty() ==> r.1 == InvalidItem
    ensures r.1 == Applied ==> !player.inventory.Get(msg.hand).IsEmpty()
    ensures r.1 == Applied ==> r.0.damageModel.Some? && r.0.isServerPlayer == player.isServerPlayer
    ensures r.1 == Applied ==>
      var stack := player.inventory.Get(msg.hand);
      && r.0.inventory.Get(msg.hand) == stack.(count := stack.count - 1)
      && r.0.inventory.Get(OtherHand(msg.hand)) == player.inventory.Get(OtherHand(msg.hand))
    ensures r.1 == Applied ==>
      var before := player.damageModel.value.parts;
      var after := r.0.damageModel.value.parts;
      && |after| == |before|
      && after[msg.part] == before[msg.part].(activeHealer := HealerFor(player.inventory.Get(msg.hand), createNewHealer))
      && after[msg.part].activeHealer.Some?
      && (forall o :: 0 <= o < |before| && o != msg.part ==> after[o] == before[o])
  {
    match player.damageModel
    case None => (player, NoDamageModel)
    case Some(model) =>
      var stack := player.inventory.Get(msg.hand);
      match HealerFor(stack, createNewHealer)
      case None => (player, InvalidItem)
      case Some(healer) =>
        var part := model.parts[msg.part];
        var model' := PlayerDamageModel(model.parts[msg.part := part.(activeHealer := Some(healer))]);
        var inventory' := player.inventory.Set(msg.hand, stack.(count := stack.count - 1));
        (player.(inventory := inventory', damageModel := Some(model')), Applied)
  }

  /** Total number of items in the two hands. */
  function HeldCount(inv: Inventory): int
  {
    inv.mainHand.count + inv.offHand.count
  }

  /** Number of parts with an active healer. */
  function HealerCount(parts: seq<DamageablePart>): nat
  {
    if |parts| == 0 then 0
    else (if parts[0].activeHealer.Some? then 1 else 0) + HealerCount(parts[1..])
  }

  /** Changing one part without removing its healer never lowers the count,
      and installing one where there was none raises it by one. */
  lemma {:induction false} HealerCountUpdate(parts: seq<DamageablePart>, o: nat, p: DamageablePart)
    requires o < |parts| && p.activeHealer.Some?
    ensures HealerCount(parts[o := p]) ==
      HealerCount(parts) + (if parts[o].activeHealer.None? then 1 else 0)
  {
    if o == 0 {
      assert parts[o := p][1..] == parts[1..];
    } else {
      HealerCountUpdate(parts[1..], o - 1, p);
      assert parts[o := p][1..] == parts[1..][o - 1 := p];
    }
  }

  /** The handler consumes exactly one item exactly when it applies a healer,
      and then at most one more part carries a healer; health is never
      touched, so a well-formed damage model stays well-formed. */
  lemma HandlerAccounting(msg: Message, player: Player, createNewHealer: ItemStack -> Option<Healer>)
    requires Addressable(msg, player)
    ensures
      var r := OnMessage(msg, player, createNewHealer);
      && HeldCount(r.0.inventory) == HeldCount(player.inventory) - (if r.1 == Applied then 1 else 0)
      && (r.1 == Applied ==>
            HealerCount(r.0.damageModel.value.parts) ==
            HealerCount(player.damageModel.value.parts)
              + (if player.damageModel.value.parts[msg.part].activeHealer.None? then 1 else 0))
      && (player.damageModel.Some? && WellFormed(player.damageModel.value) ==>
            r.0.damageModel.Some? && WellFormed(r.0.damageModel.value))
  {
    var r := OnMessage(msg, player, createNewHealer);
    if r.1 == Applied {
      var before := player.damageModel.value.parts;
      var after := r.0.damageModel.value.parts;
      assert after == before[msg.part := after[msg.part]];
      HealerCountUpdate(before, msg.part, after[msg.part]);
      if msg.hand == MainHand {
        assert r.0.inventory.offHand == player.inventory.offHand;
      } else {
        assert r.0.inventory.mainHand == player.inventory.mainHand;
      }
    }
  }

  /** Once the last item of the stack has been applied the hand is empty, so
      the same message sent again is refused and changes nothing. */
  lemma LastItemThenRefused(msg: Message, player: Player, createNewHealer: ItemStack -> Option<Healer>)
    requires Addressable(msg, player) && player.inventory.Get(msg.hand).count == 1
    requires OnMessage(msg, player, createNewHealer).1 == Applied
    ensures
      var after := OnMessage(msg, player, createNewHealer).0;
      && after.inventory.Get(msg.hand).IsEmpty()
      && Addressable(msg, after)
      && OnMessage(msg, after, createNewHealer) == (after, InvalidItem)
  {
  }

  /** A message built for a part and hand, sent over the wire and handled,
      heals that very part from that very hand. */
  lemma DeliveredMessageTargetsItsPart(m: Message, partCount: nat, player: Player, createNewHealer: ItemStack -> Option<Healer>)
    requires m.part < partCount && m.part <= 127
    requires player.damageModel.Some? && |player.damageModel.value.parts| == partCount
    requires HealerFor(player.inventory.Get(m.hand), createNewHealer).Some?
    ensures Decode(Encode(m), partCount).Success?
    ensures
      var received := Decode(Encode(m), partCount).value.0;
      var r := OnMessage(received, player, createNewHealer);
      && r.1 == Applied
      && r.0.damageModel.value.parts[m.part].activeHealer == HealerFor(player.inventory.Get(m.hand), createNewHealer)
      && r.0.inventory.Get(m.hand).count == player.inventory.Get(m.hand).count - 1
  {
  }
}
