/** DropData: one possible drop of an NPC (item, quantity range, chance) and
    the list of further drops it can hold.  The chance is a Java double and
    is only stored and returned, so it is an uninterpreted real here. */
module Drops {
  import opened Text

  /** The chance of a certain drop, in millionths. */
  const MAX_CHANCE: int := 1000000
  /** One percent on the same scale. */
  const PERCENT_CHANCE: int := MAX_CHANCE / 100

  class DropData {
    var itemId: int
    var minDrop: int
    var maxDrop: int
    var chance: real
    /** questID and stateID: declared but never assigned, so always null. */
    const questId: Option<string> := None
    const stateIds: Option<seq<string>> := None
    var drops: seq<DropData>

    /** The constructor stores its four arguments unchanged and starts with
        an empty list of further drops. */
    constructor (itemId: int, minDrop: int, maxDrop: int, chance: real)
      ensures this.itemId == itemId && this.minDrop == minDrop && this.maxDrop == maxDrop
      ensures this.chance == chance && drops == []
    {
      this.itemId := itemId;
      this.minDrop := minDrop;
      this.maxDrop := maxDrop;
      this.chance := chance;
      drops := [];
    }

    function GetItemId(): int
      reads this
    {
      itemId
    }

    function GetMinDrop(): int
      reads this
    {
      minDrop
    }

    function GetMaxDrop(): int
      reads this
    {
      maxDrop
    }

    function GetChance(): real
      reads this
    {
      chance
    }

    /** chance(): the record-style accessor next to getChance. */
    function Chance(): real
      reads this
    {
      chance
    }

    method SetItemId(id: int)
      modifies this`itemId
      ensures itemId == id && GetItemId() == id
    {
      itemId := id;
    }

    method SetMinDrop(n: int)
      modifies this`minDrop
      ensures minDrop == n && GetMinDrop() == n
    {
      minDrop := n;
    }

    method SetMaxDrop(n: int)
      modifies this`maxDrop
      ensures maxDrop == n && GetMaxDrop() == n
    {
      maxDrop := n;
    }

    /** After setChance both accessors read the new chance back. */
    method SetChance(c: real)
      modifies this`chance
      ensures chance == c && GetChance() == c && Chance() == c
    {
      chance := c;
    }

    /** isQuestDrop: both quest fields are set. */
    predicate IsQuestDrop()
    {
      questId.Some? && stateIds.Some?
    }

    /** add: appends to the list of further drops. */
    method Add(d: DropData)
      modifies this`drops
      ensures drops == old(drops) + [d]
    {
      drops := drops + [d];
    }
  }

  /** No drop is ever a quest drop: nothing sets the quest fields. */
  lemma NeverQuestDrop(d: DropData)
    ensures !d.IsQuestDrop()
  {
  }

  /** A drop category of an NPC template: its type (spoil or not) and its
      drops, in order.  DropCategory is not part of this model beyond these
      two members. */
  datatype DropCategory = DropCategory(spoil: bool, drops: seq<DropData>)

  /** One line of a drop list page: the drop and the type of its category. */
  datatype DropRow = DropRow(drop: DropData, spoil: bool)
}
