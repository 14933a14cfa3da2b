/** The parts of a Player that the modelled handlers read or change: the
    bypass whitelist, the per-player translation switch, the conditions that
    block commands, and the packets the player has been sent. */
module Players {
  import opened Drops

  /** One whitelisted bypass: addBypass takes the command as it is,
      addBypass2 takes a prefix that the client may complete. */
  datatype Bypass = Exact(command: string) | Prefixed(command: string)

  /** The boolean conditions Shiff_Mod refuses to run in. */
  datatype Condition =
    | FakeDeath | AlikeDead | FestivalParticipant | InJail | InOlympiadMode | InObserverMode
    | Flying | Teleporting | Paralyzed | Sleeping | InDuel | Betrayed | Mounted | Rooted

  /** What the server sends to a player, as far as the modelled code decides it. */
  datatype Packet =
    | Message(text: string)
    | Say(speaker: string, text: string)
    | ActionFailed
    | PlaySound(sound: string)
    | Html(objectId: int, html: string)
    | DropListPage(npcId: int, page: int, rows: seq<DropRow>, previousLink: bool, nextLink: bool)
    | NoDropsPage(text: string)
    | SellList(adena: int, items: seq<ItemInstance>)
    | BuyList(listId: int)
    | ShopPreviewList(listId: int)

  /** An item of a player's inventory, as far as selling it goes. */
  class ItemInstance {
    const itemId: int
    var priceToSell: int

    constructor (itemId: int, priceToSell: int)
      ensures this.itemId == itemId && this.priceToSell == priceToSell
    {
      this.itemId := itemId;
      this.priceToSell := priceToSell;
    }

    /** setPriceToSell */
    method SetPriceToSell(price: int)
      modifies this`priceToSell
      ensures priceToSell == price
    {
      priceToSell := price;
    }
  }

  class Player {
    var bypasses: seq<Bypass>
    var translationEnabled: bool
    var gm: bool
    var dead: bool
    var online: bool
    var karma: int
    var pvpFlag: int
    var conditions: set<Condition>
    var level: int
    var adena: int
    /** Ids of the skills with an effect on the player. */
    var effects: set<int>
    var sent: seq<Packet>
    /** Set by tempInventoryDisable while a shop window is open. */
    var inventoryDisabled: bool

    /** sendPacket / sendMessage. */
    method Send(p: Packet)
      modifies this`sent
      ensures sent == old(sent) + [p]
    {
      sent := sent + [p];
    }

    method SetTranslationEnabled(enabled: bool)
      modifies this`translationEnabled
      ensures translationEnabled == enabled
    {
      translationEnabled := enabled;
    }

    /** skill.getEffects(player, player): the skill's effect becomes active. */
    method ApplySkill(skillId: int)
      modifies this`effects
      ensures effects == old(effects) + {skillId}
    {
      effects := effects + {skillId};
    }

    method TempInventoryDisable()
      modifies this`inventoryDisabled
      ensures inventoryDisabled
    {
      inventoryDisabled := true;
    }

    method ClearBypass()
      modifies this`bypasses
      ensures bypasses == []
    {
      bypasses := [];
    }

    /** addBypass and addBypass2. */
    method AddBypass(b: Bypass)
      modifies this`bypasses
      ensures bypasses == old(bypasses) + [b]
    {
      bypasses := bypasses + [b];
    }
  }
}
