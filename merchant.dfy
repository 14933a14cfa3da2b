/** Merchant: the NPC page path, the two configured sets of item ids that
    may not be sold (or only for nothing), and the bypass commands of a
    merchant.  Multisell lists, the HTML cache, buy lists and the Folk
    handler behind the merchant are collaborators whose decisions are
    inputs; the pages the Sell branch and Multisell_Shadow open are named
    by path and are not run through the NPC page pipeline here. */
module Merchants {
  import opened Text
  import opened Players
  import NpcHtml
  import TranslationKey

  const MERCHANT_DIR := "data/html/merchant/"

  /** getHtmlPath */
  function HtmlPath(npcId: int, val: int): string {
    MERCHANT_DIR + FileName(npcId, val) + ".htm"
  }

  /** The file name between the directory and ".htm". */
  function PathName(path: string): string
    requires |path| >= |MERCHANT_DIR| + 4
  {
    path[|MERCHANT_DIR|..|path| - 4]
  }

  /** A rendered number has '-' at most in front. */
  lemma NoInnerDash(n: int)
    ensures forall j :: 1 <= j < |IntToString(n)| ==> IntToString(n)[j] != '-'
  {
  }

  /** The file name of a page, given the npc id and val. */
  function FileName(npcId: int, val: int): string {
    if val == 0 then IntToString(npcId) else IntToString(npcId) + "-" + IntToString(val)
  }

  lemma PathShape(name: string)
    ensures var path := MERCHANT_DIR + name + ".htm";
      |path| >= |MERCHANT_DIR| + 4 && PathName(path) == name
      && StartsWith(path, MERCHANT_DIR) && EndsWith(path, ".htm")
  {
    Wrapped(MERCHANT_DIR, name, ".htm");
  }

  lemma FileNameReadsBack(npcId: int, val: int)
    requires IsInt32(npcId) && IsInt32(val)
    ensures var name := FileName(npcId, val);
      (val == 0 ==> IndexOfChar(name, '-', 1) == -1 && ParseJavaInt(name) == Some(npcId))
      && (val != 0 ==> var k := IndexOfChar(name, '-', 1);
            k > 0 && ParseJavaInt(name[..k]) == Some(npcId) && ParseJavaInt(name[k + 1..]) == Some(val))
  {
    var n := IntToString(npcId);
    NoInnerDash(npcId);
    ParseIntToString(npcId);
    if val == 0 {
      NoDashFrom(n);
    } else {
      ParseIntToString(val);
      DashJoined(n, IntToString(val));
    }
  }

  /** A text with no '-' after its first character has none to find. */
  lemma NoDashFrom(n: string)
    requires forall j :: 1 <= j < |n| ==> n[j] != '-'
    ensures IndexOfChar(n, '-', 1) == -1
  {
  }

  /** Joining with '-' a non-empty first part that has no '-' after its
      first character: the first '-' from index 1 is the joining one. */
  lemma DashJoined(n: string, v: string)
    requires n != [] && forall j :: 1 <= j < |n| ==> n[j] != '-'
    ensures var name := n + "-" + v;
      IndexOfChar(name, '-', 1) == |n| && name[..|n|] == n && name[|n| + 1..] == v
  {
    var name := n + "-" + v;
    assert name[|n|] == '-';
    assert forall j :: 1 <= j < |n| ==> name[j] == n[j];
    IndexOfCharIs(name, '-', 1, |n|);
    assert name[..|n|] == n && name[|n| + 1..] == v;
  }

  /** The path names its page and no other: the file name reads back as the
      npc id alone for val 0, and otherwise as the npc id, the first '-'
      after its first character, and val. */
  lemma HtmlPathReadsBack(npcId: int, val: int)
    requires IsInt32(npcId) && IsInt32(val)
    ensures |HtmlPath(npcId, val)| >= |MERCHANT_DIR| + 4
    ensures var name := PathName(HtmlPath(npcId, val));
      StartsWith(HtmlPath(npcId, val), MERCHANT_DIR) && EndsWith(HtmlPath(npcId, val), ".htm")
      && (val == 0 ==> IndexOfChar(name, '-', 1) == -1 && ParseJavaInt(name) == Some(npcId))
      && (val != 0 ==> var k := IndexOfChar(name, '-', 1);
            k > 0 && ParseJavaInt(name[..k]) == Some(npcId) && ParseJavaInt(name[k + 1..]) == Some(val))
  {
    PathShape(FileName(npcId, val));
    FileNameReadsBack(npcId, val);
  }

  /** Different (npcId, val) pairs open different pages. */
  lemma HtmlPathInjective(npcId1: int, val1: int, npcId2: int, val2: int)
    requires IsInt32(npcId1) && IsInt32(val1) && IsInt32(npcId2) && IsInt32(val2)
    requires HtmlPath(npcId1, val1) == HtmlPath(npcId2, val2)
    ensures npcId1 == npcId2 && val1 == val2
  {
    HtmlPathReadsBack(npcId1, val1);
    HtmlPathReadsBack(npcId2, val2);
  }

  // ----- the configured id sets -----

  /** The ids of a config entry, piece by piece: each piece trimmed, empty
      pieces skipped, the rest read with Integer.parseInt; the flag is false
      once a piece fails, and the ids read before it are kept. */
  function ParsedIds(pieces: seq<string>): (r: (set<int>, bool))
    decreases |pieces|
  {
    if pieces == [] then ({}, true) else IdStep(ParsedIds(pieces[..|pieces| - 1]), pieces[|pieces| - 1])
  }

  /** One piece read on top of the ids so far. */
  function IdStep(acc: (set<int>, bool), piece: string): (set<int>, bool) {
    var t := Trim(piece);
    if !acc.1 then acc
    else if t == [] then acc
    else match ParseJavaInt(t)
      case None => (acc.0, false)
      case Some(v) => (acc.0 + {v}, true)
  }

  lemma ParsedIdsNext(pieces: seq<string>, k: nat)
    requires k < |pieces|
    ensures ParsedIds(pieces[..k + 1]) == IdStep(ParsedIds(pieces[..k]), pieces[k])
  {
    assert pieces[..k + 1][..k] == pieces[..k];
  }

  /** Once a piece has failed, the later pieces are not read. */
  lemma {:induction false} ParsedIdsStop(pieces: seq<string>, k: nat)
    requires k <= |pieces| && !ParsedIds(pieces[..k]).1
    ensures ParsedIds(pieces) == ParsedIds(pieces[..k])
    decreases |pieces|
  {
    if k < |pieces| {
      var init := pieces[..|pieces| - 1];
      assert init[..k] == pieces[..k];
      ParsedIdsStop(init, k);
    } else {
      assert pieces[..k] == pieces;
    }
  }

  /** The loop over ids.split(","). */
  method ReadIds(ids: string) returns (blocked: set<int>, ok: bool)
    ensures (blocked, ok) == ParsedIds(JavaSplit(ids, ','))
  {
    var pieces := JavaSplit(ids, ',');
    blocked, ok := {}, true;
    var k := 0;
    while k < |pieces|
      invariant 0 <= k <= |pieces|
      invariant ParsedIds(pieces[..k]) == (blocked, true) && ok
    {
      ParsedIdsNext(pieces, k);
      var id := Trim(pieces[k]);
      if id != [] {
        var v := ParseJavaInt(id);
        if v.None? {
          assert !ParsedIds(pieces[..k + 1]).1;
          ParsedIdsStop(pieces, k + 1);
          return blocked, false;
        }
        blocked := blocked + {v.value};
      }
      k := k + 1;
    }
    assert pieces[..k] == pieces;
  }

  /** Properties.getProperty(key, ""). */
  function Property(props: map<string, string>, key: string): string {
    if key in props then props[key] else ""
  }

  /** The static initialiser: without SpecialMods.ini both sets are empty;
      otherwise the price block list is read, then the sell block list, and
      a malformed id ends the reading where it stands. */
  method LoadBlockedItems(config: Option<map<string, string>>) returns (priceBlock: set<int>, listBlock: set<int>)
    ensures config.None? ==> priceBlock == {} && listBlock == {}
    ensures config.Some? ==>
      var price := ParsedIds(JavaSplit(Property(config.value, "Item_sell_price_block"), ','));
      var list := ParsedIds(JavaSplit(Property(config.value, "Item_sell_block_list"), ','));
      priceBlock == price.0 && listBlock == (if price.1 then list.0 else {})
  {
    priceBlock, listBlock := {}, {};
    if config.None? {
      return;
    }
    var ok;
    priceBlock, ok := ReadIds(Property(config.value, "Item_sell_price_block"));
    if !ok {
      return;
    }
    listBlock, ok := ReadIds(Property(config.value, "Item_sell_block_list"));
  }

  /** A list of ids written with "," between them, with or without spaces
      around the ids, reads back as exactly those ids. */
  lemma IdListRoundTrip(xs: seq<int>)
    requires forall k :: 0 <= k < |xs| ==> IsInt32(xs[k])
    ensures ParsedIds(JavaSplit(Join(Decimals(xs), ","), ',')) == (set x | x in xs, true)
  {
    if xs == [] {
      assert Join(Decimals(xs), ",") == "";
      assert JavaSplit("", ',') == [""];
      assert Trim("") == "";
      ParsedIdsNext([""], 0);
      assert [""][..0] == [];
      assert (set x | x in xs) == {};
    } else {
      SplitDecimals(xs, ',');
      ParsedDecimals(xs);
    }
  }

  lemma ElementsSnoc(xs: seq<int>)
    requires xs != []
    ensures var init := xs[..|xs| - 1]; (set x | x in xs) == (set x | x in init) + {xs[|xs| - 1]}
  {
    assert xs == xs[..|xs| - 1] + [xs[|xs| - 1]];
  }

  lemma {:induction false} ParsedDecimals(xs: seq<int>)
    requires forall k :: 0 <= k < |xs| ==> IsInt32(xs[k])
    ensures ParsedIds(Decimals(xs)) == (set x | x in xs, true)
    decreases |xs|
  {
    if xs == [] {
      assert Decimals(xs) == [];
      assert (set x | x in xs) == {};
    } else {
      var init := xs[..|xs| - 1];
      var last := xs[|xs| - 1];
      var ds := Decimals(xs);
      assert ds[..|ds| - 1] == Decimals(init);
      ParsedDecimals(init);
      var n := IntToString(last);
      assert ds[|ds| - 1] == n;
      assert !IsTrimmable(n[0]) && !IsTrimmable(n[|n| - 1]);
      TrimNoop(n);
      ParseIntToString(last);
      assert ParsedIds(ds) == ((set x | x in init) + {last}, true);
      ElementsSnoc(xs);
    }
  }

  // ----- Sell -----

  /** removeIf on the copy of the sellable items: the items not on the sell
      block list, in their order. */
  function Sellable(items: seq<ItemInstance>, blockList: set<int>): (r: seq<ItemInstance>)
    ensures |r| <= |items|
    ensures forall k :: 0 <= k < |r| ==> r[k] in items && r[k].itemId !in blockList
    ensures forall k :: 0 <= k < |items| ==> items[k].itemId !in blockList ==> items[k] in r
    decreases |items|
  {
    if items == [] then []
    else
      var rest := Sellable(items[1..], blockList);
      if items[0].itemId in blockList then rest else [items[0]] + rest
  }

  /** The kept items keep their order: the block list removes ids and
      nothing else. */
  lemma {:induction false} SellableOrder(items: seq<ItemInstance>, blockList: set<int>)
    ensures blockList == {} ==> Sellable(items, blockList) == items
    ensures Sellable(Sellable(items, blockList), blockList) == Sellable(items, blockList)
    decreases |items|
  {
    if items != [] {
      SellableOrder(items[1..], blockList);
      var rest := Sellable(items[1..], blockList);
      if items[0].itemId !in blockList {
        assert ([items[0]] + rest)[1..] == rest;
      }
    }
  }

  /** The page sent instead of an empty sell list. */
  function EmptyPagePath(fisherman: bool, npcId: int): string {
    "data/html/" + (if fisherman then "fisherman" else "merchant") + "/" + IntToString(npcId) + "-empty.htm"
  }

  /** The Sell branch: the block list removes items; with nothing left and
      an empty-list page in the cache that page is sent; otherwise the kept
      items on the price block list get a sell price of 0 and the sell list
      is sent. */
  method Sell(player: Player, objectId: int, npcId: int, fisherman: bool, items: seq<ItemInstance>,
              priceBlock: set<int>, blockList: set<int>, pages: map<string, string>)
    modifies player`sent, (set it | it in items)`priceToSell
    ensures var kept := Sellable(items, blockList);
      var path := EmptyPagePath(fisherman, npcId);
      if kept == [] && path in pages then
        player.sent == old(player.sent) + [Html(objectId, Replace(pages[path], "%objectId%", IntToString(objectId)))]
        && forall it :: it in items ==> it.priceToSell == old(it.priceToSell)
      else
        player.sent == old(player.sent) + [SellList(player.adena, kept)]
        && forall it :: it in items ==>
             it.priceToSell == if it.itemId !in blockList && it.itemId in priceBlock then 0 else old(it.priceToSell)
  {
    var kept := Sellable(items, blockList);
    if kept == [] {
      var path := EmptyPagePath(fisherman, npcId);
      if path in pages {
        player.Send(Html(objectId, Replace(pages[path], "%objectId%", IntToString(objectId))));
        return;
      }
    }
    var k := 0;
    while k < |kept|
      invariant 0 <= k <= |kept|
      invariant forall it :: it in items ==>
        it.priceToSell == if it in kept[..k] && it.itemId in priceBlock then 0 else old(it.priceToSell)
      invariant player.sent == old(player.sent)
    {
      var item := kept[k];
      if item.itemId in priceBlock {
        item.SetPriceToSell(0);
      }
      assert kept[..k + 1] == kept[..k] + [item];
      k := k + 1;
    }
    assert kept[..k] == kept;
    player.Send(SellList(player.adena, kept));
  }

  // ----- the bypass commands -----

  /** The shadow-item page for a player's level. */
  function ShadowPage(level: int): string {
    if level < 40 then "data/html/common/shadow_item-lowlevel.htm"
    else if level < 46 then "data/html/common/shadow_item_mi_c.htm"
    else if level < 52 then "data/html/common/shadow_item_hi_c.htm"
    else "data/html/common/shadow_item_b.htm"
  }

  /** The grade band of each shadow page, low to high. */
  function ShadowBand(path: string): int {
    if path == "data/html/common/shadow_item-lowlevel.htm" then 0
    else if path == "data/html/common/shadow_item_mi_c.htm" then 1
    else if path == "data/html/common/shadow_item_hi_c.htm" then 2
    else 3
  }

  /** A higher level never gets a lower-grade page, and each band starts
      exactly at 40, 46 and 52. */
  lemma ShadowPageByLevel(l1: int, l2: int)
    requires l1 <= l2
    ensures ShadowBand(ShadowPage(l1)) <= ShadowBand(ShadowPage(l2))
    ensures ShadowBand(ShadowPage(l2)) == (if l2 < 40 then 0 else if l2 < 46 then 1 else if l2 < 52 then 2 else 3)
  {
  }

  /** The Multisell_Shadow page: setFile of the page for the level (the page
      text, or setFile's missing-page text when there is no such file), then
      `%objectId%` replaced by the NPC's object id. */
  function ShadowHtml(objectId: int, path: string, pages: map<string, string>): (p: Packet)
    ensures p.Html? && p.objectId == objectId
  {
    var page := if path in pages then pages[path] else NpcHtml.MISSING_PAGE;
    Html(objectId, Replace(page, "%objectId%", IntToString(objectId)))
  }

  /** A shadow page without placeholders is sent exactly as it is on disk. */
  lemma ShadowPlainPage(objectId: int, path: string, pages: map<string, string>)
    requires path in pages && '%' !in pages[path]
    ensures ShadowHtml(objectId, path, pages).html == pages[path]
  {
    TranslationKey.ReplaceAbsent(pages[path], "%objectId%", IntToString(objectId));
  }

  /** What onBypassFeedback does with a command. */
  datatype BypassAction =
    | PkDenied
    | NoArgument
    | Threw
    | OpenBuy(listId: int)
    | OpenSell
    | OpenWear(listId: int)
    | Multisell(list: string, exclusive: bool)
    | ShadowItems(path: string)
    | ExchangeLimit
    | Folk

  /** The commands a merchant answers itself. */
  datatype MerchantCommand = BuyCommand | SellCommand | WearCommand | MultisellCommand | ShadowCommand
    | ExcMultisellCommand | NewbieExcMultisellCommand | FolkCommand

  /** The if-else chain on the first token, ignoring case; Wear counts only
      when wearing is allowed. */
  function CommandOf(actual: string, allowWear: bool): MerchantCommand {
    if EqualsIgnoreCase(actual, "Buy") then BuyCommand
    else if EqualsIgnoreCase(actual, "Sell") then SellCommand
    else if EqualsIgnoreCase(actual, "Wear") && allowWear then WearCommand
    else if EqualsIgnoreCase(actual, "Multisell") then MultisellCommand
    else if EqualsIgnoreCase(actual, "Multisell_Shadow") then ShadowCommand
    else if EqualsIgnoreCase(actual, "Exc_Multisell") then ExcMultisellCommand
    else if EqualsIgnoreCase(actual, "Newbie_Exc_Multisell") then NewbieExcMultisellCommand
    else FolkCommand
  }

  /** No branch of the chain hides a later one: each command name, in any
      case, reaches its own branch; Wear reaches the Folk handler when
      wearing is not allowed. */
  lemma CommandNames(actual: string, allowWear: bool)
    ensures EqualsIgnoreCase(actual, "Buy") ==> CommandOf(actual, allowWear) == BuyCommand
    ensures EqualsIgnoreCase(actual, "Sell") ==> CommandOf(actual, allowWear) == SellCommand
    ensures EqualsIgnoreCase(actual, "Wear") ==> CommandOf(actual, allowWear) == (if allowWear then WearCommand else FolkCommand)
    ensures EqualsIgnoreCase(actual, "Multisell") ==> CommandOf(actual, allowWear) == MultisellCommand
    ensures EqualsIgnoreCase(actual, "Multisell_Shadow") ==> CommandOf(actual, allowWear) == ShadowCommand
    ensures EqualsIgnoreCase(actual, "Exc_Multisell") ==> CommandOf(actual, allowWear) == ExcMultisellCommand
    ensures EqualsIgnoreCase(actual, "Newbie_Exc_Multisell") ==> CommandOf(actual, allowWear) == NewbieExcMultisellCommand
  {
    if EqualsIgnoreCase(actual, "Wear") {
      assert Lower(actual[0]) == 'w';
    }
  }

  /** The list id of Buy and Wear, read with Integer.parseInt. */
  function ListIdAction(args: seq<string>, open: int -> BypassAction): BypassAction {
    if args == [] then NoArgument
    else match ParseJavaInt(args[0]) case None => Threw case Some(v) => open(v)
  }

  /** The branch onBypassFeedback takes.  A player with karma is sent the PK
      page instead when shops refuse karma and that page exists; Buy, Wear,
      Multisell, Exc_Multisell and Newbie_Exc_Multisell need a second token;
      an empty command or a list id Integer.parseInt rejects throws; anything
      else goes to the Folk handler. */
  function Decide(command: string, karmaCanShop: bool, karma: int, pkPageExists: bool, allowWear: bool,
                  level: int, newbie: bool): BypassAction
  {
    if !karmaCanShop && karma > 0 && pkPageExists then PkDenied
    else
      var t := Tokens(command);
      if t == [] then Threw
      else
        var args := t[1..];
        match CommandOf(t[0], allowWear)
        case BuyCommand => ListIdAction(args, v => OpenBuy(v))
        case SellCommand => OpenSell
        case WearCommand => ListIdAction(args, v => OpenWear(v))
        case MultisellCommand => if args == [] then NoArgument else Multisell(args[0], false)
        case ShadowCommand => ShadowItems(ShadowPage(level))
        case ExcMultisellCommand => if args == [] then NoArgument else Multisell(args[0], true)
        case NewbieExcMultisellCommand =>
          if args == [] then NoArgument else if newbie then Multisell(args[0], true) else ExchangeLimit
        case FolkCommand => Folk
  }

  /** The commands that take a list id. */
  predicate NeedsArgument(name: string, allowWear: bool) {
    EqualsIgnoreCase(name, "Buy") || (EqualsIgnoreCase(name, "Wear") && allowWear)
    || EqualsIgnoreCase(name, "Multisell") || EqualsIgnoreCase(name, "Exc_Multisell")
    || EqualsIgnoreCase(name, "Newbie_Exc_Multisell")
  }

  /** Those commands without an argument do nothing. */
  lemma NoArgumentNoAction(command: string, karmaCanShop: bool, karma: int, pkPageExists: bool, allowWear: bool,
                           level: int, newbie: bool)
    requires |Tokens(command)| == 1 && NeedsArgument(Tokens(command)[0], allowWear)
    requires karmaCanShop || karma <= 0 || !pkPageExists
    ensures Decide(command, karmaCanShop, karma, pkPageExists, allowWear, level, newbie) == NoArgument
  {
    assert Tokens(command)[1..] == [];
    CommandNames(Tokens(command)[0], allowWear);
  }

  /** A Buy or Wear whose list id Integer.parseInt rejects throws. */
  lemma BadListIdThrows(command: string, karmaCanShop: bool, karma: int, pkPageExists: bool, allowWear: bool,
                         level: int, newbie: bool)
    requires |Tokens(command)| >= 2 && ParseJavaInt(Tokens(command)[1]).None?
    requires EqualsIgnoreCase(Tokens(command)[0], "Buy") || (EqualsIgnoreCase(Tokens(command)[0], "Wear") && allowWear)
    requires karmaCanShop || karma <= 0 || !pkPageExists
    ensures Decide(command, karmaCanShop, karma, pkPageExists, allowWear, level, newbie) == Threw
  {
    CommandNames(Tokens(command)[0], allowWear);
  }

  /** showBuyWindow / showWearWindow: nothing without a buy list of that id
      that allows this NPC; otherwise the inventory is locked and the window
      sent.  A buy list is represented by the NPC ids it allows. */
  method ShowShopWindow(player: Player, npcId: int, listId: int, buyLists: map<int, set<int>>, preview: bool)
    modifies player`sent, player`inventoryDisabled
    ensures listId !in buyLists || npcId !in buyLists[listId] ==>
      player.sent == old(player.sent) && player.inventoryDisabled == old(player.inventoryDisabled)
    ensures listId in buyLists && npcId in buyLists[listId] ==>
      player.inventoryDisabled
      && player.sent == old(player.sent) + [if preview then ShopPreviewList(listId) else BuyList(listId)]
  {
    if listId !in buyLists || npcId !in buyLists[listId] {
      return;
    }
    player.TempInventoryDisable();
    player.Send(if preview then ShopPreviewList(listId) else BuyList(listId));
  }

  /** onBypassFeedback: the Buy, Wear and Sell branches are carried out on
      the player; the others are passed on, as the action returned. */
  method OnBypassFeedback(player: Player, command: string, objectId: int, npcId: int, fisherman: bool,
                          karmaCanShop: bool, pkPageExists: bool, allowWear: bool, newbie: bool,
                          items: seq<ItemInstance>, priceBlock: set<int>, blockList: set<int>,
                          pages: map<string, string>, buyLists: map<int, set<int>>)
    returns (action: BypassAction)
    modifies player`sent, player`inventoryDisabled, (set it | it in items)`priceToSell
    ensures action == Decide(command, karmaCanShop, old(player.karma), pkPageExists, allowWear, old(player.level), newbie)
    ensures !(action.OpenBuy? || action.OpenWear? || action.OpenSell? || action.ShadowItems?) ==>
      player.sent == old(player.sent) && player.inventoryDisabled == old(player.inventoryDisabled)
      && forall it :: it in items ==> it.priceToSell == old(it.priceToSell)
    ensures action.OpenBuy? || action.OpenWear? ==> forall it :: it in items ==> it.priceToSell == old(it.priceToSell)
    ensures action.OpenBuy? || action.OpenWear? ==>
      if action.listId in buyLists && npcId in buyLists[action.listId] then
        player.inventoryDisabled
        && player.sent == old(player.sent) + [if action.OpenWear? then ShopPreviewList(action.listId) else BuyList(action.listId)]
      else
        player.sent == old(player.sent) && player.inventoryDisabled == old(player.inventoryDisabled)
    ensures action.OpenSell? ==>
      var kept := Sellable(items, blockList);
      var path := EmptyPagePath(fisherman, npcId);
      player.inventoryDisabled == old(player.inventoryDisabled)
      && if kept == [] && path in pages then
        player.sent == old(player.sent) + [Html(objectId, Replace(pages[path], "%objectId%", IntToString(objectId)))]
        && forall it :: it in items ==> it.priceToSell == old(it.priceToSell)
      else
        player.sent == old(player.sent) + [SellList(player.adena, kept)]
        && forall it :: it in items ==>
             it.priceToSell == if it.itemId !in blockList && it.itemId in priceBlock then 0 else old(it.priceToSell)
    ensures action.ShadowItems? ==>
      player.sent == old(player.sent) + [ShadowHtml(objectId, action.path, pages)]
      && player.inventoryDisabled == old(player.inventoryDisabled)
      && forall it :: it in items ==> it.priceToSell == old(it.priceToSell)
  {
    action := Decide(command, karmaCanShop, player.karma, pkPageExists, allowWear, player.level, newbie);
    match action {
      case OpenBuy(listId) =>
        ShowShopWindow(player, npcId, listId, buyLists, false);
      case OpenWear(listId) =>
        ShowShopWindow(player, npcId, listId, buyLists, true);
      case OpenSell =>
        Sell(player, objectId, npcId, fisherman, items, priceBlock, blockList, pages);
      case ShadowItems(path) =>
        player.Send(ShadowHtml(objectId, path, pages));
      case _ =>
    }
  }
}
