/** Shiff_Mod: the voiced command that shows an NPC's drop list, fifteen
    drops a page, across the NPC's drop categories in order.  The chance
    and quantity columns are floating point and are not modelled; a page is
    the list of drops it shows, with their category type. */
module ShiffMod {
  import opened Text
  import opened Drops
  import opened Players
  import opened I18n

  /** PAGE_LIMIT */
  const PAGE_LIMIT: int := 15

  /** The command's name, which the handler also matches as a prefix. */
  const DROP_COMMAND := "shifffmodddrop"

  /** getVoicedCommandList */
  function VoicedCommandList(): (r: seq<string>)
    ensures r == [DROP_COMMAND]
  {
    [DROP_COMMAND]
  }

  /** The parts of an NpcTemplate the drop list reads. */
  datatype NpcTemplate = NpcTemplate(name: string, dropData: seq<DropCategory>)

  // ----- the drops of all categories, in order -----

  /** The lines a category contributes. */
  function Rows(c: DropCategory): (r: seq<DropRow>)
    ensures |r| == |c.drops|
    ensures forall k :: 0 <= k < |r| ==> r[k] == DropRow(c.drops[k], c.spoil)
  {
    seq(|c.drops|, k requires 0 <= k < |c.drops| => DropRow(c.drops[k], c.spoil))
  }

  /** The drops of every category, one category after the other. */
  function Flatten(cats: seq<DropCategory>): seq<DropRow>
    decreases |cats|
  {
    if cats == [] then [] else Flatten(cats[..|cats| - 1]) + Rows(cats[|cats| - 1])
  }

  /** One more category appends its lines. */
  lemma FlattenStep(cats: seq<DropCategory>, c: nat)
    requires c < |cats|
    ensures Flatten(cats[..c + 1]) == Flatten(cats[..c]) + Rows(cats[c])
  {
    assert cats[..c + 1][..c] == cats[..c];
  }

  /** The drops of fewer categories are a prefix of the drops of more. */
  lemma {:induction false} FlattenPrefix(cats: seq<DropCategory>, a: nat, b: nat)
    requires a <= b <= |cats|
    ensures Flatten(cats[..a]) <= Flatten(cats[..b])
    decreases b - a
  {
    if a < b {
      FlattenPrefix(cats, a, b - 1);
      FlattenStep(cats, b - 1);
    }
  }

  /** All categories. */
  lemma FlattenAll(cats: seq<DropCategory>, c: nat)
    requires c <= |cats|
    ensures Flatten(cats[..c]) <= Flatten(cats)
  {
    FlattenPrefix(cats, c, |cats|);
    assert cats[..|cats|] == cats;
  }

  // ----- what a page shows -----

  function Min(a: int, b: int): int { if a <= b then a else b }

  /** How many of the first n drops the loop passes over before it starts
      showing: all of them for a page below 1, otherwise up to the
      (page - 1) * 15 that belong to earlier pages. */
  function Skipped(n: nat, page: int): (r: nat)
    ensures r <= n
  {
    if page < 1 then n else Min(n, (page - 1) * PAGE_LIMIT)
  }

  /** The drops page `page` shows. */
  function PageRows(cats: seq<DropCategory>, page: int): seq<DropRow> {
    var f := Flatten(cats);
    var s := Skipped(|f|, page);
    f[s..Min(|f|, s + PAGE_LIMIT)]
  }

  /** When the loop sets hasMore: the page is full and either a drop follows
      it, or the categories before the last one already fill it, so that
      the loop reaches a further category after the fifteenth drop. */
  predicate HasMore(cats: seq<DropCategory>, page: int) {
    page >= 1 &&
    var e := page * PAGE_LIMIT;
    |Flatten(cats)| > e || (|cats| > 0 && |Flatten(cats[..|cats| - 1])| >= e)
  }

  /** The loop's counters after it has passed n drops without stopping:
      myPage and i are the page and the place on it of the last drop passed
      over. */
  predicate Counters(n: nat, page: int, myPage: int, i: int, shown: int) {
    var m := Skipped(n, page);
    m == (myPage - 1) * PAGE_LIMIT + i && 0 <= i < PAGE_LIMIT && shown == n - m && shown <= PAGE_LIMIT
  }

  /** Passing over a drop of an earlier page. */
  lemma SkipStep(n: nat, page: int, myPage: int, i: int, shown: int)
    requires Counters(n, page, myPage, i, shown) && myPage != page
    ensures Skipped(n, page) == n && Skipped(n + 1, page) == n + 1 && shown == 0
    ensures var i' := i + 1;
      Counters(n + 1, page, if i' == PAGE_LIMIT then myPage + 1 else myPage, if i' == PAGE_LIMIT then 0 else i', shown)
  {
  }

  /** Reaching a drop of the requested page. */
  lemma ShowStep(n: nat, page: int, myPage: int, i: int, shown: int)
    requires Counters(n, page, myPage, i, shown) && myPage == page
    ensures page >= 1 && Skipped(n, page) == (page - 1) * PAGE_LIMIT == Skipped(n + 1, page)
    ensures shown < PAGE_LIMIT ==> Counters(n + 1, page, myPage, i, shown + 1)
    ensures shown == PAGE_LIMIT ==> n == page * PAGE_LIMIT
  {
  }

  /** The test at the head of a category. */
  lemma CategoryStep(n: nat, page: int, myPage: int, i: int, shown: int)
    requires Counters(n, page, myPage, i, shown)
    ensures shown < PAGE_LIMIT && page >= 1 ==> n < page * PAGE_LIMIT
    ensures shown == PAGE_LIMIT ==> page >= 1 && n == page * PAGE_LIMIT && Skipped(n, page) == (page - 1) * PAGE_LIMIT
  {
  }

  /** After the last category. */
  lemma LastStep(n: nat, page: int, myPage: int, i: int, shown: int)
    requires Counters(n, page, myPage, i, shown)
    ensures Min(n, Skipped(n, page) + PAGE_LIMIT) == n
    ensures page >= 1 ==> n <= page * PAGE_LIMIT
  {
  }

  /** The inner loop of ShiffNpcDropList over the drops of one category,
      entered with the counters the loop has after the drops `base` of the
      earlier categories. */
  method ScanCategory(cat: DropCategory, page: int, ghost base: seq<DropRow>, ghost f: seq<DropRow>,
                      myPage0: int, i0: int, shown0: int, rows0: seq<DropRow>)
    returns (myPage: int, i: int, shown: int, rows: seq<DropRow>, hasMore: bool)
    requires Counters(|base|, page, myPage0, i0, shown0) && rows0 == base[Skipped(|base|, page)..]
    requires base + Rows(cat) <= f
    ensures !hasMore ==> Counters(|base + Rows(cat)|, page, myPage, i, shown)
    ensures !hasMore ==> rows == (base + Rows(cat))[Skipped(|base + Rows(cat)|, page)..]
    ensures hasMore ==> shown == PAGE_LIMIT && page >= 1 && |f| > page * PAGE_LIMIT
                        && rows == f[(page - 1) * PAGE_LIMIT..page * PAGE_LIMIT]
  {
    ghost var row := Rows(cat);
    myPage, i, shown, rows := myPage0, i0, shown0, rows0;
    hasMore := false;
    var ds := cat.drops;
    var d := 0;
    ghost var xs := base;
    assert row[..0] == [];
    while d < |ds|
      invariant 0 <= d <= |ds| && xs == base + row[..d]
      invariant Counters(|xs|, page, myPage, i, shown)
      invariant rows == xs[Skipped(|xs|, page)..]
    {
      RowsNext(base, row, d);
      var full;
      var r := DropRow(ds[d], cat.spoil);
      myPage, i, shown, rows, full := ScanDrop(page, xs, r, myPage, i, shown, rows);
      if full {
        FullPage(base, row, d, f, rows, (page - 1) * PAGE_LIMIT);
        hasMore := true;
        return;
      }
      xs := xs + [r];
      d := d + 1;
    }
    assert row[..d] == row;
  }

  /** The body of the inner loop for one drop `r` after the drops `xs`:
      passed over on an earlier page, refused on a full page, or shown. */
  method ScanDrop(page: int, ghost xs: seq<DropRow>, r: DropRow,
                  myPage0: int, i0: int, shown0: int, rows0: seq<DropRow>)
    returns (myPage: int, i: int, shown: int, rows: seq<DropRow>, full: bool)
    requires Counters(|xs|, page, myPage0, i0, shown0) && rows0 == xs[Skipped(|xs|, page)..]
    ensures full ==> (shown == PAGE_LIMIT && page >= 1 && |xs| == page * PAGE_LIMIT
      && rows == xs[(page - 1) * PAGE_LIMIT..])
    ensures !full ==> (Counters(|xs + [r]|, page, myPage, i, shown)
      && rows == (xs + [r])[Skipped(|xs + [r]|, page)..])
  {
    myPage, i, shown, rows := myPage0, i0, shown0, rows0;
    full := false;
    if myPage != page {
      SkipStep(|xs|, page, myPage, i, shown);
      RowsSkipped(xs, r, rows, page);
      i := i + 1;
      if i == PAGE_LIMIT {
        myPage := myPage + 1;
        i := 0;
      }
      return;
    }
    ShowStep(|xs|, page, myPage, i, shown);
    if shown == PAGE_LIMIT {
      full := true;
      return;
    }
    RowsShown(xs, r, rows, page);
    rows := rows + [r];
    shown := shown + 1;
  }

  lemma RowsNext(base: seq<DropRow>, row: seq<DropRow>, d: nat)
    requires d < |row|
    ensures |base + row[..d]| == |base| + d
    ensures base + row[..d + 1] == (base + row[..d]) + [row[d]]
  {
    assert row[..d + 1] == row[..d] + [row[d]];
  }

  /** A drop passed over adds no row. */
  lemma RowsSkipped(xs: seq<DropRow>, r: DropRow, rows: seq<DropRow>, page: int)
    requires Skipped(|xs|, page) == |xs| && Skipped(|xs| + 1, page) == |xs| + 1
    requires rows == xs[Skipped(|xs|, page)..]
    ensures rows == (xs + [r])[Skipped(|xs| + 1, page)..]
  {
  }

  /** A drop shown adds its row. */
  lemma RowsShown(xs: seq<DropRow>, r: DropRow, rows: seq<DropRow>, page: int)
    requires Skipped(|xs|, page) == Skipped(|xs| + 1, page)
    requires rows == xs[Skipped(|xs|, page)..]
    ensures rows + [r] == (xs + [r])[Skipped(|xs| + 1, page)..]
  {
    var s := Skipped(|xs|, page);
    assert (xs + [r])[s..] == xs[s..] + [r];
  }

  /** A full page with a further drop: the rows are the page's slice of all
      drops, and there are more drops than the page ends at. */
  lemma FullPage(base: seq<DropRow>, row: seq<DropRow>, d: nat, f: seq<DropRow>, rows: seq<DropRow>, lo: nat)
    requires d < |row| && base + row <= f
    requires lo <= |base| + d && rows == (base + row[..d])[lo..]
    ensures |f| > |base| + d && rows == f[lo..|base| + d]
  {
    assert (base + row)[..|base| + d] == base + row[..d];
  }

  /** The loop ends after the last category without having set hasMore. */
  lemma PageDone(cats: seq<DropCategory>, c: nat, page: int, myPage: int, i: int, shown: int, rows: seq<DropRow>)
    requires c == |cats|
    requires Counters(|Flatten(cats[..c])|, page, myPage, i, shown)
    requires rows == Flatten(cats[..c])[Skipped(|Flatten(cats[..c])|, page)..]
    requires page >= 1 ==> forall b :: 0 <= b < c ==> |Flatten(cats[..b])| < page * PAGE_LIMIT
    ensures rows == PageRows(cats, page) && !HasMore(cats, page)
  {
    assert cats[..c] == cats;
    LastStep(|Flatten(cats)|, page, myPage, i, shown);
  }

  /** The loop set hasMore after a full page. */
  lemma PageFull(cats: seq<DropCategory>, page: int, rows: seq<DropRow>)
    requires page >= 1 && page * PAGE_LIMIT <= |Flatten(cats)|
    requires rows == Flatten(cats)[(page - 1) * PAGE_LIMIT..page * PAGE_LIMIT]
    ensures rows == PageRows(cats, page)
  {
  }

  /** The page is full at the head of category c. */
  lemma FullAtCategory(cats: seq<DropCategory>, c: nat, page: int, myPage: int, i: int, rows: seq<DropRow>)
    requires c < |cats|
    requires Counters(|Flatten(cats[..c])|, page, myPage, i, PAGE_LIMIT)
    requires rows == Flatten(cats[..c])[Skipped(|Flatten(cats[..c])|, page)..]
    ensures HasMore(cats, page) && page >= 1 && page * PAGE_LIMIT <= |Flatten(cats)|
    ensures rows == Flatten(cats)[(page - 1) * PAGE_LIMIT..page * PAGE_LIMIT]
  {
    CategoryStep(|Flatten(cats[..c])|, page, myPage, i, PAGE_LIMIT);
    FlattenAll(cats, c);
    FlattenPrefix(cats, c, |cats| - 1);
  }

  /** The counters and rows after the drops of category c, in the terms of
      the outer loop. */
  lemma ScanDone(cats: seq<DropCategory>, c: nat, page: int, f: seq<DropRow>,
                 myPage: int, i: int, shown: int, rows: seq<DropRow>, hasMore: bool)
    requires c < |cats| && f == Flatten(cats)
    requires page >= 1 ==> |Flatten(cats[..c])| < page * PAGE_LIMIT
    requires Flatten(cats[..c + 1]) == Flatten(cats[..c]) + Rows(cats[c])
    requires var n := |Flatten(cats[..c]) + Rows(cats[c])|;
      !hasMore ==> (Counters(n, page, myPage, i, shown)
        && rows == (Flatten(cats[..c]) + Rows(cats[c]))[Skipped(n, page)..])
    requires hasMore ==> (shown == PAGE_LIMIT && page >= 1 && |f| > page * PAGE_LIMIT
      && rows == f[(page - 1) * PAGE_LIMIT..page * PAGE_LIMIT])
    ensures !hasMore ==> Counters(|Flatten(cats[..c + 1])|, page, myPage, i, shown)
    ensures !hasMore ==> rows == Flatten(cats[..c + 1])[Skipped(|Flatten(cats[..c + 1])|, page)..]
    ensures hasMore ==> (shown == PAGE_LIMIT && HasMore(cats, page) && page >= 1
      && page * PAGE_LIMIT <= |f| && rows == f[(page - 1) * PAGE_LIMIT..page * PAGE_LIMIT])
  {
  }

  /** One turn of the outer loop of ShiffNpcDropList: the drops of
      category c, started below a full page. */
  method ScanNext(cats: seq<DropCategory>, c: nat, page: int, ghost f: seq<DropRow>,
                  myPage0: int, i0: int, shown0: int, rows0: seq<DropRow>)
    returns (myPage: int, i: int, shown: int, rows: seq<DropRow>, hasMore: bool)
    requires c < |cats| && f == Flatten(cats) && shown0 < PAGE_LIMIT
    requires Counters(|Flatten(cats[..c])|, page, myPage0, i0, shown0)
    requires rows0 == Flatten(cats[..c])[Skipped(|Flatten(cats[..c])|, page)..]
    requires page >= 1 ==> forall b :: 0 <= b < c ==> |Flatten(cats[..b])| < page * PAGE_LIMIT
    ensures !hasMore ==> Counters(|Flatten(cats[..c + 1])|, page, myPage, i, shown)
    ensures !hasMore ==> rows == Flatten(cats[..c + 1])[Skipped(|Flatten(cats[..c + 1])|, page)..]
    ensures !hasMore && page >= 1 ==> forall b :: 0 <= b < c + 1 ==> |Flatten(cats[..b])| < page * PAGE_LIMIT
    ensures hasMore ==> (shown == PAGE_LIMIT && HasMore(cats, page) && page >= 1
      && page * PAGE_LIMIT <= |f| && rows == f[(page - 1) * PAGE_LIMIT..page * PAGE_LIMIT])
  {
    CategoryStep(|Flatten(cats[..c])|, page, myPage0, i0, shown0);
    FlattenStep(cats, c);
    FlattenAll(cats, c + 1);
    myPage, i, shown, rows, hasMore := ScanCategory(cats[c], page, Flatten(cats[..c]), f, myPage0, i0, shown0, rows0);
    ScanDone(cats, c, page, f, myPage, i, shown, rows, hasMore);
  }

  /** The two loops of ShiffNpcDropList that choose the drops of a page and
      decide whether there is a next page. */
  method PageOf(cats: seq<DropCategory>, page: int) returns (rows: seq<DropRow>, hasMore: bool)
    ensures rows == PageRows(cats, page)
    ensures hasMore == HasMore(cats, page)
  {
    ghost var f := Flatten(cats);
    var myPage, i, shown := 1, 0, 0;
    hasMore := false;
    rows := [];
    var c := 0;
    while c < |cats|
      invariant 0 <= c <= |cats|
      invariant !hasMore ==> Counters(|Flatten(cats[..c])|, page, myPage, i, shown)
      invariant !hasMore ==> rows == Flatten(cats[..c])[Skipped(|Flatten(cats[..c])|, page)..]
      invariant !hasMore && page >= 1 ==> forall b :: 0 <= b < c ==> |Flatten(cats[..b])| < page * PAGE_LIMIT
      invariant hasMore ==> shown == PAGE_LIMIT && HasMore(cats, page) && page >= 1
                            && page * PAGE_LIMIT <= |f| && rows == f[(page - 1) * PAGE_LIMIT..page * PAGE_LIMIT]
    {
      if shown == PAGE_LIMIT {
        if !hasMore {
          FullAtCategory(cats, c, page, myPage, i, rows);
        }
        hasMore := true;
        break;
      }
      myPage, i, shown, rows, hasMore := ScanNext(cats, c, page, f, myPage, i, shown, rows);
      c := c + 1;
    }
    if !hasMore {
      PageDone(cats, c, page, myPage, i, shown, rows);
    } else {
      PageFull(cats, page, rows);
    }
  }

  // ----- properties of the pagination -----

  /** A page shows at most fifteen drops, each at its place in the list of
      all drops: the k-th line of page p is drop (p - 1) * 15 + k. */
  lemma PageWindow(cats: seq<DropCategory>, page: int, k: nat)
    ensures |PageRows(cats, page)| <= PAGE_LIMIT
    ensures page < 1 ==> PageRows(cats, page) == []
    ensures page >= 1 && k < |PageRows(cats, page)| ==>
      PageRows(cats, page)[k] == Flatten(cats)[(page - 1) * PAGE_LIMIT + k]
  {
  }

  /** Every drop is on exactly one page: drop j is line j % 15 of page
      j / 15 + 1. */
  lemma DropOnItsPage(cats: seq<DropCategory>, j: nat)
    requires j < |Flatten(cats)|
    ensures var p := j / PAGE_LIMIT + 1;
      j % PAGE_LIMIT < |PageRows(cats, p)| && PageRows(cats, p)[j % PAGE_LIMIT] == Flatten(cats)[j]
  {
    var p := j / PAGE_LIMIT + 1;
    assert (p - 1) * PAGE_LIMIT + j % PAGE_LIMIT == j;
  }

  /** A next-page link is only offered under a full page, and without one
      the next page would show nothing. */
  lemma NextLinkRule(cats: seq<DropCategory>, page: int)
    ensures HasMore(cats, page) ==> |PageRows(cats, page)| == PAGE_LIMIT
    ensures page >= 1 && !HasMore(cats, page) ==> PageRows(cats, page + 1) == []
  {
    var f := Flatten(cats);
    if HasMore(cats, page) && |cats| > 0 {
      FlattenAll(cats, |cats| - 1);
    }
  }

  /** The link is also offered when the fifteenth drop ends a category and
      only empty categories follow: the next page is then empty. */
  lemma NextLinkBeforeEmptyCategory(full: DropCategory, page: int)
    requires page == 1 && |full.drops| == PAGE_LIMIT
    ensures var cats := [full, DropCategory(false, [])];
      HasMore(cats, page) && PageRows(cats, page + 1) == []
  {
    var cats := [full, DropCategory(false, [])];
    assert cats[..1] == [full] && [full][..0] == [];
    assert Flatten(cats[..1]) == Rows(full);
    assert cats[..|cats| - 1] == cats[..1];
    assert Flatten(cats) == Rows(full);
  }

  // ----- the command -----

  /** What the command line asks for: not a drop command, a drop command
      whose npc id or page Integer.parseInt rejects (or that has no npc id),
      or a page of an NPC's drops, page 1 when it is not given. */
  datatype Request = Other | Malformed | Show(npcId: int, page: int)

  function ParseRequest(command: string): (r: Request)
    ensures !StartsWith(command, DROP_COMMAND) <==> r.Other?
    ensures r.Show? ==> |Tokens(command)| >= 2 && ParseJavaInt(Tokens(command)[1]) == Some(r.npcId)
    ensures r.Show? ==> (|Tokens(command)| == 2 <==> r.page == 1 && |Tokens(command)| < 3)
    ensures r.Show? && |Tokens(command)| >= 3 ==> ParseJavaInt(Tokens(command)[2]) == Some(r.page)
  {
    if !StartsWith(command, DROP_COMMAND) then Other
    else
      var t := Tokens(command);
      if |t| < 2 then Malformed
      else match ParseJavaInt(t[1])
        case None => Malformed
        case Some(n) =>
          if |t| < 3 then Show(n, 1)
          else match ParseJavaInt(t[2])
            case None => Malformed
            case Some(p) => Show(n, p)
  }

  /** A token followed by a space and more text tokenizes as that token and
      then the tokens of the rest. */
  lemma TokensCons(a: string, rest: string)
    requires a != [] && ' ' !in a
    ensures Tokens(a + " " + rest) == [a] + Tokens(rest)
  {
    var s := a + " " + rest;
    assert s == a + [' '] + rest;
    assert s[0] == a[0];
    IndexOfCharAfterPrefix(a, ' ', rest);
    assert s[..|a|] == a && s[|a| + 1..] == rest;
  }

  lemma TokensSingle(a: string)
    requires a != [] && ' ' !in a
    ensures Tokens(a) == [a]
  {
    NoCharIndex(a, ' ');
  }

  /** The bypass the page's links send, "shifffmodddrop <npcId> <page>",
      asks for exactly that page. */
  lemma RequestOfLink(npcId: int, page: int)
    requires IsInt32(npcId) && IsInt32(page)
    ensures ParseRequest(DROP_COMMAND + " " + IntToString(npcId) + " " + IntToString(page)) == Show(npcId, page)
    ensures ParseRequest(DROP_COMMAND + " " + IntToString(npcId)) == Show(npcId, 1)
  {
    RequestWithPage(npcId, page);
    RequestWithoutPage(npcId);
  }

  lemma RequestWithPage(npcId: int, page: int)
    requires IsInt32(npcId) && IsInt32(page)
    ensures ParseRequest(DROP_COMMAND + " " + IntToString(npcId) + " " + IntToString(page)) == Show(npcId, page)
  {
    var n, p := IntToString(npcId), IntToString(page);
    IntToStringHasNo(npcId, ' ');
    IntToStringHasNo(page, ' ');
    ThreeTokens(DROP_COMMAND, n, p);
    ParseIntToString(npcId);
    ParseIntToString(page);
    StartsWithSpaced(DROP_COMMAND, n, p);
    ParseShow(DROP_COMMAND + " " + n + " " + p, [DROP_COMMAND, n, p], npcId, page);
  }

  lemma StartsWithSpaced(a: string, b: string, c: string)
    ensures StartsWith(a + " " + b + " " + c, a)
  {
    assert (a + " " + b + " " + c)[..|a|] == a;
  }

  /** Three space-free words joined by single spaces are its tokens. */
  lemma ThreeTokens(a: string, b: string, c: string)
    requires a != [] && ' ' !in a && b != [] && ' ' !in b && c != [] && ' ' !in c
    ensures Tokens(a + " " + b + " " + c) == [a, b, c]
  {
    TokensSingle(c);
    TokensCons(b, c);
    assert a + " " + b + " " + c == a + " " + (b + " " + c);
    TokensCons(a, b + " " + c);
  }

  /** A drop command of three tokens whose arguments are numbers. */
  lemma ParseShow(command: string, t: seq<string>, npcId: int, page: int)
    requires StartsWith(command, DROP_COMMAND) && Tokens(command) == t && |t| == 3
    requires ParseJavaInt(t[1]) == Some(npcId) && ParseJavaInt(t[2]) == Some(page)
    ensures ParseRequest(command) == Show(npcId, page)
  {
  }

  lemma RequestWithoutPage(npcId: int)
    requires IsInt32(npcId)
    ensures ParseRequest(DROP_COMMAND + " " + IntToString(npcId)) == Show(npcId, 1)
  {
    var n := IntToString(npcId);
    IntToStringHasNo(npcId, ' ');
    TokensSingle(n);
    TokensCons(DROP_COMMAND, n);
    ParseIntToString(npcId);
    assert StartsWith(DROP_COMMAND + " " + n, DROP_COMMAND);
  }

  /** The states in which the command is refused. */
  predicate Blocked(player: Player)
    reads player
  {
    player.dead || player.karma > 0 || player.pvpFlag > 0 || player.conditions != {}
  }

  /** useVoicedCommand's result, or the exception that escapes it. */
  datatype Outcome = Returned(value: bool) | Threw

  /** The packet ShiffNpcDropList sends. */
  function DropListPacket(npcs: map<int, NpcTemplate>, npcId: int, page: int, i18n: map<string, string>): Packet {
    if npcId !in npcs then Message(Lookup(i18n, "npc.template.unknown") + IntToString(npcId) + ".")
    else if npcs[npcId].dropData == [] then NoDropsPage(Lookup(i18n, "npc.drop.list.no.drops"))
    else
      var cats := npcs[npcId].dropData;
      DropListPage(npcId, page, PageRows(cats, page), page > 1, HasMore(cats, page))
  }

  /** ShiffNpcDropList */
  method ShiffNpcDropList(player: Player, npcs: map<int, NpcTemplate>, npcId: int, page: int, i18n: Translator)
    modifies player`sent
    ensures player.sent == old(player.sent) + [DropListPacket(npcs, npcId, page, i18n.translations)]
  {
    if npcId !in npcs {
      player.Send(Message(i18n.Get("npc.template.unknown") + IntToString(npcId) + "."));
      return;
    }
    var template := npcs[npcId];
    if template.dropData == [] {
      player.Send(NoDropsPage(i18n.Get("npc.drop.list.no.drops")));
      return;
    }
    var rows, hasMore := PageOf(template.dropData, page);
    player.Send(DropListPage(npcId, page, rows, page > 1, hasMore));
  }

  /** useVoicedCommand: a blocked player gets a message and ActionFailed and
      false; a drop command reads its npc id and page and sends the page;
      anything else is accepted and does nothing. */
  method UseVoicedCommand(command: string, player: Player, npcs: map<int, NpcTemplate>, i18n: Translator)
    returns (r: Outcome)
    modifies player`sent
    ensures Blocked(player) ==>
      r == Returned(false) && player.sent == old(player.sent) + [Message(i18n.Get("command.cannot.use")), ActionFailed]
    ensures !Blocked(player) ==> match ParseRequest(command)
      case Other => r == Returned(true) && player.sent == old(player.sent)
      case Malformed => r == Threw && player.sent == old(player.sent)
      case Show(npcId, page) =>
        r == Returned(true) && player.sent == old(player.sent) + [DropListPacket(npcs, npcId, page, i18n.translations)]
  {
    if Blocked(player) {
      player.Send(Message(i18n.Get("command.cannot.use")));
      player.Send(ActionFailed);
      return Returned(false);
    }
    var request := ParseRequest(command);
    match request {
      case Other =>
        return Returned(true);
      case Malformed =>
        return Threw;
      case Show(npcId, page) =>
        ShiffNpcDropList(player, npcs, npcId, page, i18n);
        return Returned(true);
    }
  }
}
