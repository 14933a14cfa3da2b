/** The item icon table: item ids mapped to icon names, read from the
    item_iconss table once, and the HTML cell the drop pages show an icon
    in.  The database is an input: the rows the query yields, and how many
    of them are read before a failure. */
module Icons {
  import opened Text

  const UNKNOWN_ICON := "icon.unknown"

  /** One row of the query; getString gives null for a NULL icon. */
  datatype IconRow = IconRow(itemId: int, icon: Option<string>)

  /** The map after putting the rows in order: a later row for the same
      item replaces the earlier one. */
  function Loaded(icons: map<int, Option<string>>, rows: seq<IconRow>): (r: map<int, Option<string>>)
    ensures r.Keys == icons.Keys + (set k | 0 <= k < |rows| :: rows[k].itemId)
    decreases |rows|
  {
    if rows == [] then icons
    else
      var init := rows[..|rows| - 1];
      assert forall k :: 0 <= k < |init| ==> init[k] == rows[k];
      Loaded(icons, init)[rows[|rows| - 1].itemId := rows[|rows| - 1].icon]
  }

  lemma LoadedNext(icons: map<int, Option<string>>, rows: seq<IconRow>, k: nat)
    requires k < |rows|
    ensures Loaded(icons, rows[..k + 1]) == Loaded(icons, rows[..k])[rows[k].itemId := rows[k].icon]
  {
    assert rows[..k + 1][..k] == rows[..k];
  }

  /** getOrDefault: a stored icon (null included), else "icon.unknown". */
  function IconOf(icons: map<int, Option<string>>, itemId: int): Option<string> {
    if itemId in icons then icons[itemId] else Some(UNKNOWN_ICON)
  }

  /** The icon of an item is that of the last row that names it. */
  lemma {:induction false} LastRowWins(rows: seq<IconRow>, k: nat)
    requires k < |rows|
    requires forall j :: k < j < |rows| ==> rows[j].itemId != rows[k].itemId
    ensures IconOf(Loaded(map[], rows), rows[k].itemId) == rows[k].icon
    decreases |rows|
  {
    var init := rows[..|rows| - 1];
    if k < |rows| - 1 {
      assert init[k] == rows[k];
      LastRowWins(init, k);
    }
  }

  /** An item no row names is unknown; in particular every item is unknown
      when no row was read. */
  lemma {:induction false} UnlistedIsUnknown(rows: seq<IconRow>, itemId: int)
    requires forall k :: 0 <= k < |rows| ==> rows[k].itemId != itemId
    ensures IconOf(Loaded(map[], rows), itemId) == Some(UNKNOWN_ICON)
  {
    assert itemId !in Loaded(map[], rows).Keys;
  }

  /** StringBuilder.append(String) writes "null" for a null string. */
  function AppendText(s: Option<string>): string {
    if s.None? then "null" else s.value
  }

  const ICON_CELL_OPEN := "<td><img src=\""
  const ICON_CELL_CLOSE := "\" width=32 height=32></td><td>"

  /** The text appendIconHtml adds for an icon. */
  function IconCell(icon: Option<string>): string {
    ICON_CELL_OPEN + AppendText(icon) + ICON_CELL_CLOSE
  }

  /** The icon name can be read back from its cell: it is what lies between
      the opening text and the next double quote. */
  lemma IconCellReadsBack(icon: string)
    requires '"' !in icon
    ensures var cell := IconCell(Some(icon));
      var n := |ICON_CELL_OPEN|;
      cell[..n] == ICON_CELL_OPEN &&
      IndexOfChar(cell, '"', n) == n + |icon| &&
      cell[n..IndexOfChar(cell, '"', n)] == icon &&
      cell[n + |icon|..] == ICON_CELL_CLOSE
  {
    var cell := IconCell(Some(icon));
    var n := |ICON_CELL_OPEN|;
    assert cell[n + |icon|] == '"';
    assert forall j :: n <= j < n + |icon| ==> cell[j] == icon[j - n];
    IndexOfCharIs(cell, '"', n, n + |icon|);
  }

  /** A caller's StringBuilder. */
  class StringBuilder {
    var text: string

    constructor ()
      ensures text == ""
    {
      text := "";
    }

    method Append(s: string)
      modifies this`text
      ensures text == old(text) + s
    {
      text := text + s;
    }
  }

  class IconTable {
    var icons: map<int, Option<string>>

    /** The private constructor: the table is loaded once. */
    constructor (rows: seq<IconRow>, readable: nat)
      ensures icons == Loaded(map[], rows[..if readable < |rows| then readable else |rows|])
    {
      icons := map[];
      new;
      Load(rows, readable);
    }

    /** load: the first `readable` rows are put one by one; a failure after
        them leaves the rows read so far. */
    method Load(rows: seq<IconRow>, readable: nat)
      modifies this`icons
      ensures icons == Loaded(old(icons), rows[..if readable < |rows| then readable else |rows|])
    {
      var n := if readable < |rows| then readable else |rows|;
      var k := 0;
      while k < n
        invariant 0 <= k <= n
        invariant icons == Loaded(old(icons), rows[..k])
      {
        LoadedNext(old(icons), rows, k);
        icons := icons[rows[k].itemId := rows[k].icon];
        k := k + 1;
      }
    }

    /** getIcon */
    function GetIcon(itemId: int): (r: Option<string>)
      reads this
      ensures itemId in icons ==> r == icons[itemId]
      ensures itemId !in icons ==> r == Some(UNKNOWN_ICON)
    {
      IconOf(icons, itemId)
    }

    /** appendIconHtml: the builder gains exactly the item's icon cell. */
    method AppendIconHtml(sb: StringBuilder, itemId: int)
      modifies sb`text
      ensures sb.text == old(sb.text) + IconCell(GetIcon(itemId))
    {
      sb.Append(ICON_CELL_OPEN);
      sb.Append(AppendText(GetIcon(itemId)));
      sb.Append(ICON_CELL_CLOSE);
    }
  }
}
