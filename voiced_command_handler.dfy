/** VoicedCommandHandler: the table from voiced command names to the handler
    that serves them.  The table is keyed by the name itself where the
    source keys it by the name's hashCode. */
module VoicedCommands {
  import opened Text

  /** The handlers the constructor registers. */
  datatype Handler = ShiffMod | LanguageCommand

  /** getVoicedCommandList of each handler. */
  function CommandList(h: Handler): (r: seq<string>)
    ensures r != [] && forall k :: 0 <= k < |r| ==> r[k] != [] && ' ' !in r[k]
  {
    match h
    case ShiffMod => ["shifffmodddrop"]
    case LanguageCommand => ["setlang", "langon", "langoff"]
  }

  /** The table after putting each of ids, in order, to h. */
  function Registered(table: map<string, Handler>, ids: seq<string>, h: Handler): (r: map<string, Handler>)
    decreases |ids|
  {
    if ids == [] then table else Registered(table[ids[0] := h], ids[1..], h)
  }

  /** Registering maps every listed name to the handler, and leaves every
      other name as it was. */
  lemma {:induction false} RegisteredLookup(table: map<string, Handler>, ids: seq<string>, h: Handler, k: string)
    ensures var r := Registered(table, ids, h);
      (k in ids ==> k in r && r[k] == h)
      && (k !in ids ==> (k in r <==> k in table) && (k in table ==> r[k] == table[k]))
    decreases |ids|
  {
    if ids != [] {
      RegisteredLookup(table[ids[0] := h], ids[1..], h, k);
      assert k in ids <==> k == ids[0] || k in ids[1..];
    }
  }

  /** The registered names are the old ones and the listed ones. */
  lemma {:induction false} RegisteredKeys(table: map<string, Handler>, ids: seq<string>, h: Handler)
    ensures Registered(table, ids, h).Keys == table.Keys + set k | k in ids
    decreases |ids|
  {
    if ids != [] {
      RegisteredKeys(table[ids[0] := h], ids[1..], h);
      assert (set k | k in ids) == {ids[0]} + set k | k in ids[1..];
    }
  }

  /** The name a voiced command is looked up by: the text before its first
      space; none for an empty command. */
  function CommandName(voicedCommand: string): (r: Option<string>)
    ensures voicedCommand == [] <==> r.None?
    ensures r.Some? ==> ' ' !in r.value && StartsWith(voicedCommand, r.value)
    ensures r.Some? ==> r.value == voicedCommand || StartsAt(voicedCommand, " ", |r.value|)
  {
    if voicedCommand == [] then None
    else
      var idx := IndexOfChar(voicedCommand, ' ', 0);
      if idx == -1 then
        NoCharIndex(voicedCommand, ' ');
        Some(voicedCommand)
      else
        var name := voicedCommand[..idx];
        assert forall j :: 0 <= j < idx ==> name[j] == voicedCommand[j];
        assert voicedCommand[idx..idx + 1] == " ";
        Some(name)
  }

  /** The arguments after the name do not change the handler. */
  lemma CommandNameOfArguments(name: string, args: string)
    requires name != [] && ' ' !in name
    ensures CommandName(name) == Some(name) && CommandName(name + " " + args) == Some(name)
  {
    NoCharIndex(name, ' ');
    var s := name + " " + args;
    assert s == name + [' '] + args;
    IndexOfCharAfterPrefix(name, ' ', args);
    assert s[..|name|] == name;
  }

  class VoicedCommandHandler {
    var datatable: map<string, Handler>

    /** The constructor: Shiff_Mod, then LanguageCommand. */
    constructor ()
      ensures datatable == Registered(Registered(map[], CommandList(ShiffMod), ShiffMod),
                                      CommandList(LanguageCommand), LanguageCommand)
    {
      datatable := map[];
      new;
      RegisterHandler(ShiffMod);
      RegisterHandler(LanguageCommand);
    }

    /** registerHandler: every name of the handler's list is put to it. */
    method RegisterHandler(h: Handler)
      modifies this
      ensures datatable == Registered(old(datatable), CommandList(h), h)
    {
      var ids := CommandList(h);
      var i := 0;
      while i < |ids|
        invariant 0 <= i <= |ids|
        invariant Registered(datatable, ids[i..], h) == Registered(old(datatable), ids, h)
        decreases |ids| - i
      {
        assert ids[i..][1..] == ids[i + 1..];
        datatable := datatable[ids[i] := h];
        i := i + 1;
      }
      assert ids[i..] == [];
    }

    /** getHandler: null for an empty command; otherwise the handler of the
        text before the first space, if any. */
    function GetHandler(voicedCommand: string): (r: Option<Handler>)
      reads this
      ensures voicedCommand == [] ==> r.None?
      ensures r.Some? ==> CommandName(voicedCommand).value in datatable
                          && r.value == datatable[CommandName(voicedCommand).value]
      ensures voicedCommand != [] && CommandName(voicedCommand).value in datatable ==> r.Some?
    {
      var name := CommandName(voicedCommand);
      if name.None? || name.value !in datatable then None else Some(datatable[name.value])
    }

    /** size */
    function Size(): nat
      reads this
    {
      |datatable|
    }
  }

  /** The table the constructor builds. */
  function InitialTable(): map<string, Handler> {
    Registered(Registered(map[], CommandList(ShiffMod), ShiffMod), CommandList(LanguageCommand), LanguageCommand)
  }

  /** It serves the four commands, each by its own handler, and nothing else. */
  lemma InitialTableServes()
    ensures InitialTable() == map["shifffmodddrop" := ShiffMod, "setlang" := LanguageCommand,
                                  "langon" := LanguageCommand, "langoff" := LanguageCommand]
    ensures |InitialTable()| == 4
  {
    var a := map["shifffmodddrop" := ShiffMod];
    assert Registered(map[], ["shifffmodddrop"], ShiffMod) == Registered(a, [], ShiffMod) == a;
    var l := LanguageCommand;
    assert ["setlang", "langon", "langoff"][1..] == ["langon", "langoff"];
    assert ["langon", "langoff"][1..] == ["langoff"];
    assert Registered(a, ["setlang", "langon", "langoff"], l)
        == Registered(a["setlang" := l], ["langon", "langoff"], l)
        == Registered(a["setlang" := l]["langon" := l], ["langoff"], l)
        == a["setlang" := l]["langon" := l]["langoff" := l];
  }
}
