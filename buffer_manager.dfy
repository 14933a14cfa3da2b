/** The scheme buffer: the buffs an NPC can give, and each player's named
    buff schemes.  A player's schemes live in a map ordered ignoring case,
    so a name and the same name in other case denote one scheme; the model
    keys each scheme by its lower-cased name and keeps the name it was first
    stored under, as a tree map does on a second put.  Database rows are
    inputs and writes are left out. */
module Buffers {
  import opened Text

  /** One buff of the buffer's list. */
  datatype BuffSkill = BuffSkill(id: int, level: int, price: int, skillType: string, desc: string)

  /** A stored scheme: the name it was first stored under and its skill ids. */
  datatype Scheme = Scheme(name: string, skills: seq<int>)

  /** The key a case-insensitive map files a name under. */
  function Key(name: string): string { LowerStr(name) }

  lemma KeyIgnoresCase(a: string, b: string)
    ensures Key(a) == Key(b) <==> EqualsIgnoreCase(a, b)
  {
    EqualsIgnoreCaseLower(a, b);
  }

  /** The schemes of one player, none when the player has no entry. */
  function SchemesOf(table: map<int, map<string, Scheme>>, playerId: int): map<string, Scheme> {
    if playerId in table then table[playerId] else map[]
  }

  /** Every scheme is filed under the key of its own name. */
  ghost predicate WellKeyed(table: map<int, map<string, Scheme>>) {
    forall p, k :: p in table && k in table[p] ==> k == Key(table[p][k].name)
  }

  /** getScheme: the stored list, or the empty list when the player or the
      scheme is missing. */
  function SchemeSkills(table: map<int, map<string, Scheme>>, playerId: int, schemeName: string): (r: seq<int>)
    ensures (playerId !in table || Key(schemeName) !in table[playerId]) ==> r == []
  {
    var s := SchemesOf(table, playerId);
    if Key(schemeName) in s then s[Key(schemeName)].skills else []
  }

  /** getSchemeContainsSkill: false for a missing player or scheme. */
  function SchemeContainsSkill(table: map<int, map<string, Scheme>>, playerId: int, schemeName: string, skillId: int): (r: bool)
    ensures r ==> playerId in table && Key(schemeName) in table[playerId]
    ensures r <==> exists k :: 0 <= k < |SchemeSkills(table, playerId, schemeName)| && SchemeSkills(table, playerId, schemeName)[k] == skillId
  {
    skillId in SchemeSkills(table, playerId, schemeName)
  }

  /** A name in any case finds the same scheme. */
  lemma SchemeNameIgnoresCase(table: map<int, map<string, Scheme>>, playerId: int, a: string, b: string)
    requires EqualsIgnoreCase(a, b)
    ensures SchemeSkills(table, playerId, a) == SchemeSkills(table, playerId, b)
  {
    KeyIgnoresCase(a, b);
  }

  /** computeIfAbsent followed by put: the player's entry is created when
      missing, and the scheme replaced or added, under the name it already
      had if any. */
  function Stored(table: map<int, map<string, Scheme>>, playerId: int, schemeName: string, list: seq<int>): map<int, map<string, Scheme>> {
    var s := SchemesOf(table, playerId);
    var k := Key(schemeName);
    table[playerId := s[k := Scheme(if k in s then s[k].name else schemeName, list)]]
  }

  /** setScheme: with the player at the scheme cap only the empty entry
      computeIfAbsent creates is added; otherwise the scheme is stored. */
  function WithScheme(table: map<int, map<string, Scheme>>, playerId: int, schemeName: string, list: seq<int>, maxSchemes: int): map<int, map<string, Scheme>> {
    var s := SchemesOf(table, playerId);
    if |s| >= maxSchemes then table[playerId := s] else Stored(table, playerId, schemeName, list)
  }

  /** deleteScheme: the named scheme is removed; nothing happens when the
      player or the scheme is missing. */
  function WithoutScheme(table: map<int, map<string, Scheme>>, playerId: int, schemeName: string): map<int, map<string, Scheme>> {
    if playerId in table && Key(schemeName) in table[playerId] then table[playerId := table[playerId] - {Key(schemeName)}]
    else table
  }

  /** Storing a scheme makes it found under its name in any case and
      changes what no other name of any player finds. */
  lemma StoredFound(table: map<int, map<string, Scheme>>, playerId: int, schemeName: string, list: seq<int>, p: int, n: string)
    ensures var t := Stored(table, playerId, schemeName, list);
      SchemeSkills(t, p, n) == if p == playerId && EqualsIgnoreCase(n, schemeName) then list else SchemeSkills(table, p, n)
  {
    KeyIgnoresCase(n, schemeName);
  }

  /** setScheme below the cap stores the list; at the cap no lookup changes,
      even for a name the player already has. */
  lemma SetSchemeLookups(table: map<int, map<string, Scheme>>, playerId: int, schemeName: string, list: seq<int>,
                         maxSchemes: int, p: int, n: string)
    ensures var t := WithScheme(table, playerId, schemeName, list, maxSchemes);
      if |SchemesOf(table, playerId)| >= maxSchemes then SchemeSkills(t, p, n) == SchemeSkills(table, p, n)
      else SchemeSkills(t, p, n) == if p == playerId && EqualsIgnoreCase(n, schemeName) then list else SchemeSkills(table, p, n)
  {
    StoredFound(table, playerId, schemeName, list, p, n);
  }

  /** No player ever holds more than the cap: setScheme keeps the bound. */
  lemma SetSchemeKeepsCap(table: map<int, map<string, Scheme>>, playerId: int, schemeName: string, list: seq<int>,
                          maxSchemes: int, p: int)
    requires maxSchemes >= 0 && forall q :: q in table ==> |table[q]| <= maxSchemes
    ensures var t := WithScheme(table, playerId, schemeName, list, maxSchemes);
      p in t ==> |t[p]| <= maxSchemes
  {
    var s := SchemesOf(table, playerId);
    var k := Key(schemeName);
    if |s| < maxSchemes && p == playerId {
      assert |s[k := Scheme(if k in s then s[k].name else schemeName, list)]| <= |s| + 1;
    }
  }

  /** Storing keeps every scheme filed under its own name. */
  lemma StoredWellKeyed(table: map<int, map<string, Scheme>>, playerId: int, schemeName: string, list: seq<int>)
    requires WellKeyed(table)
    ensures WellKeyed(Stored(table, playerId, schemeName, list))
  {
  }

  /** So does setScheme. */
  lemma SetSchemeWellKeyed(table: map<int, map<string, Scheme>>, playerId: int, schemeName: string, list: seq<int>, maxSchemes: int)
    requires WellKeyed(table)
    ensures WellKeyed(WithScheme(table, playerId, schemeName, list, maxSchemes))
  {
    StoredWellKeyed(table, playerId, schemeName, list);
  }

  /** After deleteScheme the name finds nothing, and every other lookup is
      as before. */
  lemma DeleteSchemeLookups(table: map<int, map<string, Scheme>>, playerId: int, schemeName: string, p: int, n: string)
    ensures var t := WithoutScheme(table, playerId, schemeName);
      SchemeSkills(t, p, n) == if p == playerId && EqualsIgnoreCase(n, schemeName) then [] else SchemeSkills(table, p, n)
  {
    KeyIgnoresCase(n, schemeName);
  }

  // ----- the skill list as text -----

  /** The skills column: the ids joined with ",", empty for no ids. */
  function SkillsText(skills: seq<int>): string {
    Join(Decimals(skills), ",")
  }

  /** The ids of a split skills column, read with Integer.parseInt; None
      where a piece is not a number. */
  function ParseIds(pieces: seq<string>): (r: Option<seq<int>>)
    ensures r.Some? ==> |r.value| == |pieces|
  {
    if pieces == [] then Some([])
    else match (ParseJavaInt(pieces[0]), ParseIds(pieces[1..]))
      case (Some(v), Some(rest)) => Some([v] + rest)
      case _ => None
  }

  /** The load path: a null or empty column is no skills; otherwise the
      column is split on "," and every piece read. */
  function ParseSkills(column: Option<string>): Option<seq<int>> {
    if column.None? || column.value == [] then Some([]) else ParseIds(JavaSplit(column.value, ','))
  }

  lemma {:induction false} ParseDecimals(skills: seq<int>)
    requires forall k :: 0 <= k < |skills| ==> IsInt32(skills[k])
    ensures ParseIds(Decimals(skills)) == Some(skills)
    decreases |skills|
  {
    if skills != [] {
      var ds := Decimals(skills);
      assert ds[1..] == Decimals(skills[1..]);
      ParseDecimals(skills[1..]);
      ParseIntToString(skills[0]);
      ParseIdsCons(ds, skills[0], skills[1..]);
      assert [skills[0]] + skills[1..] == skills;
    }
  }

  /** A list of pieces whose head and tail both read back. */
  lemma ParseIdsCons(pieces: seq<string>, v: int, rest: seq<int>)
    requires pieces != [] && ParseJavaInt(pieces[0]) == Some(v) && ParseIds(pieces[1..]) == Some(rest)
    ensures ParseIds(pieces) == Some([v] + rest)
  {
  }

  /** A skill list written as the save paths write it reads back as the
      same list, the empty list included. */
  lemma SkillsRoundTrip(skills: seq<int>)
    requires forall k :: 0 <= k < |skills| ==> IsInt32(skills[k])
    ensures ParseSkills(Some(SkillsText(skills))) == Some(skills)
  {
    var text := SkillsText(skills);
    if skills == [] {
      assert text == [];
    } else {
      var ds := Decimals(skills);
      SplitDecimals(skills, ',');
      assert JavaSplit(text, ',') == ds;
      ParseDecimals(skills);
      assert text != [] by {
        if |ds| > 1 {
          assert text == ds[0] + "," + Join(ds[1..], ",");
        }
      }
      assert ParseSkills(Some(text)) == ParseIds(ds);
    }
  }

  /** What the saveSchemes builder holds after appending each id and a ",". */
  function Builder(skills: seq<int>): string
    decreases |skills|
  {
    if skills == [] then ""
    else Builder(skills[..|skills| - 1]) + IntToString(skills[|skills| - 1]) + ","
  }

  /** The builder is the column text followed by ",", or empty. */
  lemma {:induction false} BuilderText(skills: seq<int>)
    ensures Builder(skills) == if skills == [] then "" else SkillsText(skills) + ","
    decreases |skills|
  {
    if skills != [] {
      var k := |skills| - 1;
      assert skills[..k + 1] == skills;
      BuilderText(skills[..k]);
      SkillsTextNext(skills, k);
    }
  }

  /** The saveSchemes builder loop: each id followed by ",", then the last
      "," cut when the builder is not empty. */
  method SaveSkillsText(skills: seq<int>) returns (text: string)
    ensures text == SkillsText(skills)
  {
    var sb := "";
    var k := 0;
    while k < |skills|
      invariant 0 <= k <= |skills|
      invariant sb == Builder(skills[..k])
    {
      assert skills[..k + 1][..k] == skills[..k];
      sb := sb + IntToString(skills[k]) + ",";
      k := k + 1;
    }
    assert skills[..k] == skills;
    BuilderText(skills);
    if |sb| > 0 {
      CutLast(SkillsText(skills), ',');
      sb := sb[..|sb| - 1];
    }
    text := sb;
  }

  lemma SkillsTextNext(skills: seq<int>, k: nat)
    requires k < |skills|
    ensures SkillsText(skills[..k + 1]) == if k == 0 then IntToString(skills[0]) else SkillsText(skills[..k]) + "," + IntToString(skills[k])
  {
    var piece := IntToString(skills[k]);
    assert Decimals(skills[..k + 1]) == Decimals(skills[..k]) + [piece];
    if k > 0 {
      JoinSnoc(Decimals(skills[..k]), piece, ",");
    }
  }

  lemma CutLast(s: string, c: char)
    ensures (s + [c])[..|s|] == s
  {
  }

  /** One row of the scheme table. */
  datatype SchemeRow = SchemeRow(objectId: int, schemeName: string, skills: Option<string>)

  /** The table after reading rows: each row stored in turn; a row whose
      skills do not parse ends the reading, and the rows after it are not
      read. */
  function Loaded(table: map<int, map<string, Scheme>>, rows: seq<SchemeRow>): map<int, map<string, Scheme>>
    decreases |rows|
  {
    if rows == [] then table
    else match ParseSkills(rows[0].skills)
      case None => table
      case Some(list) => Loaded(Stored(table, rows[0].objectId, rows[0].schemeName, list), rows[1..])
  }

  /** Rows whose skills columns the save paths wrote load back their lists:
      a row's list is found under its name once it is the last row of that
      name. */
  lemma LoadedFinds(table: map<int, map<string, Scheme>>, rows: seq<SchemeRow>, skills: seq<int>)
    requires rows != [] && forall k :: 0 <= k < |skills| ==> IsInt32(skills[k])
    requires rows[|rows| - 1].skills == Some(SkillsText(skills))
    requires forall k :: 0 <= k < |rows| - 1 ==> ParseSkills(rows[k].skills).Some?
    ensures SchemeSkills(Loaded(table, rows), rows[|rows| - 1].objectId, rows[|rows| - 1].schemeName) == skills
  {
    SkillsRoundTrip(skills);
    LoadedFindsParsed(table, rows, skills);
  }

  /** The same for any last row whose skills column parses. */
  lemma {:induction false} LoadedFindsParsed(table: map<int, map<string, Scheme>>, rows: seq<SchemeRow>, list: seq<int>)
    requires rows != [] && ParseSkills(rows[|rows| - 1].skills) == Some(list)
    requires forall k :: 0 <= k < |rows| - 1 ==> ParseSkills(rows[k].skills).Some?
    ensures SchemeSkills(Loaded(table, rows), rows[|rows| - 1].objectId, rows[|rows| - 1].schemeName) == list
    decreases |rows|
  {
    if |rows| == 1 {
      LoadedCons(table, rows, list);
      StoredFindsOwn(table, rows[0].objectId, rows[0].schemeName, list);
      assert rows[1..] == [];
    } else {
      var first := ParseSkills(rows[0].skills);
      LoadedCons(table, rows, first.value);
      var rest := rows[1..];
      assert rest[|rest| - 1] == rows[|rows| - 1];
      assert forall k :: 0 <= k < |rest| - 1 ==> rest[k] == rows[k + 1];
      LoadedFindsParsed(Stored(table, rows[0].objectId, rows[0].schemeName, first.value), rest, list);
    }
  }

  /** A stored list is found under the name it was stored by. */
  lemma StoredFindsOwn(table: map<int, map<string, Scheme>>, playerId: int, schemeName: string, list: seq<int>)
    ensures SchemeSkills(Stored(table, playerId, schemeName, list), playerId, schemeName) == list
  {
  }

  /** Reading a row whose skills parse stores it and reads on. */
  lemma LoadedCons(table: map<int, map<string, Scheme>>, rows: seq<SchemeRow>, list: seq<int>)
    requires rows != [] && ParseSkills(rows[0].skills) == Some(list)
    ensures Loaded(table, rows) == Loaded(Stored(table, rows[0].objectId, rows[0].schemeName, list), rows[1..])
  {
  }

  // ----- the available buffs -----

  /** The position of the buff with that id, or -1. */
  function IndexOfId(buffs: seq<BuffSkill>, id: int): (r: int)
    ensures r == -1 <==> forall k :: 0 <= k < |buffs| ==> buffs[k].id != id
    ensures r != -1 ==> 0 <= r < |buffs| && buffs[r].id == id
    decreases |buffs|
  {
    if buffs == [] then -1
    else if buffs[|buffs| - 1].id == id then |buffs| - 1
    else IndexOfId(buffs[..|buffs| - 1], id)
  }

  /** LinkedHashMap.put: a buff with a new id goes last; one with a known id
      takes the old entry's place. */
  function PutBuff(buffs: seq<BuffSkill>, skill: BuffSkill): seq<BuffSkill> {
    var i := IndexOfId(buffs, skill.id);
    if i == -1 then buffs + [skill] else buffs[i := skill]
  }

  /** Ids are never repeated. */
  predicate DistinctIds(buffs: seq<BuffSkill>) {
    forall i, j :: 0 <= i < j < |buffs| ==> buffs[i].id != buffs[j].id
  }

  /** put keeps the ids distinct, makes the id name the new buff, keeps
      every other buff and, for a known id, the order. */
  lemma PutBuffSpec(buffs: seq<BuffSkill>, skill: BuffSkill)
    requires DistinctIds(buffs)
    ensures var r := PutBuff(buffs, skill);
      DistinctIds(r) && IndexOfId(r, skill.id) != -1 && r[IndexOfId(r, skill.id)] == skill
      && (forall k :: 0 <= k < |buffs| && buffs[k].id != skill.id ==> r[k] == buffs[k])
      && |r| == (if IndexOfId(buffs, skill.id) == -1 then |buffs| + 1 else |buffs|)
  {
    var i := IndexOfId(buffs, skill.id);
    var r := PutBuff(buffs, skill);
    if i == -1 {
      assert r[|r| - 1] == skill;
      assert IndexOfId(r, skill.id) == |r| - 1;
    } else {
      IndexOfDistinct(r, skill.id, i);
    }
  }

  lemma IndexOfDistinct(buffs: seq<BuffSkill>, id: int, j: int)
    requires DistinctIds(buffs) && 0 <= j < |buffs| && buffs[j].id == id
    ensures IndexOfId(buffs, id) == j
  {
  }

  /** getSkillTypes: the types in order of first appearance, each once. */
  function SkillTypes(buffs: seq<BuffSkill>): seq<string>
    decreases |buffs|
  {
    if buffs == [] then []
    else
      var types := SkillTypes(buffs[..|buffs| - 1]);
      var t := buffs[|buffs| - 1].skillType;
      if t in types then types else types + [t]
  }

  /** getSkillsIdsByType: the ids of the buffs of that type, ignoring case,
      in list order. */
  function IdsOfType(buffs: seq<BuffSkill>, groupType: string): seq<int>
    decreases |buffs|
  {
    if buffs == [] then []
    else
      var ids := IdsOfType(buffs[..|buffs| - 1], groupType);
      if EqualsIgnoreCase(buffs[|buffs| - 1].skillType, groupType) then ids + [buffs[|buffs| - 1].id] else ids
  }

  /** The first position with that type, or the length. */
  function FirstOfType(buffs: seq<BuffSkill>, t: string): (r: nat)
    ensures r <= |buffs| && (r < |buffs| ==> buffs[r].skillType == t)
    ensures forall k :: 0 <= k < r ==> buffs[k].skillType != t
    decreases |buffs|
  {
    if buffs == [] then 0
    else if buffs[0].skillType == t then 0
    else 1 + FirstOfType(buffs[1..], t)
  }

  lemma FirstOfTypeSnoc(buffs: seq<BuffSkill>, b: BuffSkill, t: string)
    ensures FirstOfType(buffs + [b], t) == if FirstOfType(buffs, t) < |buffs| then FirstOfType(buffs, t)
      else if b.skillType == t then |buffs| else |buffs| + 1
  {
    var r := FirstOfType(buffs + [b], t);
    var q := FirstOfType(buffs, t);
    if q < |buffs| {
      assert (buffs + [b])[q] == buffs[q];
      assert r == q;
    } else if b.skillType == t {
      assert (buffs + [b])[|buffs|] == b;
    }
  }

  /** The type list holds each type exactly once, holds the type of every
      buff and no other, and lists the types in the order they first
      appear. */
  lemma {:induction false} SkillTypesSpec(buffs: seq<BuffSkill>)
    ensures var r := SkillTypes(buffs);
      (forall i, j :: 0 <= i < j < |r| ==> r[i] != r[j])
      && (forall k :: 0 <= k < |buffs| ==> buffs[k].skillType in r)
      && (forall i :: 0 <= i < |r| ==> FirstOfType(buffs, r[i]) < |buffs|)
      && (forall i, j :: 0 <= i < j < |r| ==> FirstOfType(buffs, r[i]) < FirstOfType(buffs, r[j]))
  {
    SkillTypesCover(buffs);
    SkillTypesFirst(buffs);
  }

  /** No type is listed twice and every buff's type is listed. */
  lemma {:induction false} SkillTypesCover(buffs: seq<BuffSkill>)
    ensures var r := SkillTypes(buffs);
      (forall i, j :: 0 <= i < j < |r| ==> r[i] != r[j])
      && (forall k :: 0 <= k < |buffs| ==> buffs[k].skillType in r)
    decreases |buffs|
  {
    if buffs != [] {
      var init := buffs[..|buffs| - 1];
      var b := buffs[|buffs| - 1];
      SkillTypesCover(init);
      var r0 := SkillTypes(init);
      assert SkillTypes(buffs) == if b.skillType in r0 then r0 else r0 + [b.skillType];
      forall k | 0 <= k < |init|
        ensures buffs[k].skillType in r0
      {
        assert buffs[k] == init[k];
      }
    }
  }

  /** Every listed type occurs, and the list follows first occurrences. */
  lemma {:induction false} SkillTypesFirst(buffs: seq<BuffSkill>)
    ensures var r := SkillTypes(buffs);
      (forall i :: 0 <= i < |r| ==> FirstOfType(buffs, r[i]) < |buffs|)
      && (forall i, j :: 0 <= i < j < |r| ==> FirstOfType(buffs, r[i]) < FirstOfType(buffs, r[j]))
    decreases |buffs|
  {
    if buffs != [] {
      var init := buffs[..|buffs| - 1];
      var b := buffs[|buffs| - 1];
      assert buffs == init + [b];
      SkillTypesFirst(init);
      var r0 := SkillTypes(init);
      assert var r := SkillTypes(init); (forall i :: 0 <= i < |r| ==> FirstOfType(init, r[i]) < |init|);
      FirstsKept(init, b, r0);
      if b.skillType !in r0 {
        SkillTypesCover(init);
        NewTypeLast(init, b, r0);
      }
      assert SkillTypes(buffs) == if b.skillType in r0 then r0 else r0 + [b.skillType];
      OrderedSnoc(r0, SkillTypes(buffs), b.skillType, |init|, t => FirstOfType(buffs, t));
    }
  }

  /** Positions that are below n and increase along r0 stay so when t is
      appended at position n. */
  lemma OrderedSnoc(r0: seq<string>, r: seq<string>, t: string, n: nat, pos: string -> nat)
    requires forall i :: 0 <= i < |r0| ==> pos(r0[i]) < n
    requires forall i, j :: 0 <= i < j < |r0| ==> pos(r0[i]) < pos(r0[j])
    requires t !in r0 ==> pos(t) == n
    requires r == if t in r0 then r0 else r0 + [t]
    ensures forall i :: 0 <= i < |r| ==> pos(r[i]) < n + 1
    ensures forall i, j :: 0 <= i < j < |r| ==> pos(r[i]) < pos(r[j])
  {
    if t !in r0 {
      assert forall i :: 0 <= i < |r0| ==> r[i] == r0[i];
    }
  }

  /** Appending a buff keeps the first occurrence of every type met before. */
  lemma FirstsKept(init: seq<BuffSkill>, b: BuffSkill, r0: seq<string>)
    requires forall i :: 0 <= i < |r0| ==> FirstOfType(init, r0[i]) < |init|
    ensures forall i :: 0 <= i < |r0| ==> FirstOfType(init + [b], r0[i]) == FirstOfType(init, r0[i])
  {
    forall i | 0 <= i < |r0|
      ensures FirstOfType(init + [b], r0[i]) == FirstOfType(init, r0[i])
    {
      FirstOfTypeSnoc(init, b, r0[i]);
    }
  }

  /** A type met for the first time is first found at the appended buff. */
  lemma NewTypeLast(init: seq<BuffSkill>, b: BuffSkill, r0: seq<string>)
    requires forall k :: 0 <= k < |init| ==> init[k].skillType in r0
    requires b.skillType !in r0
    ensures FirstOfType(init + [b], b.skillType) == |init|
  {
    assert FirstOfType(init, b.skillType) == |init|;
    FirstOfTypeSnoc(init, b, b.skillType);
  }

  /** The ids of a type are found by concatenating those of the parts, so
      list order is kept. */
  lemma {:induction false} IdsOfTypeAppend(a: seq<BuffSkill>, b: seq<BuffSkill>, groupType: string)
    ensures IdsOfType(a + b, groupType) == IdsOfType(a, groupType) + IdsOfType(b, groupType)
    decreases |b|
  {
    if b == [] {
      assert a + b == a;
    } else {
      var bi := b[..|b| - 1];
      assert (a + b)[..|a + b| - 1] == a + bi;
      assert (a + b)[|a + b| - 1] == b[|b| - 1];
      IdsOfTypeAppend(a, bi, groupType);
    }
  }

  /** An id is listed for a type exactly when some buff with that id has
      that type, ignoring case. */
  lemma {:induction false} IdsOfTypeSpec(buffs: seq<BuffSkill>, groupType: string)
    ensures forall k :: 0 <= k < |buffs| && EqualsIgnoreCase(buffs[k].skillType, groupType) ==>
      buffs[k].id in IdsOfType(buffs, groupType)
    ensures forall i :: 0 <= i < |IdsOfType(buffs, groupType)| ==>
      exists k :: 0 <= k < |buffs| && buffs[k].id == IdsOfType(buffs, groupType)[i] && EqualsIgnoreCase(buffs[k].skillType, groupType)
    decreases |buffs|
  {
    if buffs == [] {
      assert IdsOfType(buffs, groupType) == [];
    } else {
      var init := buffs[..|buffs| - 1];
      var b := buffs[|buffs| - 1];
      IdsOfTypeSpec(init, groupType);
      var r0 := IdsOfType(init, groupType);
      var r := IdsOfType(buffs, groupType);
      assert r == if EqualsIgnoreCase(b.skillType, groupType) then r0 + [b.id] else r0;
      forall k | 0 <= k < |buffs| && EqualsIgnoreCase(buffs[k].skillType, groupType)
        ensures buffs[k].id in r
      {
        if k < |init| {
          assert init[k] == buffs[k];
          assert init[k].id in r0;
        }
      }
      forall i | 0 <= i < |r|
        ensures exists k :: 0 <= k < |buffs| && buffs[k].id == r[i] && EqualsIgnoreCase(buffs[k].skillType, groupType)
      {
        if i < |r0| {
          assert r[i] == r0[i];
          var k :| 0 <= k < |init| && init[k].id == r0[i] && EqualsIgnoreCase(init[k].skillType, groupType);
          assert buffs[k] == init[k];
        } else {
          assert buffs[|buffs| - 1].id == r[i];
        }
      }
    }
  }

  /** Types equal ignoring case list the same ids. */
  lemma {:induction false} IdsOfTypeIgnoresCase(buffs: seq<BuffSkill>, a: string, b: string)
    requires EqualsIgnoreCase(a, b)
    ensures IdsOfType(buffs, a) == IdsOfType(buffs, b)
    decreases |buffs|
  {
    if buffs != [] {
      IdsOfTypeIgnoresCase(buffs[..|buffs| - 1], a, b);
      var t := buffs[|buffs| - 1].skillType;
      assert EqualsIgnoreCase(t, a) <==> EqualsIgnoreCase(t, b);
    }
  }

  /** processCommand: true exactly when the command has a token, that is a
      character other than a space. */
  function ProcessCommand(command: string): (r: bool)
    ensures r <==> exists i :: 0 <= i < |command| && command[i] != ' '
  {
    TokensEmptyIff(command);
    Tokens(command) != []
  }

  /** The buffer manager: the schemes of every player and the buff list. */
  class BufferManager {
    /** Config.BUFFER_MAX_SCHEMES. */
    const maxSchemes: int
    var schemesTable: map<int, map<string, Scheme>>
    var availableBuffs: seq<BuffSkill>

    constructor(maxSchemes: int)
      ensures this.maxSchemes == maxSchemes && schemesTable == map[] && availableBuffs == []
    {
      this.maxSchemes := maxSchemes;
      schemesTable := map[];
      availableBuffs := [];
    }

    /** The invariant every operation keeps. */
    ghost predicate Valid()
      reads this
    {
      WellKeyed(schemesTable) && DistinctIds(availableBuffs)
    }

    method SetScheme(playerId: int, schemeName: string, list: seq<int>)
      modifies this`schemesTable
      requires Valid()
      ensures Valid()
      ensures schemesTable == WithScheme(old(schemesTable), playerId, schemeName, list, maxSchemes)
    {
      SetSchemeWellKeyed(schemesTable, playerId, schemeName, list, maxSchemes);
      var schemes := SchemesOf(schemesTable, playerId);
      if |schemes| >= maxSchemes {
        schemesTable := schemesTable[playerId := schemes];
        return;
      }
      var k := Key(schemeName);
      schemesTable := schemesTable[playerId := schemes[k := Scheme(if k in schemes then schemes[k].name else schemeName, list)]];
    }

    method DeleteScheme(playerId: int, schemeName: string)
      modifies this`schemesTable
      requires Valid()
      ensures Valid()
      ensures schemesTable == WithoutScheme(old(schemesTable), playerId, schemeName)
    {
      if playerId !in schemesTable {
        return;
      }
      var schemes := schemesTable[playerId];
      if Key(schemeName) !in schemes {
        return;
      }
      schemesTable := schemesTable[playerId := schemes - {Key(schemeName)}];
    }

    /** loadSchemes over the rows of the scheme table. */
    method LoadSchemes(rows: seq<SchemeRow>)
      modifies this`schemesTable
      requires Valid()
      ensures Valid()
      ensures schemesTable == Loaded(old(schemesTable), rows)
    {
      var k := 0;
      while k < |rows|
        invariant 0 <= k <= |rows|
        invariant WellKeyed(schemesTable)
        invariant Loaded(old(schemesTable), rows) == Loaded(schemesTable, rows[k..])
      {
        var row := rows[k];
        assert rows[k..][1..] == rows[k + 1..];
        var skills := ParseSkills(row.skills);
        if skills.None? {
          return;
        }
        StoredWellKeyed(schemesTable, row.objectId, row.schemeName, skills.value);
        schemesTable := Stored(schemesTable, row.objectId, row.schemeName, skills.value);
        k := k + 1;
      }
    }

    /** parseDocument's put of one buff. */
    method AddBuff(skill: BuffSkill)
      modifies this`availableBuffs
      requires Valid()
      ensures Valid()
      ensures availableBuffs == PutBuff(old(availableBuffs), skill)
    {
      PutBuffSpec(availableBuffs, skill);
      availableBuffs := PutBuff(availableBuffs, skill);
    }

    method GetSkillTypes() returns (skillTypes: seq<string>)
      ensures skillTypes == SkillTypes(availableBuffs)
    {
      skillTypes := [];
      var k := 0;
      while k < |availableBuffs|
        invariant 0 <= k <= |availableBuffs|
        invariant skillTypes == SkillTypes(availableBuffs[..k])
      {
        assert availableBuffs[..k + 1][..k] == availableBuffs[..k];
        var holder := availableBuffs[k];
        if holder.skillType !in skillTypes {
          skillTypes := skillTypes + [holder.skillType];
        }
        k := k + 1;
      }
      assert availableBuffs[..k] == availableBuffs;
    }

    method GetSkillsIdsByType(groupType: string) returns (skills: seq<int>)
      ensures skills == IdsOfType(availableBuffs, groupType)
    {
      skills := [];
      var k := 0;
      while k < |availableBuffs|
        invariant 0 <= k <= |availableBuffs|
        invariant skills == IdsOfType(availableBuffs[..k], groupType)
      {
        assert availableBuffs[..k + 1][..k] == availableBuffs[..k];
        var holder := availableBuffs[k];
        if EqualsIgnoreCase(holder.skillType, groupType) {
          skills := skills + [holder.id];
        }
        k := k + 1;
      }
      assert availableBuffs[..k] == availableBuffs;
    }
  }
}
