/** The cancel-restore mod: buffs removed by a cancel are given back to the
    player after a configured delay.  The timer is left out: scheduling
    reports the delay the restore would run after.  Whether applying a
    skill throws is an input, the set of skill ids whose effects fail. */
module CancelRestore {
  import opened Text
  import opened Players

  const RESTORE_SOUND := "ItemSound.quest_middle"
  const DEFAULT_DELAY := 10000

  /** Properties.getProperty(key, default). */
  function Property(props: map<string, string>, key: string, default: string): string {
    if key in props then props[key] else default
  }

  /** The mod's two settings. */
  datatype Settings = Settings(cancelRestore: bool, customCancelTaskDelay: int)

  /** The static initialiser: without a readable SpecialMods.ini the mod is
      off with a 10000 ms delay; otherwise CancelRestore is read with
      Boolean.parseBoolean and then CustomCancelTaskDelay with
      Integer.parseInt, so a malformed delay keeps the default delay but not
      the default switch. */
  function LoadSettings(config: Option<map<string, string>>): (r: Settings)
    ensures config.None? ==> r == Settings(false, DEFAULT_DELAY)
    ensures config.Some? ==>
      (r.cancelRestore <==> EqualsIgnoreCase(Property(config.value, "CancelRestore", "false"), "true"))
    ensures config.Some? && ParseJavaInt(Property(config.value, "CustomCancelTaskDelay", "10000")).None? ==>
      r.customCancelTaskDelay == DEFAULT_DELAY
    ensures config.Some? && ParseJavaInt(Property(config.value, "CustomCancelTaskDelay", "10000")).Some? ==>
      r.customCancelTaskDelay == ParseJavaInt(Property(config.value, "CustomCancelTaskDelay", "10000")).value
  {
    if config.None? then Settings(false, DEFAULT_DELAY)
    else
      var enabled := EqualsIgnoreCase(Property(config.value, "CancelRestore", "false"), "true");
      match ParseJavaInt(Property(config.value, "CustomCancelTaskDelay", "10000"))
      case None => Settings(enabled, DEFAULT_DELAY)
      case Some(delay) => Settings(enabled, delay)
  }

  /** A config without the two keys gives the defaults too. */
  lemma EmptyConfigDefaults()
    ensures LoadSettings(Some(map[])) == Settings(false, DEFAULT_DELAY)
  {
    ParseIntToString(DEFAULT_DELAY);
    assert IntToString(DEFAULT_DELAY) == "10000" by {
      assert NatToString(10000) == NatToString(1000) + [DigitChar(0)];
      assert NatToString(1000) == NatToString(100) + [DigitChar(0)];
      assert NatToString(100) == NatToString(10) + [DigitChar(0)];
      assert NatToString(10) == NatToString(1) + [DigitChar(0)];
    }
    assert !EqualsIgnoreCase("false", "true");
  }

  /** One skill of the cancelled list. */
  datatype Skill = Skill(id: int, name: string)

  /** What scheduleBuffRestore does. */
  datatype Scheduled = NotScheduled | RestoreAfter(delay: int)

  /** scheduleBuffRestore: nothing for a missing player or a missing or empty
      list; otherwise the restore runs after the configured delay. */
  function ScheduleBuffRestore(settings: Settings, playerPresent: bool, buffsCanceled: Option<seq<Option<Skill>>>): (r: Scheduled)
    ensures r.RestoreAfter? <==> playerPresent && buffsCanceled.Some? && buffsCanceled.value != []
    ensures r.RestoreAfter? ==> r.delay == settings.customCancelTaskDelay
  {
    if !playerPresent || buffsCanceled.None? || buffsCanceled.value == [] then NotScheduled
    else RestoreAfter(settings.customCancelTaskDelay)
  }

  /** The effects after restoring and the sounds sent: null skills and
      skills already active are skipped; every other skill is applied and a
      sound played; a skill whose effects throw ends the task. */
  function Restored(effects: set<int>, buffs: seq<Option<Skill>>, failing: set<int>): (r: (set<int>, nat))
    ensures effects <= r.0
    decreases |buffs|
  {
    if buffs == [] then (effects, 0)
    else
      var rest := buffs[1..];
      match buffs[0]
      case None => Restored(effects, rest, failing)
      case Some(skill) =>
        if skill.id in effects then Restored(effects, rest, failing)
        else if skill.id in failing then (effects, 0)
        else
          var r := Restored(effects + {skill.id}, rest, failing);
          (r.0, r.1 + 1)
  }

  /** One sound per restored buff, and only skills of the list are restored. */
  lemma {:induction false} RestoredCounts(effects: set<int>, buffs: seq<Option<Skill>>, failing: set<int>)
    ensures var r := Restored(effects, buffs, failing);
      |r.0 - effects| == r.1 &&
      forall id :: id in r.0 - effects ==> exists k :: 0 <= k < |buffs| && buffs[k].Some? && buffs[k].value.id == id
    decreases |buffs|
  {
    if buffs != [] {
      var rest := buffs[1..];
      assert forall k :: 0 <= k < |rest| ==> rest[k] == buffs[k + 1];
      match buffs[0]
      case None => RestoredCounts(effects, rest, failing);
      case Some(skill) =>
        if skill.id in effects {
          RestoredCounts(effects, rest, failing);
        } else if skill.id !in failing {
          RestoredCounts(effects + {skill.id}, rest, failing);
          var r := Restored(effects + {skill.id}, rest, failing);
          AddedOne(r.0, effects, skill.id);
          AddedOneMore(r.0, effects, skill.id);
        }
    }
  }

  /** One skill more than the effects before it, and one sound more. */
  lemma AddedOneMore(after: set<int>, effects: set<int>, id: int)
    requires id !in effects && id in after
    ensures |after - effects| == |after - (effects + {id})| + 1
  {
    AddedOne(after, effects, id);
  }

  /** What the skill added besides the rest. */
  lemma AddedOne(after: set<int>, effects: set<int>, id: int)
    requires id !in effects && id in after
    ensures after - effects == (after - (effects + {id})) + {id}
  {
  }

  /** The ids of the non-null skills of the list whose effects do not fail.
      Both variants are described by it: this one up to its first failure
      (`RestoredClosed`), the aCis one over the whole list. */
  function Applicable(buffs: seq<Option<Skill>>, failing: set<int>): (ids: set<int>)
    decreases |buffs|
  {
    if buffs == [] then {}
    else
      (if buffs[0].Some? && buffs[0].value.id !in failing then {buffs[0].value.id} else {})
      + Applicable(buffs[1..], failing)
  }

  /** An id is applicable exactly when some non-null, non-failing entry of
      the list carries it. */
  lemma {:induction false} ApplicableIs(buffs: seq<Option<Skill>>, failing: set<int>, id: int)
    ensures id in Applicable(buffs, failing) <==>
      exists k :: 0 <= k < |buffs| && buffs[k].Some? && buffs[k].value.id == id && id !in failing
    decreases |buffs|
  {
    if buffs != [] {
      var rest := buffs[1..];
      assert forall k :: 0 <= k < |rest| ==> rest[k] == buffs[k + 1];
      ApplicableIs(rest, failing, id);
      if id in Applicable(buffs, failing) && !(buffs[0].Some? && buffs[0].value.id == id && id !in failing) {
        var k :| 0 <= k < |rest| && rest[k].Some? && rest[k].value.id == id && id !in failing;
        assert buffs[k + 1] == rest[k];
      }
      if exists k :: 0 <= k < |buffs| && buffs[k].Some? && buffs[k].value.id == id && id !in failing {
        var k :| 0 <= k < |buffs| && buffs[k].Some? && buffs[k].value.id == id && id !in failing;
        if k > 0 {
          assert rest[k - 1] == buffs[k];
        }
      }
    }
  }

  /** Where the task ends: at the first non-null skill that is
      not already active and whose effects fail, or after the whole list.  A
      failing skill is never applied, so the effects of the list cannot make
      it active on the way. */
  function StopAt(effects: set<int>, buffs: seq<Option<Skill>>, failing: set<int>): (k: nat)
    ensures k <= |buffs|
    decreases |buffs|
  {
    if buffs == [] then 0
    else if buffs[0].Some? && buffs[0].value.id !in effects && buffs[0].value.id in failing then 0
    else 1 + StopAt(effects, buffs[1..], failing)
  }

  lemma {:induction false} StopAtAdd(effects: set<int>, buffs: seq<Option<Skill>>, failing: set<int>, id: int)
    requires id !in failing
    ensures StopAt(effects + {id}, buffs, failing) == StopAt(effects, buffs, failing)
    decreases |buffs|
  {
    if buffs != [] {
      StopAtAdd(effects, buffs[1..], failing, id);
    }
  }

  /** The entries before the stop, once one more entry is put in front. */
  lemma PrefixCons(buffs: seq<Option<Skill>>, n: nat, failing: set<int>)
    requires buffs != [] && n < |buffs|
    ensures Applicable(buffs[..n + 1], failing) ==
      (if buffs[0].Some? && buffs[0].value.id !in failing then {buffs[0].value.id} else {})
      + Applicable(buffs[1..][..n], failing)
  {
    assert buffs[..n + 1][0] == buffs[0];
    assert buffs[..n + 1][1..] == buffs[1..][..n];
  }

  /** The closed form of the restore that ends at a failure: the skills before
      the stop that can apply are added, with one sound each. */
  lemma {:induction false} RestoredClosed(effects: set<int>, buffs: seq<Option<Skill>>, failing: set<int>)
    ensures var r := Restored(effects, buffs, failing);
      r.0 == effects + Applicable(buffs[..StopAt(effects, buffs, failing)], failing) && r.1 == |r.0 - effects|
    decreases |buffs|
  {
    if buffs == [] {
      assert buffs[..0] == [];
    } else if buffs[0].None? || buffs[0].value.id in effects {
      RestoredClosed(effects, buffs[1..], failing);
      SkippedFirst(effects, buffs, failing, Restored(effects, buffs[1..], failing), StopAt(effects, buffs[1..], failing));
    } else if buffs[0].value.id in failing {
      assert buffs[..0] == [];
    } else {
      var id := buffs[0].value.id;
      StopAtAdd(effects, buffs[1..], failing, id);
      RestoredClosed(effects + {id}, buffs[1..], failing);
      AppliedFirst(effects, buffs, failing, Restored(effects + {id}, buffs[1..], failing), StopAt(effects, buffs[1..], failing));
    }
  }

  /** The closed form survives a null or already active first skill. */
  lemma SkippedFirst(effects: set<int>, buffs: seq<Option<Skill>>, failing: set<int>, r: (set<int>, nat), n: nat)
    requires buffs != [] && (buffs[0].None? || buffs[0].value.id in effects)
    requires r == Restored(effects, buffs[1..], failing) && n == StopAt(effects, buffs[1..], failing)
    requires r.0 == effects + Applicable(buffs[1..][..n], failing) && r.1 == |r.0 - effects|
    ensures Restored(effects, buffs, failing) == r && StopAt(effects, buffs, failing) == n + 1
    ensures r.0 == effects + Applicable(buffs[..n + 1], failing)
  {
    PrefixCons(buffs, n, failing);
  }

  /** The closed form survives a first skill that is applied. */
  lemma AppliedFirst(effects: set<int>, buffs: seq<Option<Skill>>, failing: set<int>, r: (set<int>, nat), n: nat)
    requires buffs != [] && buffs[0].Some?
    requires buffs[0].value.id !in effects && buffs[0].value.id !in failing
    requires r == Restored(effects + {buffs[0].value.id}, buffs[1..], failing) && n == StopAt(effects, buffs[1..], failing)
    requires StopAt(effects + {buffs[0].value.id}, buffs[1..], failing) == n
    requires r.0 == effects + {buffs[0].value.id} + Applicable(buffs[1..][..n], failing)
    requires r.1 == |r.0 - (effects + {buffs[0].value.id})|
    ensures Restored(effects, buffs, failing) == (r.0, r.1 + 1) && StopAt(effects, buffs, failing) == n + 1
    ensures r.0 == effects + Applicable(buffs[..n + 1], failing) && r.1 + 1 == |r.0 - effects|
  {
    PrefixCons(buffs, n, failing);
    AddedOneMore(r.0, effects, buffs[0].value.id);
  }

  /** The mod with its settings, as the static initialiser leaves them. */
  class SpecialModCancelRestore {
    var cancelRestore: bool
    var customCancelTaskDelay: int

    constructor (config: Option<map<string, string>>)
      ensures Settings(cancelRestore, customCancelTaskDelay) == LoadSettings(config)
    {
      cancelRestore := false;
      customCancelTaskDelay := DEFAULT_DELAY;
      if config.Some? {
        cancelRestore := EqualsIgnoreCase(Property(config.value, "CancelRestore", "false"), "true");
        var delay := ParseJavaInt(Property(config.value, "CustomCancelTaskDelay", "10000"));
        if delay.Some? {
          customCancelTaskDelay := delay.value;
        }
      }
    }

    /** restoreBuffs: nothing for a missing, dead or offline player. */
    method RestoreBuffs(player: Player?, buffsCanceled: seq<Option<Skill>>, failing: set<int>)
      modifies (if player == null then {} else {player})`effects, (if player == null then {} else {player})`sent
      ensures player != null && !old(player.dead) && old(player.online) ==>
        var r := Restored(old(player.effects), buffsCanceled, failing);
        player.effects == r.0 && player.sent == old(player.sent) + Sounds(r.1)
      ensures player != null && (old(player.dead) || !old(player.online)) ==>
        player.effects == old(player.effects) && player.sent == old(player.sent)
    {
      if player == null || player.dead || !player.online {
        return;
      }
      ghost var e0 := player.effects;
      ghost var n := 0;
      var k := 0;
      while k < |buffsCanceled|
        invariant 0 <= k <= |buffsCanceled|
        invariant Restored(e0, buffsCanceled, failing) == Shift(Restored(player.effects, buffsCanceled[k..], failing), n)
        invariant player.sent == old(player.sent) + Sounds(n)
      {
        var skill := buffsCanceled[k];
        RestoredFrom(player.effects, buffsCanceled, failing, k);
        ghost var before := player.effects;
        if skill.None? || skill.value.id in player.effects {
          assert Restored(before, buffsCanceled[k..], failing) == Restored(before, buffsCanceled[k + 1..], failing);
          k := k + 1;
          continue;
        }
        if skill.value.id in failing {
          return;
        }
        SoundsNext(n);
        player.ApplySkill(skill.value.id);
        player.Send(PlaySound(RESTORE_SOUND));
        assert Shift(Restored(before, buffsCanceled[k..], failing), n)
          == Shift(Restored(player.effects, buffsCanceled[k + 1..], failing), n + 1);
        n := n + 1;
        k := k + 1;
      }
      assert buffsCanceled[k..] == [];
    }
  }

  lemma RestoredFrom(effects: set<int>, buffs: seq<Option<Skill>>, failing: set<int>, k: nat)
    requires k < |buffs|
    ensures Restored(effects, buffs[k..], failing) ==
      if buffs[k].None? || buffs[k].value.id in effects then Restored(effects, buffs[k + 1..], failing)
      else if buffs[k].value.id in failing then (effects, 0)
      else var r := Restored(effects + {buffs[k].value.id}, buffs[k + 1..], failing); (r.0, r.1 + 1)
  {
    assert buffs[k..][0] == buffs[k];
    assert buffs[k..][1..] == buffs[k + 1..];
  }

  /** A restore result after n sounds already played. */
  function Shift(r: (set<int>, nat), n: nat): (set<int>, nat) {
    (r.0, n + r.1)
  }

  lemma SoundsNext(n: nat)
    ensures Sounds(n + 1) == Sounds(n) + [PlaySound(RESTORE_SOUND)]
  {
  }

  /** n restore sounds. */
  function Sounds(n: nat): (r: seq<Packet>)
    ensures |r| == n && forall k :: 0 <= k < n ==> r[k] == PlaySound(RESTORE_SOUND)
  {
    seq(n, k => PlaySound(RESTORE_SOUND))
  }
}
