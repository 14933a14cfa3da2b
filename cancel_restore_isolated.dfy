/** The aCis variant of the cancel-restore mod.  Its settings, its
    scheduling guard and its skills are those of the other variant; it adds
    the two getters and catches the exception of a skill that fails, so one
    failing skill no longer ends the restore. */
module CancelRestoreIsolated {
  import opened Text
  import opened Players
  import opened CancelRestore

  /** The effects after restoring and the sounds sent when each skill's
      failure is caught: a failing skill is skipped like a null one. */
  function RestoredEach(effects: set<int>, buffs: seq<Option<Skill>>, failing: set<int>): (r: (set<int>, nat))
    ensures effects <= r.0
    decreases |buffs|
  {
    if buffs == [] then (effects, 0)
    else
      var rest := buffs[1..];
      match buffs[0]
      case None => RestoredEach(effects, rest, failing)
      case Some(skill) =>
        if skill.id in effects || skill.id in failing then RestoredEach(effects, rest, failing)
        else
          var r := RestoredEach(effects + {skill.id}, rest, failing);
          (r.0, r.1 + 1)
  }

  /** The closed form: every applicable skill ends up active, nothing else
      is added, and one sound is sent per skill that was not active yet. */
  lemma {:induction false} RestoredEachClosed(effects: set<int>, buffs: seq<Option<Skill>>, failing: set<int>)
    ensures var r := RestoredEach(effects, buffs, failing);
      r.0 == effects + Applicable(buffs, failing) && r.1 == |r.0 - effects|
    decreases |buffs|
  {
    if buffs != [] {
      var rest := buffs[1..];
      match buffs[0]
      case None => RestoredEachClosed(effects, rest, failing);
      case Some(skill) =>
        if skill.id in effects || skill.id in failing {
          RestoredEachClosed(effects, rest, failing);
        } else {
          RestoredEachClosed(effects + {skill.id}, rest, failing);
          var r := RestoredEach(effects + {skill.id}, rest, failing);
          AddedOneMore(r.0, effects, skill.id);
        }
    }
  }

  /** Without failing skills the two variants restore the same buffs and
      send the same sounds. */
  lemma {:induction false} VariantsAgree(effects: set<int>, buffs: seq<Option<Skill>>, failing: set<int>)
    requires forall k :: 0 <= k < |buffs| && buffs[k].Some? ==> buffs[k].value.id !in failing
    ensures RestoredEach(effects, buffs, failing) == Restored(effects, buffs, failing)
    decreases |buffs|
  {
    if buffs != [] {
      var rest := buffs[1..];
      assert forall k :: 0 <= k < |rest| ==> rest[k] == buffs[k + 1];
      match buffs[0]
      case None => VariantsAgree(effects, rest, failing);
      case Some(skill) =>
        if skill.id in effects {
          VariantsAgree(effects, rest, failing);
        } else {
          VariantsAgree(effects + {skill.id}, rest, failing);
        }
    }
  }

  /** Catching the failure never restores less than stopping at it. */
  lemma {:induction false} IsolationRestoresMore(effects: set<int>, buffs: seq<Option<Skill>>, failing: set<int>)
    ensures Restored(effects, buffs, failing).0 <= RestoredEach(effects, buffs, failing).0
    decreases |buffs|
  {
    if buffs != [] {
      var rest := buffs[1..];
      match buffs[0]
      case None => IsolationRestoresMore(effects, rest, failing);
      case Some(skill) =>
        if skill.id in effects {
          IsolationRestoresMore(effects, rest, failing);
        } else if skill.id !in failing {
          IsolationRestoresMore(effects + {skill.id}, rest, failing);
        }
    }
  }

  lemma RestoredEachFrom(effects: set<int>, buffs: seq<Option<Skill>>, failing: set<int>, k: nat)
    requires k < |buffs|
    ensures RestoredEach(effects, buffs[k..], failing) ==
      if buffs[k].None? || buffs[k].value.id in effects || buffs[k].value.id in failing
      then RestoredEach(effects, buffs[k + 1..], failing)
      else var r := RestoredEach(effects + {buffs[k].value.id}, buffs[k + 1..], failing); (r.0, r.1 + 1)
  {
    assert buffs[k..][0] == buffs[k];
    assert buffs[k..][1..] == buffs[k + 1..];
  }

  /** The mod with its settings, as the static initialiser leaves them. */
  class SpecialModCancelRestore {
    var cancelRestore: bool
    var customCancelTaskDelay: int

    /** The static initialiser; the getters then report the loaded settings. */
    constructor (config: Option<map<string, string>>)
      ensures Settings(IsCancelRestoreEnabled(), GetCustomCancelTaskDelay()) == LoadSettings(config)
    {
      cancelRestore := false;
      customCancelTaskDelay := DEFAULT_DELAY;
      if config.Some? {
        cancelRestore := EqualsIgnoreCase(Property(config.value, "CancelRestore", "false"), "true");
        var delay := ParseJavaInt(Property(config.value, "CustomCancelTaskDelay", "10000"));
        if delay.Some? {
          customCancelTaskDelay := delay.value;
        }
      }
    }

    /** isCancelRestoreEnabled */
    function IsCancelRestoreEnabled(): bool
      reads this
    {
      cancelRestore
    }

    /** getCustomCancelTaskDelay */
    function GetCustomCancelTaskDelay(): int
      reads this
    {
      customCancelTaskDelay
    }

    /** scheduleBuffRestore, with the delay this mod was loaded with. */
    function Schedule(playerPresent: bool, buffsCanceled: Option<seq<Option<Skill>>>): (r: Scheduled)
      reads this
      ensures r == ScheduleBuffRestore(Settings(cancelRestore, customCancelTaskDelay), playerPresent, buffsCanceled)
      ensures r.RestoreAfter? <==> playerPresent && buffsCanceled.Some? && buffsCanceled.value != []
      ensures r.RestoreAfter? ==> r.delay == GetCustomCancelTaskDelay()
    {
      if !playerPresent || buffsCanceled.None? || buffsCanceled.value == [] then NotScheduled
      else RestoreAfter(customCancelTaskDelay)
    }

    /** restoreBuffs: nothing for a missing, dead or offline player; a
        failing skill is reported and the loop goes on. */
    method RestoreBuffs(player: Player?, buffsCanceled: seq<Option<Skill>>, failing: set<int>)
      modifies (if player == null then {} else {player})`effects, (if player == null then {} else {player})`sent
      ensures player != null && !old(player.dead) && old(player.online) ==>
        var r := RestoredEach(old(player.effects), buffsCanceled, failing);
        player.effects == r.0 && player.sent == old(player.sent) + Sounds(r.1)
      ensures player != null && (old(player.dead) || !old(player.online)) ==>
        player.effects == old(player.effects) && player.sent == old(player.sent)
    {
      if player == null || player.dead || !player.online {
        return;
      }
      ghost var e0 := player.effects;
      ghost var n := 0;
      var k := 0;
      while k < |buffsCanceled|
        invariant 0 <= k <= |buffsCanceled|
        invariant RestoredEach(e0, buffsCanceled, failing) == Shift(RestoredEach(player.effects, buffsCanceled[k..], failing), n)
        invariant player.sent == old(player.sent) + Sounds(n)
      {
        var skill := buffsCanceled[k];
        RestoredEachFrom(player.effects, buffsCanceled, failing, k);
        ghost var before := player.effects;
        if skill.None? || skill.value.id in player.effects || skill.value.id in failing {
          assert RestoredEach(before, buffsCanceled[k..], failing) == RestoredEach(before, buffsCanceled[k + 1..], failing);
          k := k + 1;
          continue;
        }
        SoundsNext(n);
        player.ApplySkill(skill.value.id);
        player.Send(PlaySound(RESTORE_SOUND));
        assert Shift(RestoredEach(before, buffsCanceled[k..], failing), n)
          == Shift(RestoredEach(player.effects, buffsCanceled[k + 1..], failing), n + 1);
        n := n + 1;
        k := k + 1;
      }
      assert buffsCanceled[k..] == [];
    }
  }
}
