/** Class balance: multipliers read from the balance document, looked up by
    balance type, attacker class and target class.  Class names resolve
    through the class table, an input here; the values are stored and
    returned unchanged, so they are kept as reals. */
module ClassBalance {
  import opened Text

  datatype BalanceType = NORMAL | MAGIC | CRITICAL | M_CRITICAL | BLOW | PHYSICAL_SKILL_DAMAGE | PHYSICAL_SKILL_CRITICAL

  /** ClassBalanceType.valueOf: the exact constant name, or None where Java
      throws. */
  function TypeNamed(name: string): (r: Option<BalanceType>)
    ensures r.Some? ==> TypeName(r.value) == name
  {
    if name == "NORMAL" then Some(NORMAL)
    else if name == "MAGIC" then Some(MAGIC)
    else if name == "CRITICAL" then Some(CRITICAL)
    else if name == "M_CRITICAL" then Some(M_CRITICAL)
    else if name == "BLOW" then Some(BLOW)
    else if name == "PHYSICAL_SKILL_DAMAGE" then Some(PHYSICAL_SKILL_DAMAGE)
    else if name == "PHYSICAL_SKILL_CRITICAL" then Some(PHYSICAL_SKILL_CRITICAL)
    else None
  }

  /** name(): the constant's own name. */
  function TypeName(t: BalanceType): string {
    match t
    case NORMAL => "NORMAL"
    case MAGIC => "MAGIC"
    case CRITICAL => "CRITICAL"
    case M_CRITICAL => "M_CRITICAL"
    case BLOW => "BLOW"
    case PHYSICAL_SKILL_DAMAGE => "PHYSICAL_SKILL_DAMAGE"
    case PHYSICAL_SKILL_CRITICAL => "PHYSICAL_SKILL_CRITICAL"
  }

  /** valueOf(name()) gives the constant back. */
  lemma TypeNameRoundTrip(t: BalanceType)
    ensures TypeNamed(TypeName(t)) == Some(t)
  {
  }

  /** The attributes of one balance node; absent ones are None. */
  datatype BalanceAttrs = BalanceAttrs(balanceType: Option<string>, classAttr: Option<string>, target: Option<string>, value: Option<real>)

  datatype Holder = Holder(balanceType: BalanceType, classId: int, targetId: int, value: real)

  /** The holder constructor: the type defaults to NORMAL and the value to
      1.0; an unknown type or class name, or a missing class or target,
      throws (None). */
  function HolderOf(attrs: BalanceAttrs, classIds: map<string, int>): (r: Option<Holder>)
    ensures r.Some? <==>
      (attrs.balanceType.None? || TypeNamed(attrs.balanceType.value).Some?)
      && attrs.classAttr.Some? && attrs.classAttr.value in classIds
      && attrs.target.Some? && attrs.target.value in classIds
    ensures r.Some? ==> r.value.classId == classIds[attrs.classAttr.value] && r.value.targetId == classIds[attrs.target.value]
    ensures r.Some? && attrs.balanceType.None? ==> r.value.balanceType == NORMAL
    ensures r.Some? && attrs.value.None? ==> r.value.value == 1.0
    ensures r.Some? && attrs.value.Some? ==> r.value.value == attrs.value.value
  {
    var t := TypeNamed(if attrs.balanceType.Some? then attrs.balanceType.value else "NORMAL");
    if t.None? || attrs.classAttr.None? || attrs.classAttr.value !in classIds
       || attrs.target.None? || attrs.target.value !in classIds then None
    else Some(Holder(t.value, classIds[attrs.classAttr.value], classIds[attrs.target.value],
                     if attrs.value.Some? then attrs.value.value else 1.0))
  }

  /** The holders of a document, in document order, up to the first node
      whose constructor throws. */
  function Holders(nodes: seq<BalanceAttrs>, classIds: map<string, int>): (r: seq<Holder>)
    ensures |r| <= |nodes|
    ensures forall k :: 0 <= k < |r| ==> HolderOf(nodes[k], classIds) == Some(r[k])
    decreases |nodes|
  {
    if nodes == [] then []
    else match HolderOf(nodes[0], classIds)
      case None => []
      case Some(h) => [h] + Holders(nodes[1..], classIds)
  }

  lemma HoldersFrom(nodes: seq<BalanceAttrs>, classIds: map<string, int>, k: nat)
    requires k < |nodes|
    ensures Holders(nodes[k..], classIds) ==
      if HolderOf(nodes[k], classIds).None? then [] else [HolderOf(nodes[k], classIds).value] + Holders(nodes[k + 1..], classIds)
  {
    assert nodes[k..][1..] == nodes[k + 1..];
  }

  /** A document whose every node is well formed gives one holder per node. */
  lemma {:induction false} HoldersAllNodes(nodes: seq<BalanceAttrs>, classIds: map<string, int>)
    requires forall k :: 0 <= k < |nodes| ==> HolderOf(nodes[k], classIds).Some?
    ensures |Holders(nodes, classIds)| == |nodes|
    decreases |nodes|
  {
    if nodes != [] {
      HoldersAllNodes(nodes[1..], classIds);
    }
  }

  predicate Matches(h: Holder, balanceType: BalanceType, attackerClass: int, targetClass: int) {
    h.balanceType == balanceType && h.classId == attackerClass && h.targetId == targetClass
  }

  /** getValueFor: the value of the first holder matching the type, the
      attacker's class and the target's class; 1.0 when none does. */
  function ValueFor(data: seq<Holder>, balanceType: BalanceType, attackerClass: int, targetClass: int): (r: real)
    ensures (forall k :: 0 <= k < |data| ==> !Matches(data[k], balanceType, attackerClass, targetClass)) ==> r == 1.0
    ensures forall k :: (0 <= k < |data| && Matches(data[k], balanceType, attackerClass, targetClass)
                         && forall j :: 0 <= j < k ==> !Matches(data[j], balanceType, attackerClass, targetClass))
                        ==> r == data[k].value
    decreases |data|
  {
    if data == [] then 1.0
    else if Matches(data[0], balanceType, attackerClass, targetClass) then data[0].value
    else
      var r := ValueFor(data[1..], balanceType, attackerClass, targetClass);
      assert forall k :: 1 <= k < |data| ==> data[k] == data[1..][k - 1];
      r
  }

  /** Holders after a matching one never change the answer. */
  lemma {:induction false} EarlierEntryWins(a: seq<Holder>, b: seq<Holder>, balanceType: BalanceType, attackerClass: int, targetClass: int)
    requires exists k :: 0 <= k < |a| && Matches(a[k], balanceType, attackerClass, targetClass)
    ensures ValueFor(a + b, balanceType, attackerClass, targetClass) == ValueFor(a, balanceType, attackerClass, targetClass)
    decreases |a|
  {
    if !Matches(a[0], balanceType, attackerClass, targetClass) {
      var k :| 0 <= k < |a| && Matches(a[k], balanceType, attackerClass, targetClass);
      assert a[1..][k - 1] == a[k];
      assert (a + b)[1..] == a[1..] + b;
      EarlierEntryWins(a[1..], b, balanceType, attackerClass, targetClass);
    }
  }

  /** getValueFor on two creatures, each given by its acting player's class id,
      or None for a creature without one.  The filter evaluates its condition
      holder by holder, left to right with short-circuit &&: the attacker's
      acting player is dereferenced only for a holder of the right type, the
      target's only when the attacker's class matches too, and a missing
      player there throws a NullPointerException (None here). */
  function ValueForCreatures(data: seq<Holder>, balanceType: BalanceType,
                             attacker: Option<int>, target: Option<int>): (r: Option<real>)
    ensures attacker.Some? && target.Some? ==> r == Some(ValueFor(data, balanceType, attacker.value, target.value))
    ensures attacker.None? ==>
      (r.None? <==> exists k :: 0 <= k < |data| && data[k].balanceType == balanceType)
    ensures attacker.Some? && target.None? ==>
      (r.None? <==> exists k :: 0 <= k < |data| && data[k].balanceType == balanceType
                                && data[k].classId == attacker.value)
    ensures r.Some? && (attacker.None? || target.None?) ==> r == Some(1.0)
    decreases |data|
  {
    if data == [] then Some(1.0)
    else
      var h := data[0];
      if h.balanceType != balanceType then
        TailWitness(data, balanceType, attacker);
        ValueForCreatures(data[1..], balanceType, attacker, target)
      else if attacker.None? then None
      else if h.classId != attacker.value then
        TailWitness(data, balanceType, attacker);
        ValueForCreatures(data[1..], balanceType, attacker, target)
      else if target.None? then None
      else if h.targetId != target.value then ValueForCreatures(data[1..], balanceType, attacker, target)
      else Some(h.value)
  }

  /** A holder of the first position that does not fit the type (and, when the
      attacker is known, its class) does not count as a witness. */
  lemma TailWitness(data: seq<Holder>, balanceType: BalanceType, attacker: Option<int>)
    requires data != []
    requires data[0].balanceType != balanceType || (attacker.Some? && data[0].classId != attacker.value)
    ensures (exists k :: 0 <= k < |data| && data[k].balanceType == balanceType)
            <==> (data[0].balanceType == balanceType
                  || exists k :: 0 <= k < |data[1..]| && data[1..][k].balanceType == balanceType)
    ensures attacker.Some? ==>
      ((exists k :: 0 <= k < |data| && data[k].balanceType == balanceType && data[k].classId == attacker.value)
       <==> (exists k :: 0 <= k < |data[1..]| && data[1..][k].balanceType == balanceType
                         && data[1..][k].classId == attacker.value))
  {
    assert forall k :: 0 < k < |data| ==> data[k] == data[1..][k - 1];
  }

  class ClassBalanceManager {
    var data: seq<Holder>

    /** The constructor loads the document once. */
    constructor (nodes: seq<BalanceAttrs>, classIds: map<string, int>)
      ensures data == Holders(nodes, classIds)
    {
      data := [];
      new;
      ParseDocument(nodes, classIds);
      assert [] + Holders(nodes, classIds) == Holders(nodes, classIds);
    }

    /** parseDocument: every balance node's holder is added in order, until a
        node's constructor throws. */
    method ParseDocument(nodes: seq<BalanceAttrs>, classIds: map<string, int>)
      modifies this`data
      ensures data == old(data) + Holders(nodes, classIds)
    {
      var k := 0;
      while k < |nodes|
        invariant 0 <= k <= |nodes|
        invariant old(data) + Holders(nodes, classIds) == data + Holders(nodes[k..], classIds)
      {
        HoldersFrom(nodes, classIds, k);
        var holder := HolderOf(nodes[k], classIds);
        if holder.None? {
          return;
        }
        Associative(data, [holder.value], Holders(nodes[k + 1..], classIds));
        data := data + [holder.value];
        k := k + 1;
      }
    }

    /** reload: cleared, then the document read again. */
    method Reload(nodes: seq<BalanceAttrs>, classIds: map<string, int>)
      modifies this`data
      ensures data == Holders(nodes, classIds)
    {
      data := [];
      ParseDocument(nodes, classIds);
    }

    /** getValueFor(type, attacker, target); None is the NullPointerException
        of a creature without an acting player. */
    function GetValueFor(balanceType: BalanceType, attacker: Option<int>, target: Option<int>): (r: Option<real>)
      reads this
      ensures attacker.Some? && target.Some? ==> r == Some(ValueFor(data, balanceType, attacker.value, target.value))
    {
      ValueForCreatures(data, balanceType, attacker, target)
    }
  }
}
