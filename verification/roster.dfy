/** Properties of the live roster of placed units that the simulation relies on or keeps. */
module Roster {
  import opened Types
  import Constants

  ghost predicate DistinctIds(units: seq<UnitInstance>)
  {
    forall a, b :: 0 <= a < |units| && 0 <= b < |units| && a != b ==> units[a].id != units[b].id
  }

  /** A held target id never names a unit of the holder's own team. */
  ghost predicate TargetsAreEnemies(units: seq<UnitInstance>)
  {
    forall a, b :: 0 <= a < |units| && 0 <= b < |units| && units[a].targetId == Some(units[b].id) ==>
      units[a].team != units[b].team
  }

  /** A unit is marked dead exactly when its hp is at most zero. */
  ghost predicate DeathConsistent(units: seq<UnitInstance>)
  {
    forall k :: 0 <= k < |units| ==> (units[k].isDead <==> units[k].stats.hp <= 0.0)
  }

  ghost predicate CooldownBounded(units: seq<UnitInstance>)
  {
    forall k :: 0 <= k < |units| ==> units[k].currentCooldown <= units[k].maxCooldown
  }

  ghost predicate HpBounded(units: seq<UnitInstance>)
  {
    forall k :: 0 <= k < |units| ==> units[k].stats.hp <= units[k].stats.maxHp
  }

  /** Every living unit's template can be looked up (the simulation reads its width). */
  ghost predicate LivingCatalogued(units: seq<UnitInstance>)
  {
    forall k :: 0 <= k < |units| && !units[k].isDead ==> Constants.IsCatalogId(units[k].templateId)
  }

  /** Whether the living units are catalogued depends only on their templates and death flags. */
  lemma LivingCataloguedFrame(units: seq<UnitInstance>, units': seq<UnitInstance>)
    requires LivingCatalogued(units)
    requires |units'| == |units|
    requires forall k :: 0 <= k < |units| ==> units'[k].templateId == units[k].templateId
    requires forall k :: 0 <= k < |units| && units'[k].isDead != units[k].isDead ==> units'[k].isDead
    ensures LivingCatalogued(units')
  {
    forall k | 0 <= k < |units'| && !units'[k].isDead
      ensures Constants.IsCatalogId(units'[k].templateId)
    {
      assert !units[k].isDead;
    }
  }

  /** The invariants that placement establishes and every tick keeps. */
  ghost predicate WellFormed(units: seq<UnitInstance>)
  {
    && DistinctIds(units)
    && TargetsAreEnemies(units)
    && DeathConsistent(units)
    && CooldownBounded(units)
    && HpBounded(units)
    && LivingCatalogued(units)
  }

  /** Moving units (new positions or velocities) keeps the roster well formed. */
  lemma MotionKeepsWellFormed(units: seq<UnitInstance>, units': seq<UnitInstance>)
    requires |units'| == |units| && WellFormed(units)
    requires forall k :: 0 <= k < |units| ==> units'[k] == units[k].(pos := units'[k].pos, vel := units'[k].vel)
    ensures WellFormed(units')
  {
    LivingCataloguedFrame(units, units');
  }

  /** Adding a fresh, living, idle, catalogued unit that no one targets keeps the roster well formed. */
  lemma AppendKeepsWellFormed(units: seq<UnitInstance>, u: UnitInstance)
    requires WellFormed(units)
    requires forall k :: 0 <= k < |units| ==> units[k].id != u.id && units[k].targetId != Some(u.id)
    requires u.targetId.None? && !u.isDead && 0.0 < u.stats.hp <= u.stats.maxHp
    requires u.currentCooldown <= u.maxCooldown && Constants.IsCatalogId(u.templateId)
    ensures WellFormed(units + [u])
  {
    var r := units + [u];
    assert forall k :: 0 <= k < |units| ==> r[k] == units[k];
    assert r[|units|] == u;
  }

  /** Unit j is a living unit of the other team than unit i. */
  predicate LivingEnemy(units: seq<UnitInstance>, i: nat, j: nat)
    requires i < |units| && j < |units|
  {
    units[j].team != units[i].team && !units[j].isDead
  }

  /** No unit of team t at index lo or later is alive. */
  ghost predicate NoLivingFrom(units: seq<UnitInstance>, lo: nat, t: Team)
  {
    forall k :: lo <= k < |units| && units[k].team == t ==> units[k].isDead
  }
}
