/** Target acquisition in components/BattleScene.tsx: a held target is kept while it lives; otherwise the nearest living enemy is taken. */
module Targeting {
  import opened Types
  import opened Geometry
  import opened Roster

  /** `units.find(u => u.id === id)` from index j on; a null id matches no unit. */
  function FindFrom(units: seq<UnitInstance>, id: Option<nat>, j: nat): (r: Option<nat>)
    requires j <= |units|
    ensures r.None? <==> forall k :: j <= k < |units| ==> Some(units[k].id) != id
    ensures r.Some? ==> j <= r.value < |units| && Some(units[r.value].id) == id
    ensures r.Some? ==> forall k :: j <= k < r.value ==> Some(units[k].id) != id
    decreases |units| - j
  {
    if j == |units| then None
    else if Some(units[j].id) == id then Some(j)
    else FindFrom(units, id, j + 1)
  }

  /** The index of the first unit carrying the id, if any. */
  function FindById(units: seq<UnitInstance>, id: Option<nat>): (r: Option<nat>)
    ensures r.None? <==> forall k :: 0 <= k < |units| ==> Some(units[k].id) != id
    ensures r.Some? ==> r.value < |units| && Some(units[r.value].id) == id
    ensures r.Some? ==> forall k :: 0 <= k < r.value ==> Some(units[k].id) != id
  {
    FindFrom(units, id, 0)
  }

  /** With distinct ids the lookup finds the unit that carries the id. */
  lemma FindByIdOfUnit(units: seq<UnitInstance>, k: nat)
    requires DistinctIds(units)
    requires k < |units|
    ensures FindById(units, Some(units[k].id)) == Some(k)
  {
    var r := FindById(units, Some(units[k].id));
    assert r.Some?;
    assert units[r.value].id == units[k].id;
  }

  /**
   Unit k is a living enemy of unit i, no living enemy among the first n units is strictly nearer, and
   every living enemy before k is strictly farther: k is where a strict `<` scan settles.
   */
  ghost predicate NearestSoFar(root: real -> real, units: seq<UnitInstance>, i: nat, k: nat, n: nat)
    requires i < |units| && n <= |units|
  {
    && k < n
    && LivingEnemy(units, i, k)
    && forall j :: 0 <= j < n && LivingEnemy(units, i, j) ==>
         && Distance(root, units[i].pos, units[k].pos) <= Distance(root, units[i].pos, units[j].pos)
         && (j < k ==> Distance(root, units[i].pos, units[k].pos) < Distance(root, units[i].pos, units[j].pos))
  }

  /** Unit k is the nearest living enemy of unit i, the first in roster order among equally near ones. */
  ghost predicate IsFirstNearest(root: real -> real, units: seq<UnitInstance>, i: nat, k: nat)
    requires i < |units|
  {
    NearestSoFar(root, units, i, k, |units|)
  }

  /** The scan of lines 623-631 from index j on, with `best` the candidate so far (None: minDist is Infinity). */
  function ScanFrom(root: real -> real, units: seq<UnitInstance>, i: nat, j: nat, best: Option<nat>): (r: Option<nat>)
    requires i < |units| && j <= |units|
    requires best.Some? ==> NearestSoFar(root, units, i, best.value, j)
    requires best.None? ==> forall k :: 0 <= k < j ==> !LivingEnemy(units, i, k)
    ensures r.None? ==> forall k :: 0 <= k < |units| ==> !LivingEnemy(units, i, k)
    ensures r.Some? ==> IsFirstNearest(root, units, i, r.value)
    decreases |units| - j
  {
    if j == |units| then best
    else if LivingEnemy(units, i, j) &&
            (best.None? ||
             Distance(root, units[i].pos, units[j].pos) < Distance(root, units[i].pos, units[best.value].pos))
    then ScanFrom(root, units, i, j + 1, Some(j))
    else ScanFrom(root, units, i, j + 1, best)
  }

  /** The nearest living enemy of unit i, None when there is none. */
  function NearestEnemy(root: real -> real, units: seq<UnitInstance>, i: nat): (r: Option<nat>)
    requires i < |units|
    ensures r.None? <==> forall k :: 0 <= k < |units| ==> !LivingEnemy(units, i, k)
    ensures r.Some? ==> IsFirstNearest(root, units, i, r.value)
  {
    ScanFrom(root, units, i, 0, None)
  }

  /** The tie rule makes the nearest enemy unique. */
  lemma FirstNearestUnique(root: real -> real, units: seq<UnitInstance>, i: nat, k: nat, k': nat)
    requires i < |units|
    requires IsFirstNearest(root, units, i, k) && IsFirstNearest(root, units, i, k')
    ensures k == k'
  {
  }

  /** Unit i holds a target id that names an existing, living unit. */
  predicate HoldsLiveTarget(units: seq<UnitInstance>, i: nat)
    requires i < |units|
  {
    var f := FindById(units, units[i].targetId);
    f.Some? && !units[f.value].isDead
  }

  /** The new targetId and the index the unit then acts on. */
  datatype Acquisition = Acquisition(targetId: Option<nat>, target: Option<nat>)

  /** Lines 617-635: keep a living held target, otherwise take the nearest living enemy (or none). */
  function Acquire(root: real -> real, units: seq<UnitInstance>, i: nat): (a: Acquisition)
    requires i < |units|
    ensures a.target.Some? ==> a.target.value < |units| && a.targetId == Some(units[a.target.value].id)
    ensures HoldsLiveTarget(units, i) ==>
              a.targetId == units[i].targetId && a.target == FindById(units, units[i].targetId)
    ensures !HoldsLiveTarget(units, i) ==>
              (a.targetId.None? <==> forall k :: 0 <= k < |units| ==> !LivingEnemy(units, i, k))
    ensures !HoldsLiveTarget(units, i) && a.targetId.Some? ==>
              exists k :: 0 <= k < |units| && IsFirstNearest(root, units, i, k) && a.targetId == Some(units[k].id)
    ensures DistinctIds(units) && !HoldsLiveTarget(units, i) && a.target.Some? ==>
              IsFirstNearest(root, units, i, a.target.value)
    ensures DistinctIds(units) && a.target.Some? ==> !units[a.target.value].isDead
    ensures DistinctIds(units) ==> (a.target.Some? <==> a.targetId.Some?)
  {
    if HoldsLiveTarget(units, i) then
      Acquisition(units[i].targetId, FindById(units, units[i].targetId))
    else
      match NearestEnemy(root, units, i)
      case None => Acquisition(None, FindById(units, None))
      case Some(k) =>
        var f := FindById(units, Some(units[k].id));
        assert DistinctIds(units) ==> f == Some(k) by {
          if DistinctIds(units) {
            FindByIdOfUnit(units, k);
          }
        }
        Acquisition(Some(units[k].id), f)
  }
}
