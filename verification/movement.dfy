/**
 The second pass of a tick in components/BattleScene.tsx: every living unit, in roster order, moves by its velocity, is clamped to the
 playable area, and is then pushed away from each living neighbour it overlaps. Only the unit whose turn
 it is moves; later neighbours see its new position.
 */
module Movement {
  import opened Types
  import opened Geometry
  import opened Roster
  import Constants

  /** Lines 700 and 707: the footprint width of a catalogued template, as the catalog lists it. */
  function WidthOf(templateId: string): (w: real)
    requires Constants.IsCatalogId(templateId)
    ensures w > 0.0
  {
    Constants.LookedUpTemplateWellFormed(templateId);
    Constants.WidthInFinds(Constants.UnitTemplates, templateId);
    Constants.WidthIn(Constants.UnitTemplates, templateId)
  }

  /** The width is the one the catalog lists for the template (the lookup of lines 700 and 707). */
  lemma CatalogWidth(templateId: string)
    requires Constants.IsCatalogId(templateId)
    ensures WidthOf(templateId) == Constants.GetTemplate(templateId).value.width
  {
    Constants.LookedUpTemplateWellFormed(templateId);
    Constants.WidthInFinds(Constants.UnitTemplates, templateId);
  }

  /** Lines 690-698: add the velocity and clamp each axis to the playable area. */
  function Integrate(u: UnitInstance): (p: Vec)
    ensures InArena(p)
    ensures p.x == Clamp(u.pos.x + u.vel.x) && p.z == Clamp(u.pos.z + u.vel.z)
    ensures InArena(Vec(u.pos.x + u.vel.x, u.pos.z + u.vel.z)) ==> p == Vec(u.pos.x + u.vel.x, u.pos.z + u.vel.z)
  {
    Vec(Clamp(u.pos.x + u.vel.x), Clamp(u.pos.z + u.vel.z))
  }

  /** The separation guard of line 709: closer than minGap, but not (nearly) on top of each other. */
  predicate Overlaps(root: real -> real, p: Vec, q: Vec, minGap: real)
  {
    Distance(root, p, q) < minGap && Distance(root, p, q) > 0.0001
  }

  /** Lines 704-713: move p away from q by half the overlap, along the line from q to p. */
  function Push(root: real -> real, p: Vec, q: Vec, minGap: real): (r: Vec)
    ensures !Overlaps(root, p, q, minGap) ==> r == p
  {
    if Overlaps(root, p, q, minGap) then
      var dist := Distance(root, p, q);
      var push := (minGap - dist) / 2.0;
      Vec(p.x + (p.x - q.x) / dist * push, p.z + (p.z - q.z) / dist * push)
    else p
  }

  /**
   A push moves the unit by exactly half the overlap, straight away from the other unit, so the new
   distance is halfway between the old one and minGap: one relaxation step, not an exact solve.
   */
  lemma PushExact(root: real -> real, p: Vec, q: Vec, minGap: real)
    requires IsSqrt(root)
    requires Overlaps(root, p, q, minGap)
    ensures Distance(root, Push(root, p, q, minGap), q) == (Distance(root, p, q) + minGap) / 2.0
    ensures Distance(root, Push(root, p, q, minGap), p) == (minGap - Distance(root, p, q)) / 2.0
    ensures Distance(root, p, q) < Distance(root, Push(root, p, q, minGap), q) < minGap
  {
    var d := Distance(root, p, q);
    var r := Push(root, p, q, minGap);
    var c := PushScale(root, p, q, minGap, d, r);
    PushedDistances(root, p, q, r, c, d, minGap);
  }

  /** An overlapping push moves p away from q by the multiple c of their displacement, c = half the overlap over d. */
  lemma PushScale(root: real -> real, p: Vec, q: Vec, minGap: real, d: real, r: Vec) returns (c: real)
    requires Overlaps(root, p, q, minGap) && d == Distance(root, p, q) && r == Push(root, p, q, minGap)
    ensures c > 0.0 && d < (d + minGap) / 2.0 < minGap
    ensures r.x - q.x == (1.0 + c) * (p.x - q.x) && r.z - q.z == (1.0 + c) * (p.z - q.z)
    ensures r.x - p.x == c * (p.x - q.x) && r.z - p.z == c * (p.z - q.z)
    ensures (1.0 + c) * d == (d + minGap) / 2.0 && c * d == (minGap - d) / 2.0
  {
    var push := (minGap - d) / 2.0;
    PushDisplacement(p, q, d, push, r);
    HalfwaySum(d, minGap, push, push / d);
    c := push / d;
  }

  /** The distances after a push by the multiple c of the displacement from q to p. */
  lemma PushedDistances(root: real -> real, p: Vec, q: Vec, r: Vec, c: real, d: real, minGap: real)
    requires IsSqrt(root) && d == Distance(root, p, q) && c > 0.0
    requires r.x - q.x == (1.0 + c) * (p.x - q.x) && r.z - q.z == (1.0 + c) * (p.z - q.z)
    requires r.x - p.x == c * (p.x - q.x) && r.z - p.z == c * (p.z - q.z)
    requires (1.0 + c) * d == (d + minGap) / 2.0 && c * d == (minGap - d) / 2.0
    ensures Distance(root, r, q) == (d + minGap) / 2.0
    ensures Distance(root, r, p) == (minGap - d) / 2.0
  {
    ScaledDistance(root, p, q, r, q, 1.0 + c);
    ScaledDistance(root, p, q, r, p, c);
  }

  /** The pushed point lies on the line through q and p, (1 + push/d) times as far from q as p is. */
  lemma PushDisplacement(p: Vec, q: Vec, d: real, push: real, r: Vec)
    requires d > 0.0
    requires r == Vec(p.x + (p.x - q.x) / d * push, p.z + (p.z - q.z) / d * push)
    ensures r.x - q.x == (1.0 + push / d) * (p.x - q.x) && r.z - q.z == (1.0 + push / d) * (p.z - q.z)
    ensures r.x - p.x == (push / d) * (p.x - q.x) && r.z - p.z == (push / d) * (p.z - q.z)
  {
    var c := push / d;
    RescaledStep(p.x - q.x, d, push);
    RescaledStep(p.z - q.z, d, push);
    assert (1.0 + c) * (p.x - q.x) == (p.x - q.x) + c * (p.x - q.x);
    assert (1.0 + c) * (p.z - q.z) == (p.z - q.z) + c * (p.z - q.z);
  }

  /** Moving half the overlap lands halfway between the old distance and the gap. */
  lemma HalfwaySum(d: real, minGap: real, push: real, c: real)
    requires 0.0 < d < minGap && push == (minGap - d) / 2.0 && c == push / d
    ensures c > 0.0
    ensures (1.0 + c) * d == (d + minGap) / 2.0
    ensures c * d == (minGap - d) / 2.0
  {
    RescaledStep(1.0, d, push);
    assert (1.0 + c) * d == d + c * d;
  }

  /**
   Lines 703-713 for one neighbour: a dead unit is no obstacle; a living one pushes p away when they overlap
   at minGap = radius + half the neighbour's width, to halfway between their distance and minGap.
   */
  function PushBy(root: real -> real, p: Vec, radius: real, other: UnitInstance): (r: Vec)
    requires !other.isDead ==> Constants.IsCatalogId(other.templateId)
    ensures other.isDead ==> r == p
    ensures !other.isDead && !Overlaps(root, p, other.pos, radius + WidthOf(other.templateId) / 2.0) ==> r == p
  {
    if other.isDead then p
    else Push(root, p, other.pos, radius + WidthOf(other.templateId) / 2.0)
  }

  /** A living neighbour that overlaps p at gap = radius + half its width pushes it to halfway between their distance and gap. */
  lemma PushByLiving(root: real -> real, p: Vec, radius: real, other: UnitInstance)
    requires IsSqrt(root)
    requires !other.isDead && Constants.IsCatalogId(other.templateId)
    requires Overlaps(root, p, other.pos, radius + WidthOf(other.templateId) / 2.0)
    ensures Distance(root, PushBy(root, p, radius, other), other.pos) ==
              (Distance(root, p, other.pos) + (radius + WidthOf(other.templateId) / 2.0)) / 2.0
  {
    PushByIsPush(root, p, radius, other);
    PushExact(root, p, other.pos, radius + WidthOf(other.templateId) / 2.0);
  }

  /** A living neighbour's push is the plain push at gap = radius + half its width. */
  lemma PushByIsPush(root: real -> real, p: Vec, radius: real, other: UnitInstance)
    requires !other.isDead && Constants.IsCatalogId(other.templateId)
    ensures PushBy(root, p, radius, other) == Push(root, p, other.pos, radius + WidthOf(other.templateId) / 2.0)
  {
  }

  /** Lines 702-714: the pushes of unit i's position p by the living units from index j on. */
  function Separate(root: real -> real, units: seq<UnitInstance>, i: nat, p: Vec, radius: real, j: nat): (r: Vec)
    requires i < |units| && j <= |units|
    requires LivingCatalogued(units)
    ensures (forall k :: j <= k < |units| && k != i ==> units[k].isDead) ==> r == p
    decreases |units| - j
  {
    if j == |units| then p
    else
      var p' := if j == i then p else PushBy(root, p, radius, units[j]);
      Separate(root, units, i, p', radius, j + 1)
  }

  /**
   Dead units are not obstacles: two rosters that differ only in units dead in both (where they stand,
   for instance) separate every unit the same way.
   */
  lemma {:induction false} DeadObstacleIgnored(root: real -> real, units: seq<UnitInstance>, units': seq<UnitInstance>,
                                                i: nat, p: Vec, radius: real, j: nat)
    requires |units'| == |units| && i < |units| && j <= |units|
    requires LivingCatalogued(units) && LivingCatalogued(units')
    requires forall k :: 0 <= k < |units| && units'[k] != units[k] ==> units[k].isDead && units'[k].isDead
    ensures Separate(root, units, i, p, radius, j) == Separate(root, units', i, p, radius, j)
    decreases |units| - j
  {
    if j < |units| {
      var p' := if j == i then p else PushBy(root, p, radius, units[j]);
      assert p' == if j == i then p else PushBy(root, p, radius, units'[j]);
      DeadObstacleIgnored(root, units, units', i, p', radius, j + 1);
    }
  }

  /** Lines 687-714 for the unit at index i: integrate, clamp, then separate. Only unit i moves. */
  function MoveUnit(root: real -> real, units: seq<UnitInstance>, i: nat): (r: seq<UnitInstance>)
    requires i < |units|
    requires LivingCatalogued(units)
    ensures |r| == |units|
    ensures forall k :: 0 <= k < |units| && k != i ==> r[k] == units[k]
    ensures r[i] == units[i].(pos := r[i].pos)
    ensures units[i].isDead ==> r == units
    ensures LivingCatalogued(r)
  {
    var u := units[i];
    if u.isDead then units
    else
      var p := Separate(root, units, i, Integrate(u), WidthOf(u.templateId) / 2.0, 0);
      LivingCataloguedFrame(units, units[i := u.(pos := p)]);
      units[i := u.(pos := p)]
  }

  /** The separation gap between living units i and k: half of each one's width (line 707). */
  function Gap(units: seq<UnitInstance>, i: nat, k: nat): real
    requires i < |units| && k < |units| && LivingCatalogued(units)
    requires !units[i].isDead && !units[k].isDead
  {
    WidthOf(units[i].templateId) / 2.0 + WidthOf(units[k].templateId) / 2.0
  }

  /** No living neighbour from index j on overlaps p, so the pushes leave p where it is. */
  lemma {:induction false} SeparateClear(root: real -> real, units: seq<UnitInstance>, i: nat, p: Vec, j: nat)
    requires i < |units| && j <= |units| && LivingCatalogued(units) && !units[i].isDead
    requires forall k :: j <= k < |units| && k != i && !units[k].isDead ==>
               !Overlaps(root, p, units[k].pos, Gap(units, i, k))
    ensures Separate(root, units, i, p, WidthOf(units[i].templateId) / 2.0, j) == p
    decreases |units| - j
  {
    if j < |units| {
      SeparateClear(root, units, i, p, j + 1);
    }
  }

  /** With n the only living neighbour from index j on (and n not yet passed), separation is n's push alone. */
  lemma {:induction false} SeparateSingle(root: real -> real, units: seq<UnitInstance>, i: nat, n: nat, p: Vec,
                                          radius: real, j: nat)
    requires i < |units| && n < |units| && n != i && j <= n && LivingCatalogued(units)
    requires forall k :: j <= k < |units| && k != i && k != n ==> units[k].isDead
    ensures Separate(root, units, i, p, radius, j) == PushBy(root, p, radius, units[n])
    decreases n - j
  {
    var p' := if j == i then p else PushBy(root, p, radius, units[j]);
    assert Separate(root, units, i, p, radius, j) == Separate(root, units, i, p', radius, j + 1);
    if j < n {
      assert p' == p;
      SeparateSingle(root, units, i, n, p, radius, j + 1);
    } else {
      assert forall k :: j + 1 <= k < |units| && k != i ==> units[k].isDead;
    }
  }

  /**
   Lines 702-713 for two living neighbours n1 < n2 (both not yet passed): n1 pushes first, and n2 pushes from
   where n1's push left the unit.
   */
  lemma {:induction false} SeparateTwo(root: real -> real, units: seq<UnitInstance>, i: nat, n1: nat, n2: nat,
                                       p: Vec, radius: real, j: nat)
    requires i < |units| && j <= n1 < n2 < |units| && n1 != i && n2 != i && LivingCatalogued(units)
    requires forall k :: j <= k < |units| && k != i && k != n1 && k != n2 ==> units[k].isDead
    ensures Separate(root, units, i, p, radius, j) == PushBy(root, PushBy(root, p, radius, units[n1]), radius, units[n2])
    decreases n1 - j
  {
    var p' := if j == i then p else PushBy(root, p, radius, units[j]);
    assert Separate(root, units, i, p, radius, j) == Separate(root, units, i, p', radius, j + 1);
    if j < n1 {
      assert p' == p;
      SeparateTwo(root, units, i, n1, n2, p, radius, j + 1);
    } else {
      SeparateSingle(root, units, i, n2, p', radius, j + 1);
    }
  }

  /** A living unit's move ends where separation from its integrated position p puts it. */
  lemma MoveUnitSeparates(root: real -> real, units: seq<UnitInstance>, i: nat, p: Vec, radius: real)
    requires i < |units| && LivingCatalogued(units) && !units[i].isDead
    requires p == Integrate(units[i]) && radius == WidthOf(units[i].templateId) / 2.0
    ensures MoveUnit(root, units, i)[i].pos == Separate(root, units, i, p, radius, 0)
  {
  }

  /**
   A living unit that no living neighbour overlaps once it has moved by its velocity (and been clamped)
   ends its move there, inside the playable area.
   */
  lemma ClearUnitStaysInArena(root: real -> real, units: seq<UnitInstance>, i: nat)
    requires i < |units|
    requires LivingCatalogued(units)
    requires !units[i].isDead
    requires forall k :: 0 <= k < |units| && k != i && !units[k].isDead ==>
               !Overlaps(root, Integrate(units[i]), units[k].pos, Gap(units, i, k))
    ensures MoveUnit(root, units, i)[i].pos == Integrate(units[i])
    ensures InArena(MoveUnit(root, units, i)[i].pos)
  {
    MoveUnitSeparates(root, units, i, Integrate(units[i]), WidthOf(units[i].templateId) / 2.0);
    SeparateClear(root, units, i, Integrate(units[i]), 0);
  }

  /** With n the only living neighbour, and overlapping p, separating p lands halfway between their distance and the gap. */
  lemma SeparatePairDistance(root: real -> real, units: seq<UnitInstance>, i: nat, n: nat, p: Vec, radius: real)
    requires IsSqrt(root)
    requires i < |units| && n < |units| && i != n && LivingCatalogued(units) && !units[n].isDead
    requires forall k :: 0 <= k < |units| && k != i && k != n ==> units[k].isDead
    requires Overlaps(root, p, units[n].pos, radius + WidthOf(units[n].templateId) / 2.0)
    ensures Distance(root, Separate(root, units, i, p, radius, 0), units[n].pos) ==
              (Distance(root, p, units[n].pos) + (radius + WidthOf(units[n].templateId) / 2.0)) / 2.0
  {
    SeparateSingle(root, units, i, n, p, radius, 0);
    PushByLiving(root, p, radius, units[n]);
  }

  /**
   Lines 700-713 for a pair: a living unit whose only living neighbour is n, and which overlaps n once it
   has moved by its velocity, ends at the midpoint of their distance and the gap (half of each width).
   */
  lemma PairSeparation(root: real -> real, units: seq<UnitInstance>, i: nat, n: nat, p: Vec, gap: real)
    requires IsSqrt(root)
    requires i < |units| && n < |units| && i != n && LivingCatalogued(units)
    requires !units[i].isDead && !units[n].isDead
    requires forall k :: 0 <= k < |units| && k != i && k != n ==> units[k].isDead
    requires p == Integrate(units[i]) && gap == Gap(units, i, n)
    requires Overlaps(root, p, units[n].pos, gap)
    ensures Distance(root, MoveUnit(root, units, i)[i].pos, units[n].pos) == (Distance(root, p, units[n].pos) + gap) / 2.0
  {
    var radius := WidthOf(units[i].templateId) / 2.0;
    MoveUnitSeparates(root, units, i, p, radius);
    SeparatePairDistance(root, units, i, n, p, radius);
  }

  /** The same pair, apart after the move: no push, so unit i ends where it moved. */
  lemma PairApart(root: real -> real, units: seq<UnitInstance>, i: nat, n: nat, p: Vec, gap: real)
    requires i < |units| && n < |units| && i != n && LivingCatalogued(units)
    requires !units[i].isDead && !units[n].isDead
    requires forall k :: 0 <= k < |units| && k != i && k != n ==> units[k].isDead
    requires p == Integrate(units[i]) && gap == Gap(units, i, n)
    requires !Overlaps(root, p, units[n].pos, gap)
    ensures MoveUnit(root, units, i)[i].pos == p
  {
    var radius := WidthOf(units[i].templateId) / 2.0;
    MoveUnitSeparates(root, units, i, p, radius);
    SeparateSingle(root, units, i, n, p, radius, 0);
    assert gap == radius + WidthOf(units[n].templateId) / 2.0;
  }

  /** The movement pass from index i as it stands when unit k's move begins: units i..k-1 have moved. */
  function Moved(root: real -> real, units: seq<UnitInstance>, i: nat, k: nat): (r: seq<UnitInstance>)
    requires i <= k <= |units| && LivingCatalogued(units)
    ensures |r| == |units| && LivingCatalogued(r)
    ensures i == k ==> r == units
    ensures forall j :: k <= j < |units| ==> r[j] == units[j]
    decreases k - i
  {
    if i == k then units else Moved(root, MoveUnit(root, units, i), i + 1, k)
  }

  /** The moves happen one after another: unit k moves in the roster its predecessors in the pass have already moved. */
  lemma {:induction false} MovedStep(root: real -> real, units: seq<UnitInstance>, i: nat, k: nat)
    requires i <= k < |units| && LivingCatalogued(units)
    ensures Moved(root, units, i, k + 1) == MoveUnit(root, Moved(root, units, i, k), k)
    decreases k - i
  {
    if i < k {
      MovedStep(root, MoveUnit(root, units, i), i + 1, k);
    }
  }

  /** Lines 687-715: the moves of the units from index i to the end, in roster order. */
  function MovePass(root: real -> real, units: seq<UnitInstance>, i: nat): (r: seq<UnitInstance>)
    requires i <= |units|
    requires LivingCatalogued(units)
    ensures |r| == |units|
    ensures forall k :: 0 <= k < |units| ==> r[k] == units[k].(pos := r[k].pos)
    ensures forall k :: 0 <= k < |units| && (k < i || units[k].isDead) ==> r[k] == units[k]
    ensures r == Moved(root, units, i, |units|)
    decreases |units| - i
  {
    if i == |units| then units
    else MovePass(root, MoveUnit(root, units, i), i + 1)
  }

  /**
   Lines 687-714: unit k ends the pass where its own move puts it, moving from where the combat pass left it
   past neighbours that have already moved (before k) or not yet (after k).
   */
  lemma {:induction false} MovePassAt(root: real -> real, units: seq<UnitInstance>, i: nat, k: nat)
    requires i <= k < |units| && LivingCatalogued(units)
    ensures MovePass(root, units, i)[k] == MoveUnit(root, Moved(root, units, i, k), k)[k]
    decreases k - i
  {
    var next := MoveUnit(root, units, i);
    assert MovePass(root, units, i) == MovePass(root, next, i + 1);
    if i < k {
      assert Moved(root, units, i, k) == Moved(root, next, i + 1, k);
      MovePassAt(root, next, i + 1, k);
    }
  }
}
