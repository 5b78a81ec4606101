/**
 The first pass of a tick in components/BattleScene.tsx: every living unit, in roster order, ticks its
 cooldown, (re)acquires a target and then either attacks it or sets a velocity toward it.
 */
module Combat {
  import opened Types
  import opened Geometry
  import opened Roster
  import opened Targeting

  /** The "saw a living RED / BLUE unit" flags of the pass. */
  datatype Seen = Seen(red: bool, blue: bool)
  {
    function Of(t: Team): bool
    {
      if t == Red then red else blue
    }

    function Observe(t: Team): (r: Seen)
      ensures r.Of(t)
      ensures forall u: Team :: u != t ==> r.Of(u) == Of(u)
    {
      if t == Red then this.(red := true) else this.(blue := true)
    }
  }

  /** The roster as the pass leaves it, with the flags. */
  datatype Pass = Pass(units: seq<UnitInstance>, seen: Seen)

  /** `Math.max(10, atk - def * 0.05)`: the damage of one hit. */
  function Damage(atk: real, def: real): (d: real)
    ensures d >= 10.0
    ensures d >= atk - def * 0.05
    ensures d == 10.0 || d == atk - def * 0.05
  {
    Constants.Max(10.0, atk - def * 0.05)
  }

  /** Line 615: the cooldown after `delta` seconds: it only runs down while positive. */
  function CooldownAfter(cd: real, delta: real): (r: real)
    ensures cd <= 0.0 ==> r == cd
    ensures cd > 0.0 ==> r + delta == cd
    ensures delta >= 0.0 ==> r <= cd
    ensures delta >= 0.0 ==> (r <= 0.0 <==> cd <= delta)
  {
    if cd > 0.0 then cd - delta else cd
  }

  /** The time that frames of lengths `ds` add up to. */
  function Elapsed(ds: seq<real>): (e: real)
    ensures (forall k :: 0 <= k < |ds| ==> ds[k] >= 0.0) ==> e >= 0.0
  {
    if ds == [] then 0.0 else ds[0] + Elapsed(ds[1..])
  }

  /** A cooldown ticked down over frames of lengths `ds` (a unit cannot fire while its cooldown is positive). */
  function CooldownOver(cd: real, ds: seq<real>): real
    decreases |ds|
  {
    if ds == [] then cd else CooldownOver(CooldownAfter(cd, ds[0]), ds[1..])
  }

  /**
   The firing rate: a cooldown of cd (maxCooldown just after a shot) has run out after exactly those frames
   whose lengths add up to at least cd, and until then it is cd less the time elapsed.
   */
  lemma {:induction false} ReadyAfterElapsed(cd: real, ds: seq<real>)
    requires forall k :: 0 <= k < |ds| ==> ds[k] >= 0.0
    ensures CooldownOver(cd, ds) <= 0.0 <==> cd <= Elapsed(ds)
    ensures Elapsed(ds) < cd ==> CooldownOver(cd, ds) == cd - Elapsed(ds)
    decreases |ds|
  {
    if ds != [] {
      var rest := ds[1..];
      assert forall k :: 0 <= k < |rest| ==> rest[k] == ds[k + 1];
      ReadyAfterElapsed(CooldownAfter(cd, ds[0]), rest);
    }
  }

  /** Lines 648-651: hp drops by the damage, unclamped, and the unit is marked dead once hp is at most 0. */
  function Hit(u: UnitInstance, dmg: real): (r: UnitInstance)
    ensures r.stats.hp == u.stats.hp - dmg
    ensures r.isDead <==> u.isDead || r.stats.hp <= 0.0
    ensures r == u.(stats := r.stats, isDead := r.isDead)
    ensures Base(r.stats) == Base(u.stats)
  {
    var hp := u.stats.hp - dmg;
    u.(stats := u.stats.(hp := hp), isDead := if hp <= 0.0 then true else u.isDead)
  }

  /**
   Unit b is unit a after combat: only hp (down), death, velocity, cooldown and target may change, and
   death changes only with hp, exactly when the new hp is at most 0.
   */
  ghost predicate Evolves(a: UnitInstance, b: UnitInstance)
  {
    && b.id == a.id
    && b.templateId == a.templateId
    && b.team == a.team
    && b.pos == a.pos
    && b.maxCooldown == a.maxCooldown
    && b.lastAttackTime == a.lastAttackTime
    && Base(b.stats) == Base(a.stats)
    && b.stats.hp <= a.stats.hp
    && (a.isDead ==> b.isDead)
    && (b.stats.hp == a.stats.hp ==> b.isDead == a.isDead)
    && (b.stats.hp != a.stats.hp ==> (b.isDead <==> a.isDead || b.stats.hp <= 0.0))
  }

  /** The fields a unit only writes for itself. */
  ghost predicate SameControl(a: UnitInstance, b: UnitInstance)
  {
    a.vel == b.vel && a.currentCooldown == b.currentCooldown && a.targetId == b.targetId
  }

  function TargetOf(root: real -> real, units: seq<UnitInstance>, i: nat): (t: Option<nat>)
    requires i < |units|
    ensures t.Some? ==> t.value < |units|
  {
    Acquire(root, units, i).target
  }

  predicate InRange(root: real -> real, u: UnitInstance, target: UnitInstance)
  {
    Distance(root, u.pos, target.pos) <= u.stats.range
  }

  /** Unit i attacks this tick: it lives, has a target in range, and its cooldown has run out. */
  predicate Fires(root: real -> real, units: seq<UnitInstance>, delta: real, i: nat)
    requires i < |units|
  {
    var t := TargetOf(root, units, i);
    && !units[i].isDead
    && t.Some?
    && InRange(root, units[i], units[t.value])
    && CooldownAfter(units[i].currentCooldown, delta) <= 0.0
  }

  /** Unit i moves this tick: it lives and has a target strictly out of range at a non-zero distance. */
  predicate Approaches(root: real -> real, units: seq<UnitInstance>, i: nat)
    requires i < |units|
  {
    var t := TargetOf(root, units, i);
    && !units[i].isDead
    && t.Some?
    && !InRange(root, units[i], units[t.value])
    && Distance(root, units[i].pos, units[t.value].pos) > 0.0
  }

  /** Lines 672-681: the velocity a unit's turn leaves it with: the step toward its target when it approaches. */
  function TurnVelocity(root: real -> real, units: seq<UnitInstance>, delta: real, i: nat): Vec
    requires i < |units|
  {
    if Approaches(root, units, i) then
      var t := TargetOf(root, units, i).value;
      Toward(root, units[i].pos, units[t].pos, units[i].stats.moveSpeed * delta)
    else units[i].vel
  }

  /**
   An approaching unit's velocity is a step of length moveSpeed * delta along the line to its target, pointing
   at the target when moveSpeed * delta is non-negative; otherwise the velocity is left as it was.
   */
  lemma TurnVelocityIsStep(root: real -> real, units: seq<UnitInstance>, delta: real, i: nat)
    requires IsSqrt(root) && i < |units|
    ensures !Approaches(root, units, i) ==> TurnVelocity(root, units, delta, i) == units[i].vel
    ensures Approaches(root, units, i) ==>
              var v, s := TurnVelocity(root, units, delta, i), units[i].stats.moveSpeed * delta;
              var d := Vec(units[TargetOf(root, units, i).value].pos.x - units[i].pos.x,
                           units[TargetOf(root, units, i).value].pos.z - units[i].pos.z);
              && SqNorm(v) == s * s
              && v.x * d.z == v.z * d.x
              && (s >= 0.0 ==> v.x * d.x + v.z * d.z >= 0.0)
  {
  }

  /** Lines 644-651: reset the attacker's cooldown and hit the target. */
  function Fire(units: seq<UnitInstance>, i: nat, t: nat): (r: seq<UnitInstance>)
    requires i < |units| && t < |units|
    ensures |r| == |units|
    ensures r[i].currentCooldown == units[i].maxCooldown
    ensures r[t].stats.hp == units[t].stats.hp - Damage(units[i].stats.atk, units[t].stats.def)
    ensures r[t].isDead <==> units[t].isDead || r[t].stats.hp <= 0.0
    ensures forall k :: 0 <= k < |units| && k != i && k != t ==> r[k] == units[k]
    ensures forall k :: 0 <= k < |units| ==> Evolves(units[k], r[k])
    ensures forall k :: 0 <= k < |units| ==> r[k].vel == units[k].vel && r[k].targetId == units[k].targetId
    ensures forall k :: 0 <= k < |units| && k != i ==> r[k].currentCooldown == units[k].currentCooldown
  {
    var s := units[i := units[i].(currentCooldown := units[i].maxCooldown)];
    s[t := Hit(s[t], Damage(units[i].stats.atk, s[t].stats.def))]
  }

  /** Lines 637-683 for actor i (already carrying its new cooldown and target) and target t. */
  function Act(root: real -> real, s: seq<UnitInstance>, i: nat, t: nat, delta: real): (r: seq<UnitInstance>)
    requires i < |s| && t < |s|
    ensures |r| == |s|
    ensures forall k :: 0 <= k < |s| ==> Evolves(s[k], r[k])
    ensures forall k :: 0 <= k < |s| && k != i && k != t ==> r[k] == s[k]
    ensures forall k :: 0 <= k < |s| && k != i ==> SameControl(s[k], r[k])
    ensures r[i].targetId == s[i].targetId
    ensures InRange(root, s[i], s[t]) && s[i].currentCooldown <= 0.0 ==>
              && r[i].currentCooldown == s[i].maxCooldown
              && r[t].stats.hp == s[t].stats.hp - Damage(s[i].stats.atk, s[t].stats.def)
              && (r[t].isDead <==> s[t].isDead || r[t].stats.hp <= 0.0)
    ensures !(InRange(root, s[i], s[t]) && s[i].currentCooldown <= 0.0) ==>
              forall k :: 0 <= k < |s| && k != i ==> r[k] == s[k]
    ensures !(InRange(root, s[i], s[t]) && s[i].currentCooldown <= 0.0) ==>
              r[i].currentCooldown == s[i].currentCooldown && r[i].stats == s[i].stats
    ensures !InRange(root, s[i], s[t]) && Distance(root, s[i].pos, s[t].pos) > 0.0 ==>
              r[i].vel == Toward(root, s[i].pos, s[t].pos, s[i].stats.moveSpeed * delta)
    ensures !(!InRange(root, s[i], s[t]) && Distance(root, s[i].pos, s[t].pos) > 0.0) ==> r[i].vel == s[i].vel
  {
    if InRange(root, s[i], s[t]) then
      if s[i].currentCooldown <= 0.0 then Fire(s, i, t) else s
    else if Distance(root, s[i].pos, s[t].pos) > 0.0 then
      s[i := s[i].(vel := Toward(root, s[i].pos, s[t].pos, s[i].stats.moveSpeed * delta))]
    else s
  }

  /** Lines 611-635: the actor ticks its cooldown and takes the target it acquired; no one else changes. */
  function Prepare(root: real -> real, units: seq<UnitInstance>, delta: real, i: nat): (s: seq<UnitInstance>)
    requires i < |units|
    ensures |s| == |units|
    ensures forall k :: 0 <= k < |s| && k != i ==> s[k] == units[k]
    ensures s[i] == units[i].(currentCooldown := s[i].currentCooldown, targetId := s[i].targetId)
    ensures s[i].currentCooldown == CooldownAfter(units[i].currentCooldown, delta)
    ensures s[i].targetId == Acquire(root, units, i).targetId
  {
    var u := units[i];
    units[i := u.(currentCooldown := CooldownAfter(u.currentCooldown, delta), targetId := Acquire(root, units, i).targetId)]
  }

  /** Lines 611-683: the turn of the unit at index i. */
  function UnitStep(root: real -> real, units: seq<UnitInstance>, delta: real, i: nat, seen: Seen): (r: Pass)
    requires i < |units|
    ensures |r.units| == |units|
    ensures units[i].isDead ==> r == Pass(units, seen)
    ensures !units[i].isDead ==> r.seen == seen.Observe(units[i].team)
    ensures !units[i].isDead ==> r.units[i].targetId == Acquire(root, units, i).targetId
  {
    var u := units[i];
    if u.isDead then Pass(units, seen)
    else
      var a := Acquire(root, units, i);
      var s := Prepare(root, units, delta, i);
      var s' := if a.target.Some? then Act(root, s, i, a.target.value, delta) else s;
      Pass(s', seen.Observe(u.team))
  }

  /**
   A turn only makes combat changes (see `Evolves`), leaves every other unit's velocity, cooldown and target
   alone, and, with distinct ids, does not touch a dead unit.
   */
  lemma StepEvolves(root: real -> real, units: seq<UnitInstance>, delta: real, i: nat, seen: Seen)
    requires i < |units|
    ensures var r := UnitStep(root, units, delta, i, seen);
            forall k :: 0 <= k < |units| ==> Evolves(units[k], r.units[k])
    ensures var r := UnitStep(root, units, delta, i, seen);
            forall k :: 0 <= k < |units| && k != i ==> SameControl(units[k], r.units[k])
    ensures var r := UnitStep(root, units, delta, i, seen);
            DistinctIds(units) ==> forall k :: 0 <= k < |units| && units[k].isDead ==> r.units[k] == units[k]
  {
  }

  /** When a turn fires, what the hit does, and that nothing but a firing changes another unit or any hp. */
  lemma StepFiring(root: real -> real, units: seq<UnitInstance>, delta: real, i: nat, seen: Seen)
    requires i < |units|
    ensures var r := UnitStep(root, units, delta, i, seen);
            Fires(root, units, delta, i) ==> r.units[i].currentCooldown == units[i].maxCooldown
    ensures var r := UnitStep(root, units, delta, i, seen);
            !units[i].isDead && !Fires(root, units, delta, i) ==>
              r.units[i].currentCooldown == CooldownAfter(units[i].currentCooldown, delta)
    ensures var r := UnitStep(root, units, delta, i, seen);
            Fires(root, units, delta, i) ==>
              var t := TargetOf(root, units, i).value;
              && r.units[t].stats.hp == units[t].stats.hp - Damage(units[i].stats.atk, units[t].stats.def)
              && (r.units[t].isDead <==> units[t].isDead || r.units[t].stats.hp <= 0.0)
    ensures var r := UnitStep(root, units, delta, i, seen);
            forall k :: 0 <= k < |units| && r.units[k] != units[k] && k != i ==>
              Fires(root, units, delta, i) && TargetOf(root, units, i) == Some(k)
    ensures var r := UnitStep(root, units, delta, i, seen);
            forall k :: 0 <= k < |units| && r.units[k].stats.hp != units[k].stats.hp ==>
              Fires(root, units, delta, i) && TargetOf(root, units, i) == Some(k)
  {
    if !units[i].isDead {
      var a := Acquire(root, units, i);
      var s := Prepare(root, units, delta, i);
      if a.target.Some? {
        var t := a.target.value;
        assert s[i].pos == units[i].pos && s[t].pos == units[t].pos && s[i].stats == units[i].stats;
        assert s[t].stats == units[t].stats;
        assert Fires(root, units, delta, i) <==> InRange(root, s[i], s[t]) && s[i].currentCooldown <= 0.0;
      }
    }
  }

  /** A turn sets a velocity exactly when the unit approaches its target, and then a step toward it. */
  lemma StepMovement(root: real -> real, units: seq<UnitInstance>, delta: real, i: nat, seen: Seen)
    requires i < |units|
    ensures var r := UnitStep(root, units, delta, i, seen);
            Approaches(root, units, i) ==>
              var t := TargetOf(root, units, i).value;
              r.units[i].vel == Toward(root, units[i].pos, units[t].pos, units[i].stats.moveSpeed * delta)
    ensures var r := UnitStep(root, units, delta, i, seen);
            !Approaches(root, units, i) ==> r.units[i].vel == units[i].vel
    ensures UnitStep(root, units, delta, i, seen).units[i].vel == TurnVelocity(root, units, delta, i)
  {
    if !units[i].isDead {
      var a := Acquire(root, units, i);
      var s := Prepare(root, units, delta, i);
      if a.target.Some? {
        var t := a.target.value;
        assert s[i].pos == units[i].pos && s[t].pos == units[t].pos && s[i].stats == units[i].stats;
        assert s[i].vel == units[i].vel;
      }
    }
  }

  /** Lines 610-684: the turns of the units from index i to the end, in roster order. */
  function CombatPass(root: real -> real, units: seq<UnitInstance>, delta: real, i: nat, seen: Seen): (r: Pass)
    requires i <= |units|
    ensures |r.units| == |units|
    ensures forall k :: 0 <= k < |units| ==> Evolves(units[k], r.units[k])
    decreases |units| - i
  {
    if i == |units| then Pass(units, seen)
    else
      var step := UnitStep(root, units, delta, i, seen);
      StepEvolves(root, units, delta, i, seen);
      CombatPass(root, step.units, delta, i + 1, step.seen)
  }

  /** The pass from index i as it stands when turn k (i <= k) begins. */
  function Before(root: real -> real, units: seq<UnitInstance>, delta: real, i: nat, seen: Seen, k: nat): (p: Pass)
    requires i <= k <= |units|
    ensures |p.units| == |units|
    ensures forall j :: 0 <= j < |units| ==> Evolves(units[j], p.units[j])
    decreases k - i
  {
    if i == k then Pass(units, seen)
    else
      var step := UnitStep(root, units, delta, i, seen);
      StepEvolves(root, units, delta, i, seen);
      Before(root, step.units, delta, i + 1, step.seen, k)
  }

  /** The turns before unit k's own leave its velocity, cooldown and target as they were. */
  lemma {:induction false} ControlKeptBefore(root: real -> real, units: seq<UnitInstance>, delta: real, i: nat,
                                             seen: Seen, k: nat)
    requires i <= k < |units|
    ensures SameControl(units[k], Before(root, units, delta, i, seen, k).units[k])
    decreases k - i
  {
    if i < k {
      var step := UnitStep(root, units, delta, i, seen);
      assert Before(root, units, delta, i, seen, k) == Before(root, step.units, delta, i + 1, step.seen, k);
      assert SameControl(units[k], step.units[k]) by {
        StepEvolves(root, units, delta, i, seen);
      }
      ControlKeptBefore(root, step.units, delta, i + 1, step.seen, k);
    }
  }

  /** The turns after unit k's own leave its velocity, cooldown and target as they were. */
  lemma {:induction false} ControlKeptAfter(root: real -> real, units: seq<UnitInstance>, delta: real, i: nat,
                                            seen: Seen, k: nat)
    requires k < i <= |units|
    ensures SameControl(units[k], CombatPass(root, units, delta, i, seen).units[k])
    decreases |units| - i
  {
    if i < |units| {
      var step := UnitStep(root, units, delta, i, seen);
      assert CombatPass(root, units, delta, i, seen) == CombatPass(root, step.units, delta, i + 1, step.seen);
      assert SameControl(units[k], step.units[k]) by {
        StepEvolves(root, units, delta, i, seen);
      }
      ControlKeptAfter(root, step.units, delta, i + 1, step.seen, k);
    }
  }

  /**
   Unit k ends the pass with the velocity, cooldown and target its own turn gave it: no other turn writes
   them, before or after.
   */
  lemma {:induction false} TurnDecidesControl(root: real -> real, units: seq<UnitInstance>, delta: real, i: nat,
                                              seen: Seen, k: nat)
    requires i <= k < |units|
    ensures var b := Before(root, units, delta, i, seen, k);
            SameControl(UnitStep(root, b.units, delta, k, b.seen).units[k], CombatPass(root, units, delta, i, seen).units[k])
    decreases k - i
  {
    var step := UnitStep(root, units, delta, i, seen);
    assert CombatPass(root, units, delta, i, seen) == CombatPass(root, step.units, delta, i + 1, step.seen);
    if i == k {
      assert Before(root, units, delta, i, seen, k) == Pass(units, seen);
      ControlKeptAfter(root, step.units, delta, k + 1, step.seen, k);
    } else {
      assert Before(root, units, delta, i, seen, k) == Before(root, step.units, delta, i + 1, step.seen, k);
      TurnDecidesControl(root, step.units, delta, i + 1, step.seen, k);
    }
  }

  /** Ids never change in combat, so they stay distinct. */
  lemma EvolvesKeepsDistinctIds(units: seq<UnitInstance>, units': seq<UnitInstance>)
    requires |units'| == |units| && DistinctIds(units)
    requires forall k :: 0 <= k < |units| ==> Evolves(units[k], units'[k])
    ensures DistinctIds(units')
  {
    forall a, b | 0 <= a < |units'| && 0 <= b < |units'| && a != b ensures units'[a].id != units'[b].id {
      assert units'[a].id == units[a].id && units'[b].id == units[b].id;
    }
  }

  /** With distinct ids, the units dead when the pass starts come out of it untouched. */
  lemma {:induction false} CombatPassSkipsDead(root: real -> real, units: seq<UnitInstance>, delta: real, i: nat, seen: Seen)
    requires i <= |units| && DistinctIds(units)
    ensures forall k :: 0 <= k < |units| && units[k].isDead ==> CombatPass(root, units, delta, i, seen).units[k] == units[k]
    decreases |units| - i
  {
    if i < |units| {
      var step := UnitStep(root, units, delta, i, seen);
      StepEvolves(root, units, delta, i, seen);
      EvolvesKeepsDistinctIds(units, step.units);
      CombatPassSkipsDead(root, step.units, delta, i + 1, step.seen);
    }
  }

  /** The flags only go up during a pass. */
  lemma {:induction false} PassFlagsRise(root: real -> real, units: seq<UnitInstance>, delta: real, i: nat, seen: Seen,
                                         t: Team)
    requires i <= |units| && seen.Of(t)
    ensures CombatPass(root, units, delta, i, seen).seen.Of(t)
    decreases |units| - i
  {
    if i < |units| {
      var step := UnitStep(root, units, delta, i, seen);
      StepEvolves(root, units, delta, i, seen);
      PassFlagsRise(root, step.units, delta, i + 1, step.seen, t);
    }
  }

  /** A team with no living unit left to take a turn keeps its flag. */
  lemma {:induction false} PassKeepsUnseen(root: real -> real, units: seq<UnitInstance>, delta: real, i: nat, seen: Seen,
                                           t: Team)
    requires i <= |units| && NoLivingFrom(units, i, t)
    ensures CombatPass(root, units, delta, i, seen).seen.Of(t) == seen.Of(t)
    decreases |units| - i
  {
    if i < |units| {
      var step := UnitStep(root, units, delta, i, seen);
      assert CombatPass(root, units, delta, i, seen) == CombatPass(root, step.units, delta, i + 1, step.seen);
      assert step.seen.Of(t) == seen.Of(t);
      assert NoLivingFrom(step.units, i + 1, t) by {
        StepEvolves(root, units, delta, i, seen);
        forall k | i + 1 <= k < |units| && step.units[k].team == t ensures step.units[k].isDead {
          assert Evolves(units[k], step.units[k]);
        }
      }
      PassKeepsUnseen(root, step.units, delta, i + 1, step.seen, t);
    }
  }

  /** A unit alive when the pass ends was alive at its own turn, which raised its team's flag for good. */
  lemma SurvivorSeenAtTurn(root: real -> real, units: seq<UnitInstance>, delta: real, i: nat, seen: Seen)
    requires i < |units|
    requires !CombatPass(root, units, delta, i, seen).units[i].isDead
    ensures CombatPass(root, units, delta, i, seen).seen.Of(units[i].team)
  {
    var step := UnitStep(root, units, delta, i, seen);
    var r := CombatPass(root, step.units, delta, i + 1, step.seen);
    assert CombatPass(root, units, delta, i, seen) == r;
    assert !step.units[i].isDead by {
      assert Evolves(step.units[i], r.units[i]);
    }
    assert !units[i].isDead by {
      StepEvolves(root, units, delta, i, seen);
      assert Evolves(units[i], step.units[i]);
    }
    PassFlagsRise(root, step.units, delta, i + 1, step.seen, units[i].team);
  }

  /** A unit from index i on that is alive when the pass ends took its turn, so its team was seen. */
  lemma {:induction false} PassSeesSurvivors(root: real -> real, units: seq<UnitInstance>, delta: real, i: nat, seen: Seen,
                                             k: nat)
    requires i <= k < |units|
    requires !CombatPass(root, units, delta, i, seen).units[k].isDead
    ensures CombatPass(root, units, delta, i, seen).seen.Of(units[k].team)
    decreases |units| - i
  {
    if k == i {
      SurvivorSeenAtTurn(root, units, delta, i, seen);
    } else {
      var step := UnitStep(root, units, delta, i, seen);
      var r := CombatPass(root, step.units, delta, i + 1, step.seen);
      assert CombatPass(root, units, delta, i, seen) == r;
      var t := units[k].team;
      assert step.units[k].team == t by {
        StepEvolves(root, units, delta, i, seen);
      }
      PassSeesSurvivors(root, step.units, delta, i + 1, step.seen, k);
      assert r.seen.Of(t);
    }
  }

  /**
   The flags only go up; a team with no living unit left to move keeps its flag; and a unit from index i
   on that is alive when the pass ends was seen.
   */
  lemma CombatPassFlags(root: real -> real, units: seq<UnitInstance>, delta: real, i: nat, seen: Seen)
    requires i <= |units|
    ensures var r := CombatPass(root, units, delta, i, seen);
            forall t: Team :: seen.Of(t) ==> r.seen.Of(t)
    ensures var r := CombatPass(root, units, delta, i, seen);
            forall t: Team :: NoLivingFrom(units, i, t) ==> r.seen.Of(t) == seen.Of(t)
    ensures var r := CombatPass(root, units, delta, i, seen);
            forall k :: i <= k < |units| && !r.units[k].isDead ==> r.seen.Of(units[k].team)
  {
    var r := CombatPass(root, units, delta, i, seen);
    forall t: Team | seen.Of(t) ensures r.seen.Of(t) {
      PassFlagsRise(root, units, delta, i, seen, t);
    }
    forall t: Team | NoLivingFrom(units, i, t) ensures r.seen.Of(t) == seen.Of(t) {
      PassKeepsUnseen(root, units, delta, i, seen, t);
    }
    forall k | i <= k < |units| && !r.units[k].isDead ensures r.seen.Of(units[k].team) {
      PassSeesSurvivors(root, units, delta, i, seen, k);
    }
  }

  /** Some unit of team t from index i on is alive when its own turn begins (lines 612-613 then raise t's flag). */
  ghost predicate AliveAtTurn(root: real -> real, units: seq<UnitInstance>, delta: real, i: nat, seen: Seen, t: Team)
    requires i <= |units|
  {
    exists k :: i <= k < |units| && units[k].team == t && !Before(root, units, delta, i, seen, k).units[k].isDead
  }

  /** For a later unit k, taking turn i first leaves its team and the state at its turn as they were. */
  lemma LaterTurnAfterStep(root: real -> real, units: seq<UnitInstance>, delta: real, i: nat, seen: Seen, k: nat)
    requires i < k < |units|
    ensures var step := UnitStep(root, units, delta, i, seen);
            && step.units[k].team == units[k].team
            && Before(root, units, delta, i, seen, k) == Before(root, step.units, delta, i + 1, step.seen, k)
  {
    StepEvolves(root, units, delta, i, seen);
  }

  /** Taking turn i first: t has a unit alive at its turn from i on iff unit i is one, or one follows. */
  lemma AliveAtTurnStep(root: real -> real, units: seq<UnitInstance>, delta: real, i: nat, seen: Seen, t: Team)
    requires i < |units|
    ensures var step := UnitStep(root, units, delta, i, seen);
            AliveAtTurn(root, units, delta, i, seen, t) <==>
              (units[i].team == t && !units[i].isDead) || AliveAtTurn(root, step.units, delta, i + 1, step.seen, t)
  {
    var step := UnitStep(root, units, delta, i, seen);
    if AliveAtTurn(root, units, delta, i, seen, t) {
      var k :| i <= k < |units| && units[k].team == t && !Before(root, units, delta, i, seen, k).units[k].isDead;
      if k > i {
        LaterTurnAfterStep(root, units, delta, i, seen, k);
      } else {
        assert Before(root, units, delta, i, seen, i) == Pass(units, seen);
      }
    }
    if AliveAtTurn(root, step.units, delta, i + 1, step.seen, t) {
      var k :| i + 1 <= k < |units| && step.units[k].team == t &&
               !Before(root, step.units, delta, i + 1, step.seen, k).units[k].isDead;
      LaterTurnAfterStep(root, units, delta, i, seen, k);
    }
    if units[i].team == t && !units[i].isDead {
      assert Before(root, units, delta, i, seen, i) == Pass(units, seen);
    }
  }

  /**
   Lines 611-613, exactly: a pass from index i raises t's flag iff it was already up or some unit of t is
   alive when its own turn begins. A unit killed before its turn does not count, whatever it did earlier.
   */
  lemma {:induction false} PassSeenExactly(root: real -> real, units: seq<UnitInstance>, delta: real, i: nat,
                                           seen: Seen, t: Team)
    requires i <= |units|
    ensures CombatPass(root, units, delta, i, seen).seen.Of(t) <==> seen.Of(t) || AliveAtTurn(root, units, delta, i, seen, t)
    decreases |units| - i
  {
    if i < |units| {
      var step := UnitStep(root, units, delta, i, seen);
      assert CombatPass(root, units, delta, i, seen) == CombatPass(root, step.units, delta, i + 1, step.seen);
      assert step.seen.Of(t) <==> seen.Of(t) || (units[i].team == t && !units[i].isDead);
      AliveAtTurnStep(root, units, delta, i, seen, t);
      PassSeenExactly(root, step.units, delta, i + 1, step.seen, t);
    }
  }

  /** The first living unit from index i on takes its turn alive, so if no enemy of t lives there, t is seen. */
  lemma {:induction false} FirstLivingTakesTurn(root: real -> real, units: seq<UnitInstance>, delta: real, i: nat,
                                                seen: Seen, k: nat)
    requires i <= k < |units| && !units[k].isDead
    requires forall j :: i <= j < |units| && units[j].team != units[k].team ==> units[j].isDead
    ensures AliveAtTurn(root, units, delta, i, seen, units[k].team)
    decreases k - i
  {
    AliveAtTurnStep(root, units, delta, i, seen, units[k].team);
    if units[i].isDead {
      assert UnitStep(root, units, delta, i, seen) == Pass(units, seen);
      FirstLivingTakesTurn(root, units, delta, i + 1, seen, k);
    }
  }

  /** A new target is the nearest living enemy, so with distinct ids every held target still names an enemy. */
  lemma StepKeepsTargetsAreEnemies(root: real -> real, units: seq<UnitInstance>, delta: real, i: nat, seen: Seen)
    requires i < |units|
    requires DistinctIds(units) && TargetsAreEnemies(units)
    ensures TargetsAreEnemies(UnitStep(root, units, delta, i, seen).units)
  {
    var r := UnitStep(root, units, delta, i, seen).units;
    StepEvolves(root, units, delta, i, seen);
    forall a, b | 0 <= a < |r| && 0 <= b < |r| && r[a].targetId == Some(r[b].id)
      ensures r[a].team != r[b].team
    {
      assert Evolves(units[a], r[a]) && Evolves(units[b], r[b]);
      if a != i {
        assert SameControl(units[a], r[a]);
      } else if !units[i].isDead && !HoldsLiveTarget(units, i) {
        var k :| 0 <= k < |units| && IsFirstNearest(root, units, i, k) && r[i].targetId == Some(units[k].id);
        assert units[b].id == units[k].id;
      }
    }
  }

  /** With a non-negative delta a turn keeps every cooldown at most its maximum. */
  lemma StepKeepsCooldownBounded(root: real -> real, units: seq<UnitInstance>, delta: real, i: nat, seen: Seen)
    requires i < |units| && delta >= 0.0
    requires CooldownBounded(units)
    ensures CooldownBounded(UnitStep(root, units, delta, i, seen).units)
  {
    var r := UnitStep(root, units, delta, i, seen).units;
    StepEvolves(root, units, delta, i, seen);
    StepFiring(root, units, delta, i, seen);
    forall k | 0 <= k < |r| ensures r[k].currentCooldown <= r[k].maxCooldown {
      assert Evolves(units[k], r[k]);
      if k != i {
        assert SameControl(units[k], r[k]);
      }
    }
  }

  /** Lines 610-684 keep distinct ids, enemy-only targets and bounded cooldowns (for delta >= 0). */
  lemma {:induction false} CombatPassKeepsInvariants(root: real -> real, units: seq<UnitInstance>, delta: real, i: nat,
                                                     seen: Seen)
    requires i <= |units| && delta >= 0.0
    requires DistinctIds(units) && TargetsAreEnemies(units) && CooldownBounded(units)
    ensures var r := CombatPass(root, units, delta, i, seen).units;
            DistinctIds(r) && TargetsAreEnemies(r) && CooldownBounded(r)
    decreases |units| - i
  {
    if i < |units| {
      var step := UnitStep(root, units, delta, i, seen);
      StepEvolves(root, units, delta, i, seen);
      EvolvesKeepsDistinctIds(units, step.units);
      StepKeepsTargetsAreEnemies(root, units, delta, i, seen);
      StepKeepsCooldownBounded(root, units, delta, i, seen);
      CombatPassKeepsInvariants(root, step.units, delta, i + 1, step.seen);
    }
  }

  /** Death tracks hp, hp stays at most maxHp and living units stay catalogued under any combat change. */
  lemma EvolvesKeepsInvariants(units: seq<UnitInstance>, units': seq<UnitInstance>)
    requires |units'| == |units|
    requires forall k :: 0 <= k < |units| ==> Evolves(units[k], units'[k])
    ensures DeathConsistent(units) ==> DeathConsistent(units')
    ensures HpBounded(units) ==> HpBounded(units')
    ensures LivingCatalogued(units) ==> LivingCatalogued(units')
  {
    forall k | 0 <= k < |units| ensures units'[k].stats.maxHp == units[k].stats.maxHp {
      assert Base(units'[k].stats) == Base(units[k].stats);
    }
    if LivingCatalogued(units) {
      LivingCataloguedFrame(units, units');
    }
  }
}
