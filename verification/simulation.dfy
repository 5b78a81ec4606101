/**
 One frame of the battle (BattleScene.tsx lines 600-732): reset velocities, the combat pass, the movement
 pass, then the win rule. Outside the battle phase a frame changes nothing.
 */
module Simulation {
  import opened Types
  import opened Geometry
  import opened Roster
  import opened Targeting
  import opened Combat
  import opened Movement
  import opened Match

  /** Line 604: the frame starts from copies of the units with zero velocity. */
  function ResetVelocities(units: seq<UnitInstance>): (r: seq<UnitInstance>)
    ensures |r| == |units|
    ensures forall k :: 0 <= k < |units| ==> r[k] == units[k].(vel := Zero)
  {
    seq(|units|, k requires 0 <= k < |units| => units[k].(vel := Zero))
  }

  /** Lines 718-724: a team wins when it was seen alive and the other was not; otherwise no verdict. */
  function Verdict(seen: Seen): (w: Option<Team>)
    ensures w == Some(Blue) <==> !seen.Of(Red) && seen.Of(Blue)
    ensures w == Some(Red) <==> !seen.Of(Blue) && seen.Of(Red)
    ensures w.None? <==> seen.Of(Red) == seen.Of(Blue)
  {
    if !seen.red && seen.blue then Some(Blue)
    else if !seen.blue && seen.red then Some(Red)
    else None
  }

  /** The combat pass over the velocity-reset roster, from the first unit with no flag set. */
  function Fight(root: real -> real, units: seq<UnitInstance>, delta: real): (r: Pass)
    ensures |r.units| == |units|
    ensures forall k :: 0 <= k < |units| ==> Evolves(units[k].(vel := Zero), r.units[k])
  {
    CombatPass(root, ResetVelocities(units), delta, 0, Seen(false, false))
  }

  /** The roster after both passes of a battle frame. */
  function Step(root: real -> real, units: seq<UnitInstance>, delta: real): (r: seq<UnitInstance>)
    requires LivingCatalogued(units)
    ensures |r| == |units|
    ensures forall k :: 0 <= k < |units| ==> r[k] == Fight(root, units, delta).units[k].(pos := r[k].pos)
  {
    var c := Fight(root, units, delta);
    LivingCataloguedFrame(units, c.units);
    MovePass(root, c.units, 0)
  }

  /** The combat pass over the velocity-reset roster as it stands when unit k's turn begins. */
  function AtTurn(root: real -> real, units: seq<UnitInstance>, delta: real, k: nat): (p: Pass)
    requires k < |units|
    ensures |p.units| == |units|
    ensures forall j :: 0 <= j < |units| ==> p.units[j].pos == units[j].pos && p.units[j].stats.moveSpeed == units[j].stats.moveSpeed
    ensures p.units[k].vel == Zero && p.units[k].currentCooldown == units[k].currentCooldown
    ensures p.units[k].targetId == units[k].targetId && p.units[k].maxCooldown == units[k].maxCooldown
  {
    var z := ResetVelocities(units);
    ControlKeptBefore(root, z, delta, 0, Seen(false, false), k);
    var p := Before(root, z, delta, 0, Seen(false, false), k);
    assert forall j :: 0 <= j < |units| ==> Base(p.units[j].stats) == Base(z[j].stats);
    p
  }

  /** Unit k leaves the combat pass with the velocity, cooldown and target its own turn gave it. */
  lemma FrameControl(root: real -> real, units: seq<UnitInstance>, delta: real, k: nat)
    requires k < |units|
    ensures var b := AtTurn(root, units, delta, k);
            SameControl(UnitStep(root, b.units, delta, k, b.seen).units[k], Fight(root, units, delta).units[k])
  {
    var z := ResetVelocities(units);
    assert AtTurn(root, units, delta, k) == Before(root, z, delta, 0, Seen(false, false), k);
    TurnDecidesControl(root, z, delta, 0, Seen(false, false), k);
  }

  /**
   Lines 604 and 672-681: a unit leaves the combat pass, and enters the movement pass, with the velocity its
   own turn set (see `TurnVelocityIsStep`), which is zero unless it approached its target at that turn.
   */
  lemma FrameVelocity(root: real -> real, units: seq<UnitInstance>, delta: real, k: nat)
    requires k < |units|
    ensures Fight(root, units, delta).units[k].vel == TurnVelocity(root, AtTurn(root, units, delta, k).units, delta, k)
    ensures !Approaches(root, AtTurn(root, units, delta, k).units, k) ==> Fight(root, units, delta).units[k].vel == Zero
  {
    FrameControl(root, units, delta, k);
    StepMovement(root, AtTurn(root, units, delta, k).units, delta, k, AtTurn(root, units, delta, k).seen);
  }

  /**
   Lines 615-651: a unit leaves the combat pass with the cooldown and target its own turn gave it: reset to
   the maximum when it fired, otherwise ticked down by delta; a unit dead by its turn keeps both.
   */
  lemma FrameCooldown(root: real -> real, units: seq<UnitInstance>, delta: real, k: nat)
    requires k < |units|
    ensures var b := AtTurn(root, units, delta, k).units;
            var u := Fight(root, units, delta).units[k];
            && (Fires(root, b, delta, k) ==> u.currentCooldown == units[k].maxCooldown)
            && (!b[k].isDead && !Fires(root, b, delta, k) ==>
                  u.currentCooldown == CooldownAfter(units[k].currentCooldown, delta))
            && (!b[k].isDead ==> u.targetId == Acquire(root, b, k).targetId)
            && (b[k].isDead ==> u.currentCooldown == units[k].currentCooldown && u.targetId == units[k].targetId)
  {
    var z := ResetVelocities(units);
    var p := AtTurn(root, units, delta, k);
    StepFiring(root, p.units, delta, k, p.seen);
    TurnDecidesControl(root, z, delta, 0, Seen(false, false), k);
  }

  /**
   The roster as it stands when unit k's move begins: the combat pass is done and the units before k have
   moved. Unit k itself is still as the combat pass left it.
   */
  function MoveStart(root: real -> real, units: seq<UnitInstance>, delta: real, k: nat): (r: seq<UnitInstance>)
    requires LivingCatalogued(units) && k < |units|
    ensures |r| == |units| && LivingCatalogued(r)
    ensures k == 0 ==> r == Fight(root, units, delta).units
    ensures r[k] == Fight(root, units, delta).units[k]
  {
    var c := Fight(root, units, delta);
    LivingCataloguedFrame(units, c.units);
    Moved(root, c.units, 0, k)
  }

  /** The roster unit k + 1 moves in is the one unit k moved in, with unit k's move applied. */
  lemma MoveStartStep(root: real -> real, units: seq<UnitInstance>, delta: real, k: nat)
    requires LivingCatalogued(units) && k + 1 < |units|
    ensures MoveStart(root, units, delta, k + 1) == MoveUnit(root, MoveStart(root, units, delta, k), k)
  {
    var c := Fight(root, units, delta);
    LivingCataloguedFrame(units, c.units);
    MovedStep(root, c.units, 0, k);
  }

  /** Lines 687-715: unit k ends the frame where its own move from `MoveStart` puts it. */
  lemma FrameMove(root: real -> real, units: seq<UnitInstance>, delta: real, k: nat)
    requires LivingCatalogued(units) && k < |units|
    ensures Step(root, units, delta)[k] == MoveUnit(root, MoveStart(root, units, delta, k), k)[k]
  {
    var c := Fight(root, units, delta);
    LivingCataloguedFrame(units, c.units);
    MovePassAt(root, c.units, 0, k);
  }

  /**
   Lines 687-715: a unit alive after the combat pass that, once moved by its velocity and clamped, overlaps no
   living neighbour (as they stand when its move begins) ends the frame exactly there.
   */
  lemma FrameClearPath(root: real -> real, units: seq<UnitInstance>, delta: real, k: nat)
    requires LivingCatalogued(units) && k < |units|
    requires !Fight(root, units, delta).units[k].isDead
    requires var s := MoveStart(root, units, delta, k);
             forall j :: 0 <= j < |s| && j != k && !s[j].isDead ==>
               !Overlaps(root, Integrate(s[k]), s[j].pos, Gap(s, k, j))
    ensures Step(root, units, delta)[k].pos == Integrate(Fight(root, units, delta).units[k])
    ensures InArena(Step(root, units, delta)[k].pos)
  {
    FrameMove(root, units, delta, k);
    ClearUnitStaysInArena(root, MoveStart(root, units, delta, k), k);
  }

  /**
   Lines 600-732: one frame. The roster must have every living unit's template in the catalog, since the
   frame reads each one's width (and its colour when it fires).
   */
  function Tick(root: real -> real, m: MatchState, delta: real): (r: MatchState)
    requires m.phase == Battle ==> LivingCatalogued(m.units)
    ensures m.phase != Battle ==> r == m
    ensures r.selectedTemplateId == m.selectedTemplateId && r.selectedTeam == m.selectedTeam
    ensures r.budgets == m.budgets
    ensures |r.units| == |m.units|
    ensures m.phase == Battle ==> r.phase == Battle || r.phase == GameOver
    ensures m.phase == Battle && r.phase == Battle ==> r.winner == m.winner
    ensures m.phase == Battle && r.phase == GameOver ==> r.winner.Some?
    ensures m.phase == Battle ==> (r.phase == GameOver <==> Verdict(Fight(root, m.units, delta).seen).Some?)
    ensures m.phase == Battle && r.phase == GameOver ==> r.winner == Verdict(Fight(root, m.units, delta).seen)
  {
    if m.phase != Battle then m
    else
      var units := Step(root, m.units, delta);
      match Verdict(Fight(root, m.units, delta).seen)
      case Some(w) => m.(units := units, phase := GameOver, winner := Some(w))
      case None => m.(units := units)
  }

  /**
   The frame's unobstructed move, seen from the match: in a battle tick, a unit alive after combat that no
   living neighbour blocks ends the tick at its position moved by its velocity and clamped to the arena.
   */
  lemma TickClearPath(root: real -> real, m: MatchState, delta: real, k: nat)
    requires m.phase == Battle && LivingCatalogued(m.units) && k < |m.units|
    requires !Fight(root, m.units, delta).units[k].isDead
    requires var s := MoveStart(root, m.units, delta, k);
             forall j :: 0 <= j < |s| && j != k && !s[j].isDead ==>
               !Overlaps(root, Integrate(s[k]), s[j].pos, Gap(s, k, j))
    ensures Tick(root, m, delta).units[k].pos == Integrate(Fight(root, m.units, delta).units[k])
  {
    FrameClearPath(root, m.units, delta, k);
    assert Tick(root, m, delta).units == Step(root, m.units, delta);
  }

  /** Some unit of team t is alive when its own turn of the frame's combat pass begins. */
  ghost predicate TakesTurn(root: real -> real, units: seq<UnitInstance>, delta: real, t: Team)
  {
    exists k :: 0 <= k < |units| && units[k].team == t && !AtTurn(root, units, delta, k).units[k].isDead
  }

  /** Lines 611-613 over a frame: a team is seen exactly when one of its units is alive at its own turn. */
  lemma FrameSeen(root: real -> real, units: seq<UnitInstance>, delta: real, t: Team)
    ensures Fight(root, units, delta).seen.Of(t) <==> TakesTurn(root, units, delta, t)
  {
    var z := ResetVelocities(units);
    var s0 := Seen(false, false);
    PassSeenExactly(root, z, delta, 0, s0, t);
    if AliveAtTurn(root, z, delta, 0, s0, t) {
      var k :| 0 <= k < |z| && z[k].team == t && !Before(root, z, delta, 0, s0, k).units[k].isDead;
      assert AtTurn(root, units, delta, k) == Before(root, z, delta, 0, s0, k);
    }
    if TakesTurn(root, units, delta, t) {
      var k :| 0 <= k < |units| && units[k].team == t && !AtTurn(root, units, delta, k).units[k].isDead;
      assert AtTurn(root, units, delta, k) == Before(root, z, delta, 0, s0, k);
    }
  }

  /**
   Lines 718-724, the win rule: a battle frame ends the game with winner w exactly when some unit of w, and
   no unit of the other team, is alive at its own turn; otherwise the battle goes on.
   */
  lemma WinRule(root: real -> real, m: MatchState, delta: real)
    requires m.phase == Battle && LivingCatalogued(m.units)
    ensures var r := Tick(root, m, delta);
            r.phase == GameOver && r.winner == Some(Red) <==>
              TakesTurn(root, m.units, delta, Red) && !TakesTurn(root, m.units, delta, Blue)
    ensures var r := Tick(root, m, delta);
            r.phase == GameOver && r.winner == Some(Blue) <==>
              TakesTurn(root, m.units, delta, Blue) && !TakesTurn(root, m.units, delta, Red)
    ensures Tick(root, m, delta).phase == Battle <==>
              (TakesTurn(root, m.units, delta, Red) <==> TakesTurn(root, m.units, delta, Blue))
  {
    FrameSeen(root, m.units, delta, Red);
    FrameSeen(root, m.units, delta, Blue);
  }

  /** A frame keeps every unit's identity, team, template, maximum cooldown and base stats. */
  lemma TickKeepsIdentity(root: real -> real, m: MatchState, delta: real, k: nat)
    requires m.phase == Battle ==> LivingCatalogued(m.units)
    requires k < |m.units|
    ensures var u, u' := m.units[k], Tick(root, m, delta).units[k];
            && u'.id == u.id && u'.team == u.team && u'.templateId == u.templateId
            && u'.maxCooldown == u.maxCooldown && Base(u'.stats) == Base(u.stats)
            && u'.stats.hp <= u.stats.hp && (u.isDead ==> u'.isDead)
  {
    if m.phase == Battle {
      assert Evolves(m.units[k].(vel := Zero), Fight(root, m.units, delta).units[k]);
    }
  }

  /**
   Dead units are inert: with distinct ids, a unit dead when the frame starts leaves it with its velocity
   zeroed and nothing else changed.
   */
  lemma TickKeepsDeadInert(root: real -> real, m: MatchState, delta: real, k: nat)
    requires m.phase == Battle && LivingCatalogued(m.units) && DistinctIds(m.units)
    requires k < |m.units| && m.units[k].isDead
    ensures Tick(root, m, delta).units[k] == m.units[k].(vel := Zero)
  {
    var units0 := ResetVelocities(m.units);
    assert DistinctIds(units0);
    CombatPassSkipsDead(root, units0, delta, 0, Seen(false, false));
    var c := Fight(root, m.units, delta);
    assert c.units[k] == units0[k];
    LivingCataloguedFrame(m.units, c.units);
    assert MovePass(root, c.units, 0)[k] == c.units[k];
  }

  /** The win rule, first half: a frame that ends the game leaves no unit of the losing team alive. */
  lemma TickWinnerSurvivesAlone(root: real -> real, m: MatchState, delta: real, w: Team)
    requires m.phase == Battle && LivingCatalogued(m.units)
    requires Tick(root, m, delta).phase == GameOver && Tick(root, m, delta).winner == Some(w)
    ensures forall k :: 0 <= k < |m.units| && m.units[k].team != w ==> Tick(root, m, delta).units[k].isDead
  {
    var c := Fight(root, m.units, delta);
    CombatPassFlags(root, ResetVelocities(m.units), delta, 0, Seen(false, false));
    var r := Tick(root, m, delta);
    assert Verdict(c.seen) == Some(w);
    forall k | 0 <= k < |m.units| && m.units[k].team != w ensures r.units[k].isDead {
      assert !c.seen.Of(m.units[k].team) by {
        if m.units[k].team == Red { assert w == Blue; } else { assert w == Red; }
      }
      assert r.units[k].isDead == c.units[k].isDead;
    }
  }

  /** The win rule, second half: the winner had a living unit when the frame started. */
  lemma TickWinnerWasAlive(root: real -> real, m: MatchState, delta: real, w: Team)
    requires m.phase == Battle && LivingCatalogued(m.units)
    requires Tick(root, m, delta).phase == GameOver && Tick(root, m, delta).winner == Some(w)
    ensures exists k :: 0 <= k < |m.units| && m.units[k].team == w && !m.units[k].isDead
  {
    var units0 := ResetVelocities(m.units);
    var c := Fight(root, m.units, delta);
    CombatPassFlags(root, units0, delta, 0, Seen(false, false));
    assert Verdict(c.seen) == Some(w);
    assert c.seen.Of(w);
    assert !NoLivingFrom(units0, 0, w);
    var k :| 0 <= k < |units0| && units0[k].team == w && !units0[k].isDead;
    assert m.units[k].team == w && !m.units[k].isDead;
  }

  /**
   Once a team has no living unit, the next frame ends the game in favour of the other team, provided that
   team still has a living unit: the first living unit in roster order is on that team, and nothing has
   acted before its turn.
   */
  lemma NextTickDetectsElimination(root: real -> real, m: MatchState, delta: real, l: Team, k: nat)
    requires m.phase == Battle && LivingCatalogued(m.units)
    requires forall j :: 0 <= j < |m.units| && m.units[j].team == l ==> m.units[j].isDead
    requires k < |m.units| && !m.units[k].isDead
    ensures Tick(root, m, delta).phase == GameOver
    ensures Tick(root, m, delta).winner == Some(m.units[k].team)
  {
    var z := ResetVelocities(m.units);
    var w := m.units[k].team;
    var c := Fight(root, m.units, delta);
    assert forall j :: 0 <= j < |z| && z[j].team != w ==> z[j].isDead;
    FirstLivingTakesTurn(root, z, delta, 0, Seen(false, false), k);
    PassSeenExactly(root, z, delta, 0, Seen(false, false), w);
    assert NoLivingFrom(z, 0, l);
    PassKeepsUnseen(root, z, delta, 0, Seen(false, false), l);
    assert c.seen.Of(w) && !c.seen.Of(l);
    assert Verdict(c.seen) == Some(w) by {
      if w == Red { assert l == Blue; } else { assert l == Red; }
    }
  }

  /**
   A frame with a non-negative delta keeps the roster well formed: distinct ids, enemy-only targets, death
   exactly at hp <= 0, cooldowns and hp within their maxima, living units catalogued.
   */
  lemma TickPreservesWellFormed(root: real -> real, m: MatchState, delta: real)
    requires delta >= 0.0 && WellFormed(m.units)
    ensures WellFormed(Tick(root, m, delta).units)
  {
    if m.phase == Battle {
      var units0 := ResetVelocities(m.units);
      MotionKeepsWellFormed(m.units, units0);
      var c := Fight(root, m.units, delta);
      CombatPassKeepsInvariants(root, units0, delta, 0, Seen(false, false));
      EvolvesKeepsInvariants(units0, c.units);
      MotionKeepsWellFormed(c.units, Tick(root, m, delta).units);
    }
  }
}
