/**
 Concrete situations worked through the model: the catalog's derived costs, the damage floor, a budget
 running out, and the behaviours of the tick a reader might not expect.
 */
module Scenarios {
  import opened Types
  import opened Geometry
  import opened Roster
  import opened Combat
  import opened Movement
  import opened Targeting
  import opened Simulation
  import opened Match
  import opened Placement
  import Constants

  /** The catalog as the cost map leaves it: each raw entry with its derived cost. */
  lemma CatalogCosts()
    ensures Constants.UnitTemplates == [
              Constants.RawTemplates[0].(cost := 205), Constants.RawTemplates[1].(cost := 1262),
              Constants.RawTemplates[2].(cost := 415), Constants.RawTemplates[3].(cost := 657),
              Constants.RawTemplates[4].(cost := 240), Constants.RawTemplates[5].(cost := 290)]
  {
    var ts := Constants.UnitTemplates;
    forall i | 0 <= i < |ts| ensures ts[i] == Constants.RawTemplates[i].(cost := ts[i].cost) {
      assert ts[i].(cost := Constants.RawTemplates[i].cost) == Constants.RawTemplates[i];
    }
  }

  /**
   A heavily armoured target takes the floor damage (Trooper on Titan Mech); otherwise the target loses atk
   minus 5% of its def (Titan Mech on Trooper, Void Sorcerer on Titan Mech).
   */
  lemma DamageFloor()
    ensures Damage(60.0, 1500.0) == 10.0
    ensures Damage(150.0, 200.0) == 140.0
    ensures Damage(450.0, 1500.0) == 375.0
  {
  }

  /** Setup with the Titan Mech selected for Red. */
  function TitanSetup(): (m: MatchState)
    ensures SelectionResolvable(m) && m.phase == Setup && m.selectedTeam == Red
    ensures m.budgets.Of(Red) == Constants.InitialBudget
  {
    Initial().(selectedTemplateId := Some("heavy_tank"))
  }

  /** The selected template of a Titan Mech setup, whatever has been placed since. */
  lemma TitanSelected(m: MatchState)
    requires m.phase == Setup && m.selectedTemplateId == Some("heavy_tank")
    ensures SelectionResolvable(m)
    ensures SelectedTemplate(m) == Constants.RawTemplates[1].(cost := 1262)
  {
    CatalogCosts();
    Constants.GetTemplateFindsEntry(1);
  }

  /** Red can field three Titan Mechs (1262 each) out of 5000; the fourth click is refused, leaving 1214. */
  lemma TitanBudgetRunsOut()
    ensures var p := Vec(-5.0, 0.0);
            var m3 := Place(Place(Place(TitanSetup(), p, 1), p, 2), p, 3);
            && |m3.units| == 3
            && m3.budgets.Of(Red) == 1214
            && m3.budgets.Of(Blue) == Constants.InitialBudget
            && Place(m3, p, 4) == m3
  {
    var p := Vec(-5.0, 0.0);
    var m0 := TitanSetup();
    TitanSelected(m0);
    var m1 := Place(m0, p, 1);
    TitanSelected(m1);
    var m2 := Place(m1, p, 2);
    TitanSelected(m2);
    var m3 := Place(m2, p, 3);
    TitanSelected(m3);
    assert !Accepts(m3, p.x);
  }

  /** A click on the wrong half is refused even with budget to spare; the centre line is open to both teams. */
  lemma WrongHalfRefused()
    ensures Place(TitanSetup(), Vec(0.5, 0.0), 1) == TitanSetup()
    ensures |Place(TitanSetup(), Vec(0.0, 3.0), 1).units| == 1
  {
    TitanSelected(TitanSetup());
  }

  /** A ready unit with a target in range fires even in a frame of zero length. */
  lemma ZeroDeltaStillFires(root: real -> real, units: seq<UnitInstance>, i: nat)
    requires i < |units| && !units[i].isDead && units[i].currentCooldown <= 0.0
    requires TargetOf(root, units, i).Some? && InRange(root, units[i], units[TargetOf(root, units, i).value])
    ensures Fires(root, units, 0.0, i)
    ensures UnitStep(root, units, 0.0, i, Seen(false, false)).units[i].currentCooldown == units[i].maxCooldown
  {
    StepFiring(root, units, 0.0, i, Seen(false, false));
  }

  function Trooper(id: nat, team: Team, x: real): UnitInstance
  {
    UnitInstance(id, "foot_soldier", team, Vec(x, 0.0), Zero,
                 WithHp(Constants.RawTemplates[0].stats, 8000.0), None, 0.0, false, 1.0 / 1.2, 0.0)
  }

  /**
   Separation runs after the clamp, so it can push a unit out of the playable area: a trooper at x = 37.9,
   0.4 from an enemy trooper at 37.5, is pushed out to 38.1, past the boundary at 38.
   */
  lemma SeparationLeavesArena(root: real -> real)
    requires IsSqrt(root)
    ensures var units := [Trooper(1, Red, 37.9), Trooper(2, Blue, 37.5)];
            && LivingCatalogued(units)
            && MoveUnit(root, units, 0)[0].pos == Vec(38.1, 0.0)
            && !InArena(MoveUnit(root, units, 0)[0].pos)
  {
    var units := [Trooper(1, Red, 37.9), Trooper(2, Blue, 37.5)];
    CatalogCosts();
    Constants.GetTemplateFindsEntry(0);
    assert WidthOf("foot_soldier") == 0.8;
    var p := Integrate(units[0]);
    assert p == Vec(37.9, 0.0);
    assert SqDist(p, units[1].pos) == 0.4 * 0.4;
    RootOfSquare(root, 0.4);
    assert Push(root, p, units[1].pos, 0.8) == Vec(38.1, 0.0);
  }

  /** A Titan Mech at (x, 0): full hp, ready to fire, 0.5 attacks per second. */
  function Titan(id: nat, team: Team, x: real): UnitInstance
  {
    UnitInstance(id, "heavy_tank", team, Vec(x, 0.0), Zero,
                 WithHp(Constants.RawTemplates[1].stats, 50000.0), None, 0.0, false, 1.0 / 0.5, 0.0)
  }

  /** The footprint widths the catalog lists for the trooper and the Titan Mech. */
  lemma TrooperAndTitanWidths()
    ensures Constants.IsCatalogId("foot_soldier") && WidthOf("foot_soldier") == 0.8
    ensures Constants.IsCatalogId("heavy_tank") && WidthOf("heavy_tank") == 2.0
  {
    CatalogCosts();
    Constants.GetTemplateFindsEntry(0);
    Constants.GetTemplateFindsEntry(1);
    CatalogWidth("foot_soldier");
    CatalogWidth("heavy_tank");
  }

  /** The trooper and the Titan Mech keep a gap of 0.4 + 1.0 between them. */
  lemma TrooperTitanGap()
    ensures var units := [Trooper(1, Red, 0.0), Titan(2, Blue, 1.0)];
            LivingCatalogued(units) && Gap(units, 0, 1) == 1.4
  {
    TrooperAndTitanWidths();
  }

  /** Before separation the trooper stands where it started, 1.0 from the Titan Mech. */
  lemma TrooperTitanDistance(root: real -> real)
    requires IsSqrt(root)
    ensures Distance(root, Integrate(Trooper(1, Red, 0.0)), Titan(2, Blue, 1.0).pos) == 1.0
  {
    TrooperAtRest();
    UnitApart(root);
  }

  /** A trooper at rest at the origin stays there when it moves by its velocity. */
  lemma TrooperAtRest()
    ensures Integrate(Trooper(1, Red, 0.0)) == Vec(0.0, 0.0)
  {
  }

  /** Two points 1.0 apart along the x axis. */
  lemma UnitApart(root: real -> real)
    requires IsSqrt(root)
    ensures Distance(root, Vec(0.0, 0.0), Vec(1.0, 0.0)) == 1.0
  {
    assert SqDist(Vec(0.0, 0.0), Vec(1.0, 0.0)) == 1.0 * 1.0;
    RootOfSquare(root, 1.0);
  }

  /**
   The gap is half of each unit's own width: a trooper (0.8 wide) standing 1.0 from a Titan Mech (2.0 wide)
   keeps 0.4 + 1.0 = 1.4 from it, so it is pushed back to 1.2 from the Titan, to x = -0.2.
   */
  lemma UnequalWidthsSeparate(root: real -> real)
    requires IsSqrt(root)
    ensures var units := [Trooper(1, Red, 0.0), Titan(2, Blue, 1.0)];
            && LivingCatalogued(units)
            && Gap(units, 0, 1) == 1.4
            && Distance(root, MoveUnit(root, units, 0)[0].pos, units[1].pos) == 1.2
  {
    var units := [Trooper(1, Red, 0.0), Titan(2, Blue, 1.0)];
    TrooperTitanGap();
    TrooperTitanDistance(root);
    PairSeparation(root, units, 0, 1, Integrate(units[0]), 1.4);
  }

  /** The same pair: the trooper's move ends at x = -0.2, 0.2 further from the Titan than it started. */
  lemma UnequalWidthsPosition(root: real -> real)
    requires IsSqrt(root)
    ensures var units := [Trooper(1, Red, 0.0), Titan(2, Blue, 1.0)];
            && LivingCatalogued(units)
            && MoveUnit(root, units, 0)[0].pos == Vec(-0.2, 0.0)
  {
    var units := [Trooper(1, Red, 0.0), Titan(2, Blue, 1.0)];
    TrooperTitanGap();
    TrooperAtRest();
    MoveUnitSeparates(root, units, 0, Vec(0.0, 0.0), 0.4);
    SeparateSingle(root, units, 0, 1, Vec(0.0, 0.0), 0.4, 0);
    PushByIsPush(root, Vec(0.0, 0.0), 0.4, units[1]);
    PushedBackFromTitan(root);
  }

  /** The push itself: 1.0 apart with a gap of 1.4, the overlap is 0.4 and the trooper moves back by 0.2. */
  lemma PushedBackFromTitan(root: real -> real)
    requires IsSqrt(root)
    ensures Push(root, Vec(0.0, 0.0), Vec(1.0, 0.0), 1.4) == Vec(-0.2, 0.0)
  {
    UnitApart(root);
  }

  /** Two troopers at rest on the x axis, the first at the origin and the second 0.5 from it. */
  function Huddle(): seq<UnitInstance>
  {
    [Trooper(1, Red, 0.0), Trooper(2, Red, 0.5)]
  }

  /** Both troopers are alive and catalogued, 0.8 wide each. */
  lemma HuddleCatalogued()
    ensures LivingCatalogued(Huddle()) && WidthOf("foot_soldier") == 0.8
  {
    TrooperAndTitanWidths();
  }

  /** Both troopers are at rest, so moving by their velocities leaves them where they stand. */
  lemma HuddleAtRest()
    ensures Integrate(Huddle()[0]) == Vec(0.0, 0.0) && Integrate(Huddle()[1]) == Vec(0.5, 0.0)
  {
  }

  /** 0.5 apart with a gap of 0.8: the first trooper is pushed back by 0.15. */
  lemma FirstPush(root: real -> real)
    requires IsSqrt(root)
    ensures Push(root, Vec(0.0, 0.0), Vec(0.5, 0.0), 0.8) == Vec(-0.15, 0.0)
  {
    assert SqDist(Vec(0.0, 0.0), Vec(0.5, 0.0)) == 0.5 * 0.5;
    RootOfSquare(root, 0.5);
  }

  /** 0.65 apart with a gap of 0.8: the second trooper is pushed on by 0.075. */
  lemma SecondPush(root: real -> real)
    requires IsSqrt(root)
    ensures Push(root, Vec(0.5, 0.0), Vec(-0.15, 0.0), 0.8) == Vec(0.575, 0.0)
  {
    assert SqDist(Vec(0.5, 0.0), Vec(-0.15, 0.0)) == 0.65 * 0.65;
    RootOfSquare(root, 0.65);
  }

  /** The first trooper's move: pushed from the origin to x = -0.15. */
  lemma HuddleFirstMove(root: real -> real)
    requires IsSqrt(root)
    ensures LivingCatalogued(Huddle()) && MoveUnit(root, Huddle(), 0)[0].pos == Vec(-0.15, 0.0)
  {
    var units := Huddle();
    HuddleCatalogued();
    HuddleAtRest();
    MoveUnitSeparates(root, units, 0, Vec(0.0, 0.0), 0.4);
    SeparateSingle(root, units, 0, 1, Vec(0.0, 0.0), 0.4, 0);
    PushByIsPush(root, Vec(0.0, 0.0), 0.4, units[1]);
    FirstPush(root);
  }

  /** The second trooper's move, in the roster the first move left: 0.65 from its neighbour, pushed to 0.575. */
  lemma HuddleSecondMove(root: real -> real)
    requires IsSqrt(root)
    ensures LivingCatalogued(Huddle())
    ensures var moved := MoveUnit(root, Huddle(), 0);
            LivingCatalogued(moved) && MoveUnit(root, moved, 1)[1].pos == Vec(0.575, 0.0)
  {
    var units := Huddle();
    HuddleFirstMove(root);
    HuddleCatalogued();
    var moved := MoveUnit(root, units, 0);
    assert moved[1] == units[1];
    HuddleAtRest();
    MoveUnitSeparates(root, moved, 1, Vec(0.5, 0.0), 0.4);
    SeparateSingle(root, moved, 1, 0, Vec(0.5, 0.0), 0.4, 0);
    PushByIsPush(root, Vec(0.5, 0.0), 0.4, moved[0]);
    SecondPush(root);
  }

  /**
   The moves happen one after another: the first trooper ends at x = -0.15, and the second, pushed away from
   where the first now stands (0.65 away, not 0.5), ends at x = 0.575.
   */
  lemma SequentialMoves(root: real -> real)
    requires IsSqrt(root)
    ensures LivingCatalogued(Huddle())
    ensures MovePass(root, Huddle(), 0)[0].pos == Vec(-0.15, 0.0)
    ensures MovePass(root, Huddle(), 0)[1].pos == Vec(0.575, 0.0)
  {
    var units := Huddle();
    HuddleSecondMove(root);
    HuddleFirstMove(root);
    MovedStep(root, units, 0, 0);
    MovedStep(root, units, 0, 1);
  }

  /** Had both moved against the roster as the pass found it, the second trooper would have ended at x = 0.65. */
  lemma SimultaneousWouldDiffer(root: real -> real)
    requires IsSqrt(root)
    ensures LivingCatalogued(Huddle()) && MoveUnit(root, Huddle(), 1)[1].pos == Vec(0.65, 0.0)
  {
    HuddleCatalogued();
    HuddleAtRest();
    MoveUnitSeparates(root, Huddle(), 1, Vec(0.5, 0.0), 0.4);
    UnmovedSeparation(root);
    UnmovedPush(root);
  }

  /** Against the roster as the pass found it, the second trooper's only push is from the first at the origin. */
  lemma UnmovedSeparation(root: real -> real)
    ensures LivingCatalogued(Huddle())
    ensures Separate(root, Huddle(), 1, Vec(0.5, 0.0), 0.4, 0) == Push(root, Vec(0.5, 0.0), Vec(0.0, 0.0), 0.8)
  {
    var units := Huddle();
    HuddleCatalogued();
    SeparateSingle(root, units, 1, 0, Vec(0.5, 0.0), 0.4, 0);
    PushByIsPush(root, Vec(0.5, 0.0), 0.4, units[0]);
    assert units[0].pos == Vec(0.0, 0.0) && 0.4 + WidthOf(units[0].templateId) / 2.0 == 0.8;
  }

  /** 0.5 apart with a gap of 0.8, pushed away from the origin: the second trooper would move on by 0.15. */
  lemma UnmovedPush(root: real -> real)
    requires IsSqrt(root)
    ensures Push(root, Vec(0.5, 0.0), Vec(0.0, 0.0), 0.8) == Vec(0.65, 0.0)
  {
    assert SqDist(Vec(0.5, 0.0), Vec(0.0, 0.0)) == 0.5 * 0.5;
    RootOfSquare(root, 0.5);
  }

  /** A Blue trooper down to 5 hp at x = 1 and a full Red trooper at x = -1, 2 apart, both ready to fire. */
  function Duel(): seq<UnitInstance>
  {
    [Trooper(1, Blue, 1.0).(stats := WithHp(Constants.RawTemplates[0].stats, 5.0)), Trooper(2, Red, -1.0)]
  }

  /** Blue's turn in the duel: it takes Red as its target and shoots it for 50. */
  lemma DuelBlueTurn(root: real -> real)
    requires IsSqrt(root)
    ensures var d := Duel();
            var s0 := UnitStep(root, d, 1.0, 0, Seen(false, false));
            && s0.seen == Seen(false, true)
            && s0.units == [d[0].(currentCooldown := d[0].maxCooldown, targetId := Some(2)),
                            d[1].(stats := d[1].stats.(hp := 7950.0))]
  {
    var d := Duel();
    RootOfSquare(root, 2.0);
    assert SqDist(d[0].pos, d[1].pos) == 2.0 * 2.0;
    assert !HoldsLiveTarget(d, 0);
    assert NearestEnemy(root, d, 0) == Some(1);
    FindByIdOfUnit(d, 1);
  }

  /** Red's turn in the duel: it takes Blue as its target and kills it; both flags are now up. */
  lemma DuelRedTurn(root: real -> real)
    requires IsSqrt(root)
    ensures var s0 := UnitStep(root, Duel(), 1.0, 0, Seen(false, false));
            var s1 := UnitStep(root, s0.units, 1.0, 1, s0.seen);
            s1.units[0].isDead && s1.seen == Seen(true, true)
  {
    DuelBlueTurn(root);
    var d := Duel();
    var s0 := UnitStep(root, d, 1.0, 0, Seen(false, false));
    var u := s0.units;
    RootOfSquare(root, 2.0);
    assert SqDist(u[1].pos, u[0].pos) == 2.0 * 2.0;
    assert !HoldsLiveTarget(u, 1);
    assert NearestEnemy(root, u, 1) == Some(0);
    FindByIdOfUnit(u, 0);
  }

  /** The combat pass of the duel: Blue ends it dead, yet both flags are up. */
  lemma DuelFight(root: real -> real)
    requires IsSqrt(root)
    ensures Fight(root, Duel(), 1.0).units[0].isDead
    ensures Fight(root, Duel(), 1.0).seen == Seen(true, true)
  {
    assert ResetVelocities(Duel()) == Duel();
    DuelRedTurn(root);
    var s0 := UnitStep(root, Duel(), 1.0, 0, Seen(false, false));
    var s1 := UnitStep(root, s0.units, 1.0, 1, s0.seen);
    assert Fight(root, Duel(), 1.0) == CombatPass(root, s1.units, 1.0, 2, s1.seen);
  }

  /**
   Elimination can go unnoticed for a frame: Blue takes its turn first (raising its flag), then Red kills
   it, so the frame ends with no living Blue unit but the battle still on.
   */
  lemma EliminationNoticedLate(root: real -> real)
    requires IsSqrt(root)
    ensures var m := Initial().(phase := Battle, units := Duel());
            && LivingCatalogued(m.units)
            && Tick(root, m, 1.0).phase == Battle
            && Tick(root, m, 1.0).units[0].isDead
  {
    DuelFight(root);
    assert Verdict(Seen(true, true)).None?;
  }

  /** The duel with the roster order swapped: the full Red trooper first, then the Blue one at 5 hp. */
  function RedFirst(): seq<UnitInstance>
  {
    [Duel()[1], Duel()[0]]
  }

  /** Red's turn comes first: it takes Blue as its target and kills it before Blue can act. */
  lemma RedFirstTurn(root: real -> real)
    requires IsSqrt(root)
    ensures var s0 := UnitStep(root, RedFirst(), 1.0, 0, Seen(false, false));
            s0.units[1].isDead && s0.seen == Seen(true, false)
  {
    var d := RedFirst();
    RootOfSquare(root, 2.0);
    assert SqDist(d[0].pos, d[1].pos) == 2.0 * 2.0;
    assert !HoldsLiveTarget(d, 0);
    assert NearestEnemy(root, d, 0) == Some(1);
    FindByIdOfUnit(d, 1);
  }

  /** The combat pass with Red first: Blue ends it dead and only Red's flag is up. */
  lemma RedFirstFight(root: real -> real)
    requires IsSqrt(root)
    ensures Fight(root, RedFirst(), 1.0).seen == Seen(true, false)
  {
    assert ResetVelocities(RedFirst()) == RedFirst();
    RedFirstTurn(root);
    var s0 := UnitStep(root, RedFirst(), 1.0, 0, Seen(false, false));
    var s1 := UnitStep(root, s0.units, 1.0, 1, s0.seen);
    assert s1 == s0;
    assert Fight(root, RedFirst(), 1.0) == CombatPass(root, s1.units, 1.0, 2, s1.seen);
  }

  /**
   With Red first, the elimination is noticed in the same frame: Blue is dead when its turn comes, so its
   flag stays down and Red wins at once.
   */
  lemma EliminationNoticedAtOnce(root: real -> real)
    requires IsSqrt(root)
    ensures var m := Initial().(phase := Battle, units := RedFirst());
            && LivingCatalogued(m.units)
            && Tick(root, m, 1.0).phase == GameOver
            && Tick(root, m, 1.0).winner == Some(Red)
  {
    RedFirstFight(root);
    assert Verdict(Seen(true, false)) == Some(Red);
  }
}
