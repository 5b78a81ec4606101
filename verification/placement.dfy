/**
 Placement (BattleScene.tsx lines 734-770): a click on the ground during setup places a fresh unit of the
 selected template for the selected team, if the team can afford it and the point is on its own half.
 Ids come from a random string in the game; here the caller supplies a fresh natural.
 */
module Placement {
  import opened Types
  import opened Roster
  import opened Match
  import Simulation
  import Constants

  /** `!selectedTemplateId` is false: a template is selected and its id is not the empty string. */
  predicate Selected(id: Option<string>)
  {
    id.Some? && id.value != ""
  }

  /** What the handler needs to look the selection up: a selected id during setup is a catalog id. */
  predicate SelectionResolvable(m: MatchState)
  {
    m.phase == Setup && Selected(m.selectedTemplateId) ==> Constants.IsCatalogId(m.selectedTemplateId.value)
  }

  /** Lines 745-752: Red is refused right of the centre line, Blue left of it; the line itself is open to both. */
  predicate OnOwnHalf(team: Team, x: real)
  {
    !(team == Red && x > 0.0) && !(team == Blue && x < 0.0)
  }

  /** The selected template, for a state whose selection resolves. */
  function SelectedTemplate(m: MatchState): (t: UnitTemplate)
    requires m.phase == Setup && Selected(m.selectedTemplateId) && Constants.IsCatalogId(m.selectedTemplateId.value)
    ensures t in Constants.UnitTemplates && t.id == m.selectedTemplateId.value
    ensures t.stats.attackSpeed > 0.0 && t.stats.maxHp > 0.0
    ensures 50 <= t.cost <= 3000
  {
    Constants.LookedUpTemplateWellFormed(m.selectedTemplateId.value);
    Constants.GetTemplate(m.selectedTemplateId.value).value
  }

  /** The click is accepted: setup phase, a selection, enough budget, and the team's own half. */
  predicate Accepts(m: MatchState, x: real)
    requires SelectionResolvable(m)
  {
    && m.phase == Setup
    && Selected(m.selectedTemplateId)
    && m.budgets.Of(m.selectedTeam) >= SelectedTemplate(m).cost
    && OnOwnHalf(m.selectedTeam, x)
  }

  /** Lines 754-766: a fresh, full-health, idle unit of template t. */
  function NewUnit(t: UnitTemplate, team: Team, point: Vec, id: nat): (u: UnitInstance)
    requires t.stats.attackSpeed > 0.0
    ensures u.id == id && u.templateId == t.id && u.team == team && u.pos == point && u.vel == Zero
    ensures u.stats.hp == t.stats.maxHp && Base(u.stats) == t.stats
    ensures u.targetId == None && !u.isDead && u.lastAttackTime == 0.0
    ensures u.currentCooldown == 0.0 < u.maxCooldown && u.maxCooldown * t.stats.attackSpeed == 1.0
  {
    UnitInstance(id, t.id, team, point, Zero, WithHp(t.stats, t.stats.maxHp), None, 0.0, false,
                 1.0 / t.stats.attackSpeed, 0.0)
  }

  /** Lines 734-770: place a unit at point with the fresh id, or change nothing. */
  function Place(m: MatchState, point: Vec, id: nat): (r: MatchState)
    requires SelectionResolvable(m)
    ensures !Accepts(m, point.x) ==> r == m
    ensures Accepts(m, point.x) ==>
              && r.units == m.units + [NewUnit(SelectedTemplate(m), m.selectedTeam, point, id)]
              && r.budgets.Of(m.selectedTeam) == m.budgets.Of(m.selectedTeam) - SelectedTemplate(m).cost
              && r == m.(units := r.units, budgets := r.budgets)
    ensures forall t: Team :: t != m.selectedTeam ==> r.budgets.Of(t) == m.budgets.Of(t)
    ensures forall t: Team :: m.budgets.Of(t) >= 0 ==> r.budgets.Of(t) >= 0
  {
    if m.phase != Setup || !Selected(m.selectedTemplateId) then m
    else
      var t := SelectedTemplate(m);
      if m.budgets.Of(m.selectedTeam) < t.cost then m
      else if !OnOwnHalf(m.selectedTeam, point.x) then m
      else DecreaseBudget(m.(units := m.units + [NewUnit(t, m.selectedTeam, point, id)]), t.cost)
  }

  /** A placement with a fresh id (no unit carries or targets it) keeps the roster well formed. */
  lemma PlaceKeepsWellFormed(m: MatchState, point: Vec, id: nat)
    requires SelectionResolvable(m) && WellFormed(m.units)
    requires forall k :: 0 <= k < |m.units| ==> m.units[k].id != id && m.units[k].targetId != Some(id)
    ensures WellFormed(Place(m, point, id).units)
  {
    if Accepts(m, point.x) {
      var t := SelectedTemplate(m);
      var u := NewUnit(t, m.selectedTeam, point, id);
      AppendKeepsWellFormed(m.units, u);
    }
  }

  /** The placement cost of a unit's template (0 for an id outside the catalog). */
  function CostOf(templateId: string): (c: int)
    ensures Constants.IsCatalogId(templateId) ==> 50 <= c <= 3000
    ensures !Constants.IsCatalogId(templateId) ==> c == 0
  {
    match Constants.GetTemplate(templateId)
    case Some(t) =>
      Constants.LookedUpTemplateWellFormed(templateId);
      t.cost
    case None => 0
  }

  /** What team t's units cost altogether. */
  function Spent(units: seq<UnitInstance>, t: Team): (s: int)
    ensures s >= 0
  {
    if units == [] then 0
    else
      var last := units[|units| - 1];
      Spent(units[..|units| - 1], t) + (if last.team == t then CostOf(last.templateId) else 0)
  }

  /** Budget accounting: each team's budget plus what its units cost is the initial budget. */
  ghost predicate Accounted(m: MatchState)
  {
    forall t: Team :: m.budgets.Of(t) + Spent(m.units, t) == Constants.InitialBudget
  }

  /** The spending of a roster depends only on each unit's team and template. */
  lemma {:induction false} SpentFrame(units: seq<UnitInstance>, units': seq<UnitInstance>, t: Team)
    requires |units'| == |units|
    requires forall k :: 0 <= k < |units| ==> units'[k].team == units[k].team && units'[k].templateId == units[k].templateId
    ensures Spent(units', t) == Spent(units, t)
    decreases |units|
  {
    if units != [] {
      SpentFrame(units[..|units| - 1], units'[..|units| - 1], t);
    }
  }

  /** The initial state, a reset and a battle start are accounted. */
  lemma AccountedInitially(m: MatchState)
    ensures Accounted(Initial()) && Accounted(Reset(m))
    ensures Accounted(m) ==> Accounted(StartBattle(m))
  {
  }

  /** A placement charges exactly the cost of the unit it adds, so the accounting is kept. */
  lemma PlaceKeepsAccounted(m: MatchState, point: Vec, id: nat)
    requires SelectionResolvable(m) && Accounted(m)
    ensures Accounted(Place(m, point, id))
  {
    var r := Place(m, point, id);
    if Accepts(m, point.x) {
      var tpl := SelectedTemplate(m);
      var u := NewUnit(tpl, m.selectedTeam, point, id);
      assert r.units[..|r.units| - 1] == m.units;
      assert CostOf(u.templateId) == tpl.cost by {
        Constants.LookedUpTemplateWellFormed(u.templateId);
        assert tpl == Constants.GetTemplate(u.templateId).value;
      }
      forall t: Team ensures r.budgets.Of(t) + Spent(r.units, t) == Constants.InitialBudget {
        assert Spent(r.units, t) == Spent(m.units, t) + (if u.team == t then tpl.cost else 0);
      }
    }
  }

  /** A battle frame neither touches the budgets nor changes any unit's team or template, so it keeps the accounting. */
  lemma TickKeepsAccounted(root: real -> real, m: MatchState, delta: real)
    requires m.phase == Battle ==> LivingCatalogued(m.units)
    requires Accounted(m)
    ensures Accounted(Simulation.Tick(root, m, delta))
  {
    var r := Simulation.Tick(root, m, delta);
    forall k | 0 <= k < |m.units| ensures r.units[k].team == m.units[k].team && r.units[k].templateId == m.units[k].templateId {
      Simulation.TickKeepsIdentity(root, m, delta, k);
    }
    forall t: Team ensures r.budgets.Of(t) + Spent(r.units, t) == Constants.InitialBudget {
      SpentFrame(m.units, r.units, t);
    }
  }

  /** Since budgets start full and are only spent on units, a team never fields more than its initial budget. */
  lemma AccountedBoundsSpending(m: MatchState, t: Team)
    requires Accounted(m) && m.budgets.Of(t) >= 0
    ensures Spent(m.units, t) <= Constants.InitialBudget
  {
  }
}
