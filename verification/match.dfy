/**
 The match controller: the phase, the template selection, the two budgets, the roster and the winner,
 with the start-battle, reset and budget-debit handlers.
 */
module Match {
  import opened Types
  import Constants

  /** `Record<Team, number>`: one budget per team. */
  datatype Budgets = Budgets(red: int, blue: int)
  {
    function Of(t: Team): int
    {
      if t == Red then red else blue
    }

    /** Subtract the amount from team t's budget; the other team's budget is untouched. */
    function Debit(t: Team, amount: int): (r: Budgets)
      ensures r.Of(t) == Of(t) - amount
      ensures forall u: Team :: u != t ==> r.Of(u) == Of(u)
    {
      if t == Red then this.(red := red - amount) else this.(blue := blue - amount)
    }
  }

  /** Both budgets at `INITIAL_BUDGET`. */
  const FullBudgets: Budgets := Budgets(Constants.InitialBudget, Constants.InitialBudget)

  datatype MatchState = MatchState(
    phase: GamePhase,
    selectedTemplateId: Option<string>,
    selectedTeam: Team,
    budgets: Budgets,
    units: seq<UnitInstance>,
    winner: Option<Team>)

  /** The state the app mounts with. */
  function Initial(): (m: MatchState)
    ensures m.phase == Setup && m.units == [] && m.winner == None
    ensures forall t: Team :: m.budgets.Of(t) == Constants.InitialBudget
    ensures m.selectedTemplateId == None && m.selectedTeam == Red
  {
    MatchState(Setup, None, Red, FullBudgets, [], None)
  }

  /** `units.some(u => u.team === t)`. */
  predicate HasTeam(units: seq<UnitInstance>, t: Team)
  {
    exists k :: 0 <= k < |units| && units[k].team == t
  }

  /**
   The start-battle handler: refused, with nothing changed, unless both teams have a unit (dead or
   alive, and whatever the phase); otherwise the selection is cleared and the battle starts.
   */
  function StartBattle(m: MatchState): (r: MatchState)
    ensures !(HasTeam(m.units, Red) && HasTeam(m.units, Blue)) ==> r == m
    ensures HasTeam(m.units, Red) && HasTeam(m.units, Blue) ==>
              r.phase == Battle && r.selectedTemplateId == None
    ensures r.units == m.units && r.budgets == m.budgets && r.winner == m.winner && r.selectedTeam == m.selectedTeam
  {
    if HasTeam(m.units, Red) && HasTeam(m.units, Blue) then
      m.(selectedTemplateId := None, phase := Battle)
    else m
  }

  /** A battle only ever starts with both teams on the board. */
  lemma BattleNeedsBothTeams(m: MatchState)
    requires StartBattle(m).phase == Battle && m.phase != Battle
    ensures exists a, b :: 0 <= a < |m.units| && 0 <= b < |m.units| && m.units[a].team == Red && m.units[b].team == Blue
  {
    assert HasTeam(m.units, Red) && HasTeam(m.units, Blue);
  }

  /** The reset handler: back to setup with an empty roster, full budgets and no winner. */
  function Reset(m: MatchState): (r: MatchState)
    ensures r.phase == Setup && r.units == [] && r.winner == None
    ensures forall t: Team :: r.budgets.Of(t) == Constants.InitialBudget
    ensures r.selectedTemplateId == m.selectedTemplateId && r.selectedTeam == m.selectedTeam
  {
    m.(phase := Setup, units := [], budgets := FullBudgets, winner := None)
  }

  /** Reset gives the initial state except for the selection, which it leaves alone. */
  lemma ResetIsInitialButSelection(m: MatchState)
    ensures Reset(m) == Initial().(selectedTemplateId := m.selectedTemplateId, selectedTeam := m.selectedTeam)
  {
  }

  /** Resetting twice is resetting once. */
  lemma ResetIdempotent(m: MatchState)
    ensures Reset(Reset(m)) == Reset(m)
  {
  }

  /** The budget-debit handler: charge the selected team only. */
  function DecreaseBudget(m: MatchState, amount: int): (r: MatchState)
    ensures r.budgets.Of(m.selectedTeam) == m.budgets.Of(m.selectedTeam) - amount
    ensures forall t: Team :: t != m.selectedTeam ==> r.budgets.Of(t) == m.budgets.Of(t)
    ensures r == m.(budgets := r.budgets)
  {
    m.(budgets := m.budgets.Debit(m.selectedTeam, amount))
  }
}
