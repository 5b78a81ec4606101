# Autobattler battle core in Dafny

This project models the simulation and match bookkeeping of a browser autobattler. Two teams, RED and
BLUE, spend a budget placing units from a six-entry catalog on a square arena. The battle then runs frame
by frame until one team has no living unit.

Each frame does the following, in order:

1. It resets every velocity to zero.
2. It runs a **combat pass** in roster order. Each living unit:
   - raises its team's "seen" flag;
   - ticks its cooldown down;
   - keeps its target while that unit still lives, and otherwise takes the nearest living enemy, the
     earlier one in roster order on ties;
   - then either hits the target, if it is in range and the cooldown has run out, or sets a velocity
     toward it.
3. It runs a **movement pass**. Each living unit moves by its velocity and is clamped to the playable
   area. It is then pushed away from every living neighbour it overlaps.
4. It applies the **win rule** to the two flags.

The model is purely functional:

- The roster is a `seq<UnitInstance>` and every pass is an index-recursive function.
- Coordinates and stats are `real`.
- Unit ids are naturals supplied by the caller.
- `Math.sqrt` is a parameter `root: real -> real`. Lemmas that need its meaning assume `IsSqrt(root)`:
  for `x >= 0`, `root(x) >= 0` and `root(x) * root(x) == x`.

Modules follow the source:

| module | file | models |
|---|---|---|
| `Types` | `types.dfy` | the datatypes of `types.ts` |
| `Constants` | `constants.dfy` | `constants.ts`: budget, arena size, cost formula, catalog, `getTemplate` |
| `Geometry` | `geometry.dfy` | `getDistance`, the clamp and the step toward a target |
| `Roster` | `roster.dfy` | the roster invariants the frame keeps |
| `Targeting` | `targeting.dfy` | keeping or re-acquiring a target |
| `Combat` | `combat.dfy` | the first pass: cooldown, targeting, attack or approach |
| `Movement` | `movement.dfy` | the second pass: integrate, clamp, separate |
| `Simulation` | `simulation.dfy` | the whole frame and the win rule |
| `Match` | `match.dfy` | `App.tsx`: initial state, start battle, reset, budget debit |
| `Placement` | `placement.dfy` | the ground-click placement handler and budget accounting |
| `Scenarios` | `scenarios.dfy` | concrete situations worked through the model |

## Behaviours worth knowing

These follow the code.

- **Separation can leave the arena.** The push runs after the clamp and nothing clamps again.
  `Scenarios.SeparationLeavesArena` shows a unit pushed to x = 38.1, past the boundary at 38.
- **Separation is one-sided.** Only the unit whose turn it is moves. Its neighbours are not pushed back.
- **Moves happen one after another.** Each unit separates from where the units before it have just moved
  to. Two troopers at rest at x = 0 and x = 0.5 end at -0.15 and 0.575; had both moved against the starting
  positions, the second would end at 0.65 (`Scenarios.SequentialMoves`, `Scenarios.SimultaneousWouldDiffer`).
- **A zero-length frame still acts.** With `delta = 0` a ready unit still fires and separation still moves
  units (`Scenarios.ZeroDeltaStillFires`).
- **Elimination can be noticed a frame late.** Flags are raised at the start of each unit's turn. A unit
  can raise its team's flag and then be killed later in the same pass, so the frame keeps the battle going
  (`Scenarios.EliminationNoticedLate`). The next frame then always ends it
  (`Simulation.NextTickDetectsElimination`). If the killer acts first in the roster, the victim is dead
  when its turn comes and the same frame ends the game (`Scenarios.EliminationNoticedAtOnce`).
- **The gap depends on both widths.** A unit keeps half its own width plus half its neighbour's. A trooper
  near a Titan Mech keeps 0.4 + 1.0 (`Scenarios.UnequalWidthsSeparate`).
- **Starting a battle is loose.** It needs a unit of each team, dead or alive, and does not check the phase.
- **Reset keeps the selection.** The selected template and team survive a reset.
- **The catalog cost is always derived.** The map overwrites every entry's `cost: 0` with the formula's
  value. No entry keeps a fixed cost.

## Model

| member | source | states |
|---|---|---|
| Types.WithHp | types.ts:25-38 | A unit's stats are the template's stats with a current hp added alongside maxHp, and dropping that hp gives the template's stats back. |
| Types.StatsRoundTrip | types.ts:25-38 | Splitting the hp off a stat line and adding it back returns the same stat line. |
| Types.EnumerationsExhaustive | types.ts:1-16 | Team has exactly the two distinct values RED and BLUE. GamePhase has exactly the three distinct values SETUP, BATTLE and GAME_OVER. Every AttackType is one of its three kinds. |
| Constants.CalculateCost | constants.ts:14-18 | The cost is an integer in [50, 3000]. It is 50 when the score is at most 50 and 3000 when it is at least 3000. In between it is the score rounded down. |
| Constants.CostMonotonic | constants.ts:14-18 | More hp, atk or def never lowers the cost. |
| Constants.DeriveCosts | constants.ts:81-84 | The map keeps every entry except its cost, and every resulting cost is the formula applied to that entry's maxHp, atk and def. |
| Constants.CatalogCostsDerived | constants.ts:20-84 | Every catalog entry's cost is the formula's value for its stats, so no `cost: 0` placeholder survives. |
| Constants.CatalogWellFormed | constants.ts:20-80 | There are six entries with distinct ids. Each has positive attackSpeed, maxHp, range and width, so `1 / attackSpeed` and the footprint are defined. |
| Constants.FindTemplate | components/BattleScene.tsx:34 | The lookup returns None exactly when no entry has the id. Otherwise it returns the first entry with that id. |
| Constants.CatalogIdsInOrder | constants.ts:20-80 | Lists the six catalog ids in catalog order. |
| Constants.CatalogIdsListed | constants.ts:20-80 | The six listed ids are exactly the ids some catalog entry carries. |
| Constants.GetTemplate | components/BattleScene.tsx:34 | The lookup finds a template exactly for the six listed ids, and the template it finds is a catalog entry carrying that id. |
| Constants.GetTemplateFindsEntry | components/BattleScene.tsx:34 | Because the ids are distinct, looking up an entry's id returns that very entry. |
| Constants.LookedUpTemplateWellFormed | components/BattleScene.tsx:34 | A template found for a catalog id is a catalog entry with that id, positive attackSpeed, maxHp and width, and a cost in [50, 3000]. |
| Constants.WidthInFinds | components/BattleScene.tsx:34 | Where the template lookup finds an entry, the width search returns that same entry's width. |
| Geometry.RootOfSquare | components/BattleScene.tsx:36-38 | The square root of a² is a, for a >= 0. |
| Geometry.ScaledDistance | components/BattleScene.tsx:36-38 | Scaling a displacement by k >= 0 scales the distance by k. |
| Geometry.WithinIffSquared | components/BattleScene.tsx:638-642 | The range check on distances agrees with comparing squared distances against the squared range. |
| Geometry.CloserIffSquaredCloser | components/BattleScene.tsx:625-626 | The nearer-enemy comparison on distances agrees with comparing squared distances. |
| Geometry.Distance | components/BattleScene.tsx:36-38 | The distance is non-negative and its square is the squared ground-plane distance. |
| Geometry.Clamp | components/BattleScene.tsx:696-698 | The result lies in [-38, 38]. A value already inside is unchanged, and a value outside goes to the nearer bound. |
| Geometry.Toward | components/BattleScene.tsx:674-680 | The step lies on the line to the target, and its squared length is the square of the move scale. For a non-negative scale it points toward the target. |
| Geometry.StepGeometry | components/BattleScene.tsx:674-680 | A displacement scaled by c, where c times the distance is the move scale, has those three properties. |
| Roster.LivingCataloguedFrame | components/BattleScene.tsx:700-707 | Whether every living unit's template can be looked up depends only on the templates and on which units stay alive. |
| Roster.MotionKeepsWellFormed | components/BattleScene.tsx:686-715 | Changing only positions and velocities keeps the roster invariants: distinct ids, enemy-only targets, death exactly at hp <= 0, bounded cooldown and hp, and living units catalogued. |
| Roster.AppendKeepsWellFormed | components/BattleScene.tsx:754-768 | Appending a fresh, living, idle, catalogued unit that nobody targets keeps the roster invariants. |
| Targeting.FindFrom | components/BattleScene.tsx:617 | From index j on, returns None exactly when no unit has the id. Otherwise it returns the first index whose unit carries the id; a null id matches nothing. |
| Targeting.FindById | components/BattleScene.tsx:617 | Returns the index of the first unit carrying the id, and None exactly when there is none. |
| Targeting.FindByIdOfUnit | components/BattleScene.tsx:617 | With distinct ids, looking up unit k's id finds k. |
| Targeting.ScanFrom | components/BattleScene.tsx:620-631 | The strict `<` scan ends on the first nearest living enemy. It ends on None only when there is no living enemy. |
| Targeting.NearestEnemy | components/BattleScene.tsx:620-631 | The result is None exactly when there is no living enemy. Otherwise it is a living enemy no farther than any other, and strictly nearer than every living enemy before it. |
| Targeting.FirstNearestUnique | components/BattleScene.tsx:623-631 | The tie rule picks exactly one unit. |
| Targeting.Acquire | components/BattleScene.tsx:617-635 | A held target that exists and lives is kept. Otherwise the new target is the first nearest living enemy, or null exactly when no living enemy exists. With distinct ids the acted-on unit is alive and is found exactly when an id is held. |
| Combat.Damage | components/BattleScene.tsx:647 | A hit deals at least 10 and at least atk - 0.05 * def, and exactly one of the two. |
| Combat.CooldownAfter | components/BattleScene.tsx:615 | A cooldown at or below 0 is left alone, and a positive one drops by exactly delta. With delta >= 0 the cooldown never rises, and it reaches 0 or below exactly when it was at most delta. |
| Combat.Elapsed | components/BattleScene.tsx:615 | The time of a run of frames with non-negative deltas is non-negative. |
| Combat.ReadyAfterElapsed | components/BattleScene.tsx:615-645 | Over a run of frames with non-negative deltas, a cooldown runs out exactly when the frames' total time reaches it. Before that it stands at its start minus the total time. So a unit that fires with cooldown maxCooldown is ready again at the first frame whose running total reaches maxCooldown. |
| Combat.Hit | components/BattleScene.tsx:648-651 | hp drops by exactly the damage, with no clamp. The unit is dead afterwards exactly when it was dead or its new hp is at most 0. Nothing else changes. |
| Combat.TurnVelocityIsStep | components/BattleScene.tsx:672-681 | A unit that does not approach keeps its velocity. One that approaches gets a step of length moveSpeed * delta on the line to its target, pointing toward it for a non-negative delta. |
| Combat.Fire | components/BattleScene.tsx:644-651 | The attacker's cooldown resets to its maximum and the target takes the damage of the attacker's atk against its def. Every other unit is untouched. |
| Combat.Act | components/BattleScene.tsx:637-683 | In range with the cooldown run out, the attacker fires. Out of range at a non-zero distance, it gets the step toward the target. Otherwise nothing changes. |
| Combat.Prepare | components/BattleScene.tsx:615-635 | Before acting, a living unit ticks its cooldown down and stores the target it acquires. Nothing else about it, and no other unit, changes. |
| Combat.UnitStep | components/BattleScene.tsx:611-683 | A dead unit's turn changes nothing. A living unit's turn raises its team's flag and stores the acquired target id. |
| Combat.StepEvolves | components/BattleScene.tsx:611-683 | A turn changes only hp (downward), death, velocity, cooldown and target, and death only with hp. It changes no other unit's velocity, cooldown or target. With distinct ids it leaves dead units untouched. |
| Combat.StepFiring | components/BattleScene.tsx:615-651 | A unit fires exactly when it lives, has a target in range, and its ticked cooldown is at most 0. Firing resets the cooldown and hits the target. A unit other than the actor changes only by being hit. |
| Combat.StepMovement | components/BattleScene.tsx:672-681 | The velocity is set exactly when the target is out of range at a non-zero distance, and then to the step of moveSpeed * delta toward it. Otherwise it is unchanged. |
| Combat.CombatPass | components/BattleScene.tsx:610-684 | The pass keeps the roster length and only makes combat changes to each unit. |
| Combat.Before | components/BattleScene.tsx:610-684 | The pass as it stands when turn k begins keeps the roster length and has made only combat changes. |
| Combat.ControlKeptBefore | components/BattleScene.tsx:610-684 | The turns before unit k's own leave its velocity, cooldown and target as they were. |
| Combat.ControlKeptAfter | components/BattleScene.tsx:610-684 | The turns after unit k's own leave its velocity, cooldown and target as they were. |
| Combat.TurnDecidesControl | components/BattleScene.tsx:610-684 | Unit k leaves the pass with exactly the velocity, cooldown and target that its own turn gave it. |
| Combat.EvolvesKeepsDistinctIds | components/BattleScene.tsx:610-684 | Combat never changes ids, so they stay distinct. |
| Combat.CombatPassSkipsDead | components/BattleScene.tsx:611 | With distinct ids, units dead when the pass starts come out of it unchanged. |
| Combat.PassFlagsRise | components/BattleScene.tsx:612-613 | A raised flag stays raised. |
| Combat.PassKeepsUnseen | components/BattleScene.tsx:611-613 | A team with no living unit left to take a turn keeps its flag as it was. |
| Combat.SurvivorSeenAtTurn | components/BattleScene.tsx:611-613 | A unit alive after the pass was alive at its own turn, so its team's flag is up. |
| Combat.PassSeesSurvivors | components/BattleScene.tsx:611-613 | Every unit alive after the pass has its team's flag raised. |
| Combat.LaterTurnAfterStep | components/BattleScene.tsx:610-684 | One turn keeps a later unit's team. The pass from the next index reaches that later turn in the same state as the pass from this index. |
| Combat.AliveAtTurnStep | components/BattleScene.tsx:610-613 | From index i, a team has a unit alive at its own turn exactly when unit i is a living unit of that team, or, after turn i, some unit from i + 1 on is. |
| Combat.PassSeenExactly | components/BattleScene.tsx:605-613 | A team's flag is up after the pass exactly when it was up before, or some unit of the team is alive when its own turn begins. |
| Combat.FirstLivingTakesTurn | components/BattleScene.tsx:610-613 | When every unit of the other team from index i on is dead, a living unit of team t makes t have a unit alive at its own turn: nobody can kill it first. |
| Combat.CombatPassFlags | components/BattleScene.tsx:605-613 | Combines the three flag facts: flags only rise, a team with no living unit keeps its flag, and every survivor's team is seen. |
| Combat.StepKeepsTargetsAreEnemies | components/BattleScene.tsx:617-635 | With distinct ids, no turn makes a unit hold the id of a teammate. |
| Combat.StepKeepsCooldownBounded | components/BattleScene.tsx:615-645 | With delta >= 0, no turn lifts a cooldown above its maximum. |
| Combat.CombatPassKeepsInvariants | components/BattleScene.tsx:610-684 | The pass keeps ids distinct, targets enemy-only and cooldowns bounded, for delta >= 0. |
| Combat.EvolvesKeepsInvariants | components/BattleScene.tsx:648-651 | Combat changes keep death equal to hp <= 0, hp at most maxHp, and living units catalogued. |
| Movement.WidthOf | components/BattleScene.tsx:700-707 | A catalogued template's footprint is positive. |
| Movement.CatalogWidth | components/BattleScene.tsx:700-707 | A template's width is exactly the width of the catalog entry that getTemplate finds for its id. |
| Movement.Integrate | components/BattleScene.tsx:690-698 | Each axis is position plus velocity clamped to [-38, 38] on its own, so the result lies in the playable area. It equals position plus velocity whenever that is inside. |
| Movement.Push | components/BattleScene.tsx:709-713 | A pair is not pushed unless it is closer than minGap and more than 0.0001 apart. |
| Movement.PushExact | components/BattleScene.tsx:704-713 | An overlapping unit moves by half the overlap, straight away from the other unit: the move has length (minGap - d) / 2, and the new distance is (d + minGap) / 2, more than before but still short of minGap. |
| Movement.PushScale | components/BattleScene.tsx:704-713 | An overlapping push moves the unit straight away from the other by a positive multiple c of their displacement, with (1 + c)·d = (d + minGap) / 2 and c·d = (minGap - d) / 2. |
| Movement.PushedDistances | components/BattleScene.tsx:711-712 | Moving along the line by the multiple c of the displacement gives those two distances. |
| Movement.PushDisplacement | components/BattleScene.tsx:711-712 | The pushed point is on the line through both units, (1 + push / d) times as far from the other unit. |
| Movement.PushBy | components/BattleScene.tsx:703-713 | A dead neighbour does not push. A living one pushes only when the pair overlaps at minGap = radius + half the neighbour's width. |
| Movement.PushByIsPush | components/BattleScene.tsx:703-713 | A living neighbour's push is the plain push at minGap = radius + half its width. |
| Movement.PushByLiving | components/BattleScene.tsx:703-713 | A living neighbour that overlaps the unit at radius + half its width pushes it to halfway between their distance and that gap. |
| Movement.Separate | components/BattleScene.tsx:702-714 | With no living neighbour from index j on, the position is unchanged. |
| Movement.DeadObstacleIgnored | components/BattleScene.tsx:703 | Two rosters that differ only in units dead in both separate every unit the same way. |
| Movement.SeparateClear | components/BattleScene.tsx:702-714 | If no living neighbour from index j on overlaps p at half of each unit's width, separation leaves p where it is. |
| Movement.SeparateSingle | components/BattleScene.tsx:702-714 | If n is the only living neighbour from index j on, and n is not yet passed, separation is n's push alone. |
| Movement.SeparateTwo | components/BattleScene.tsx:702-713 | With two living neighbours n1 < n2, n1 pushes first, and n2 pushes from where that push left the unit. |
| Movement.SeparatePairDistance | components/BattleScene.tsx:702-713 | With n the only living neighbour and overlapping p, separation ends halfway between their distance and radius + half n's width. |
| Movement.MoveUnit | components/BattleScene.tsx:687-714 | Only the unit whose turn it is moves, and only its position changes. A dead unit does not move. |
| Movement.MoveUnitSeparates | components/BattleScene.tsx:690-714 | A living unit's move ends where separation puts it, starting from its integrated position with radius half its own width. |
| Movement.ClearUnitStaysInArena | components/BattleScene.tsx:690-714 | A living unit whose integrated position overlaps no living neighbour, at half of each unit's width, ends exactly there, inside the playable area. |
| Movement.PairSeparation | components/BattleScene.tsx:700-713 | A living unit whose only living neighbour is n, overlapping it after the move, ends at (d + minGap) / 2 from n. Here d is their distance after the move and minGap is half of each unit's own width, added. |
| Movement.PairApart | components/BattleScene.tsx:700-713 | The same pair, not overlapping after the move: the unit ends at its integrated position. |
| Movement.Moved | components/BattleScene.tsx:686-715 | Before any move the roster is as the pass found it. When unit k's move begins, the units from k on are still as the pass found them, and the living ones are still catalogued. |
| Movement.MovedStep | components/BattleScene.tsx:686-715 | The moves happen one after another in roster order: unit k moves in the roster its predecessors have already moved, so it sees their new positions. |
| Movement.MovePass | components/BattleScene.tsx:686-715 | The pass changes only positions, and dead units keep theirs. It is the sequence of moves in roster order: each unit moves in the roster the units before it have already moved, as Moved and MovedStep pin down. |
| Movement.MovePassAt | components/BattleScene.tsx:686-715 | Unit k ends the pass where its own move puts it, from the roster as it stands when that move begins: units before k already moved, units after k not yet. |
| Simulation.ResetVelocities | components/BattleScene.tsx:604 | Every unit is copied with zero velocity and nothing else changed. |
| Simulation.Verdict | components/BattleScene.tsx:718-724 | BLUE wins exactly when only BLUE was seen and RED wins exactly when only RED was. There is no verdict exactly when both or neither were seen. |
| Simulation.Fight | components/BattleScene.tsx:603-684 | After the velocity reset, the combat pass keeps the length and only makes combat changes. |
| Simulation.Step | components/BattleScene.tsx:686-715 | After movement, each unit is its combat result with only the position changed. |
| Simulation.AtTurn | components/BattleScene.tsx:604-681 | When unit k's turn begins, every position and moveSpeed is as at the frame's start. Unit k's velocity is zero and its cooldown, maximum and target are as at the frame's start. |
| Simulation.FrameControl | components/BattleScene.tsx:604-681 | The combat half of a frame leaves unit k with the velocity, cooldown and target its own turn gave it. |
| Simulation.FrameVelocity | components/BattleScene.tsx:604-681 | The velocity a frame hands to the movement pass is the one unit k's turn set. It is zero unless the unit approached its target at that turn. |
| Simulation.FrameCooldown | components/BattleScene.tsx:615-651 | A unit that fires in a frame leaves it with cooldown maxCooldown. A living unit that does not fire leaves it with its cooldown ticked by delta. A living unit keeps the target it acquired. A dead unit keeps its cooldown and target. |
| Simulation.MoveStart | components/BattleScene.tsx:686-714 | The first unit moves in the roster exactly as the combat pass left it. When unit k's move begins, unit k itself is as the combat pass left it, and living units are still catalogued. |
| Simulation.MoveStartStep | components/BattleScene.tsx:686-715 | Unit k + 1 moves in the roster unit k moved in, with unit k's move applied. |
| Simulation.FrameMove | components/BattleScene.tsx:686-715 | Unit k ends the frame where its own move puts it, from the roster as it stands when that move begins. |
| Simulation.FrameClearPath | components/BattleScene.tsx:690-714 | A unit alive after combat ends the frame at its combat position moved by its velocity and clamped, inside the arena, when no living neighbour overlaps that position at half of each unit's width. |
| Simulation.Tick | components/BattleScene.tsx:600-732 | Outside BATTLE a frame changes nothing. A frame never touches the budgets or the selection, and keeps the roster length. In BATTLE it ends in GAME_OVER exactly when the flags of its combat pass give a verdict, and that verdict is the winner. Otherwise it stays in BATTLE with the winner untouched. |
| Simulation.TickClearPath | components/BattleScene.tsx:600-715 | In a BATTLE tick, such an unobstructed unit ends the tick at its moved and clamped position. |
| Simulation.FrameSeen | components/BattleScene.tsx:605-613 | After a frame's combat pass, a team's flag is up exactly when some unit of that team is alive when its own turn begins. |
| Simulation.WinRule | components/BattleScene.tsx:718-724 | A BATTLE frame ends with RED winning exactly when some RED unit is alive at its own turn and no BLUE unit is, and the same for BLUE. The battle goes on exactly when both teams or neither have such a unit. |
| Simulation.TickKeepsIdentity | components/BattleScene.tsx:600-732 | A frame keeps each unit's id, team, template, maximum cooldown and base stats. hp never rises and the dead stay dead. |
| Simulation.TickKeepsDeadInert | components/BattleScene.tsx:600-715 | With distinct ids, a unit dead at the start of a frame leaves it with zero velocity and nothing else changed. |
| Simulation.TickWinnerSurvivesAlone | components/BattleScene.tsx:718-724 | When a frame ends the game, no unit of the losing team is alive afterwards. |
| Simulation.TickWinnerWasAlive | components/BattleScene.tsx:718-724 | When a frame ends the game, the winner had a living unit at its start. |
| Simulation.NextTickDetectsElimination | components/BattleScene.tsx:718-724 | Once one team has no living unit and the other has one, the next frame ends the game with the other team as winner. |
| Simulation.TickPreservesWellFormed | components/BattleScene.tsx:600-732 | With delta >= 0 a frame keeps the roster invariants: distinct ids, enemy-only targets, death exactly at hp <= 0, cooldown and hp bounded, living units catalogued. |
| Match.Initial | App.tsx:9-22 | The match starts in SETUP with no units, no winner, no selection, RED selected, and both budgets at 5000. |
| Match.StartBattle | App.tsx:24-36 | Without a unit of each team nothing changes. Otherwise the phase becomes BATTLE and the selection is cleared. Units, budgets and winner are never touched. |
| Match.BattleNeedsBothTeams | App.tsx:24-36 | A battle that starts has a RED and a BLUE unit on the board. |
| Match.Reset | App.tsx:38-46 | Reset gives SETUP, no units, no winner and both budgets at 5000. The selection is kept. |
| Match.ResetIsInitialButSelection | App.tsx:9-46 | Reset gives the initial state except for the selection. |
| Match.ResetIdempotent | App.tsx:38-46 | Resetting twice is resetting once. |
| Match.Budgets.Debit | App.tsx:48-53 | Only the given team's budget changes, by exactly the amount. |
| Match.DecreaseBudget | App.tsx:48-53 | Only the selected team's budget changes, by exactly the amount. |
| Placement.SelectedTemplate | components/BattleScene.tsx:738 | The selected template is the catalog entry with the selected id. It has positive attackSpeed and maxHp and a cost in [50, 3000]. |
| Placement.NewUnit | components/BattleScene.tsx:754-766 | The new unit is at the clicked point with the given id, team and template. It has zero velocity, hp = maxHp, no target, is alive, and has cooldown 0 with maxCooldown * attackSpeed = 1. |
| Placement.Place | components/BattleScene.tsx:734-770 | A click outside SETUP, without a selection, beyond the budget, or on the team's wrong half changes nothing. An accepted click appends the new unit, debits exactly the cost from the selected team, and changes nothing else. No budget goes negative. |
| Placement.PlaceKeepsWellFormed | components/BattleScene.tsx:754-768 | A placement with a fresh id keeps the roster invariants. |
| Placement.CostOf | constants.ts:14-84 | A unit's cost is in [50, 3000] for a catalogued template and 0 otherwise. |
| Placement.Spent | App.tsx:48-53 | What a team's units cost is never negative. |
| Placement.SpentFrame | components/BattleScene.tsx:600-732 | Spending depends only on each unit's team and template, which no frame changes. |
| Placement.AccountedInitially | App.tsx:9-46 | The initial state and a reset are accounted: budget plus spending is 5000 for each team. A battle start keeps that. |
| Placement.PlaceKeepsAccounted | components/BattleScene.tsx:739-769 | A placement charges exactly the cost of the unit it adds, so budget plus spending stays 5000. |
| Placement.TickKeepsAccounted | components/BattleScene.tsx:600-732 | A battle frame keeps budget plus spending at 5000 for each team. |
| Placement.AccountedBoundsSpending | constants.ts:3 | A team with a non-negative budget has spent at most 5000 on its units. |
| Scenarios.CatalogCosts | constants.ts:14-84 | The derived costs are 205, 1262, 415, 657, 240 and 290. |
| Scenarios.DamageFloor | components/BattleScene.tsx:647 | A Trooper hitting a Titan Mech deals the floor of 10. A Titan Mech hitting a Trooper deals 140. A Void Sorcerer hitting a Titan Mech deals 375. |
| Scenarios.TitanBudgetRunsOut | components/BattleScene.tsx:739 | Three Titan Mechs fit in 5000 and leave 1214. The fourth click is refused. |
| Scenarios.WrongHalfRefused | components/BattleScene.tsx:745-752 | RED is refused right of centre, and x = 0 is accepted. |
| Scenarios.ZeroDeltaStillFires | components/BattleScene.tsx:615-644 | A ready unit with a target in range fires in a frame of length 0. |
| Scenarios.SeparationLeavesArena | components/BattleScene.tsx:696-713 | A trooper pushed after the clamp ends at x = 38.1, outside the playable area. |
| Scenarios.TrooperAndTitanWidths | constants.ts:20-39 | The catalog lists a trooper as 0.8 wide and a Titan Mech as 2.0 wide. |
| Scenarios.TrooperTitanGap | components/BattleScene.tsx:700-707 | A trooper and a Titan Mech keep a gap of 0.4 + 1.0 = 1.4 between them. |
| Scenarios.PushedBackFromTitan | components/BattleScene.tsx:709-713 | At distance 1.0 with a gap of 1.4, the trooper is pushed back by 0.2. |
| Scenarios.UnequalWidthsSeparate | components/BattleScene.tsx:700-713 | A trooper 1.0 from a Titan Mech keeps a gap of 1.4, not 0.8 or 2.0, and its move ends 1.2 from the Titan. |
| Scenarios.UnequalWidthsPosition | components/BattleScene.tsx:700-713 | The same trooper's move ends at x = -0.2. |
| Scenarios.FirstPush | components/BattleScene.tsx:704-713 | Two units 0.5 apart with a gap of 0.8: the first is pushed back by 0.15. |
| Scenarios.SecondPush | components/BattleScene.tsx:704-713 | 0.65 apart with a gap of 0.8: the unit is pushed on by 0.075. |
| Scenarios.UnmovedPush | components/BattleScene.tsx:704-713 | 0.5 apart with a gap of 0.8, pushed away from the origin: the unit moves on by 0.15. |
| Scenarios.HuddleFirstMove | components/BattleScene.tsx:687-714 | Of two troopers at rest at x = 0 and x = 0.5, the first moves to x = -0.15. |
| Scenarios.HuddleSecondMove | components/BattleScene.tsx:687-714 | In the roster the first move left, the second trooper moves to x = 0.575. |
| Scenarios.SequentialMoves | components/BattleScene.tsx:686-715 | The movement pass over the two troopers ends with them at x = -0.15 and x = 0.575: the second moves away from where the first now stands. |
| Scenarios.UnmovedSeparation | components/BattleScene.tsx:702-713 | Against the roster as the pass found it, the second trooper's separation is a single push away from the first trooper at the origin, at a gap of 0.8. |
| Scenarios.SimultaneousWouldDiffer | components/BattleScene.tsx:686-715 | Moved against the roster as the pass found it, the second trooper would end at x = 0.65, not 0.575. |
| Scenarios.DuelBlueTurn | components/BattleScene.tsx:611-651 | In the duel, Blue targets Red and shoots it for 50. |
| Scenarios.DuelRedTurn | components/BattleScene.tsx:611-651 | Red then kills Blue, with both flags raised. |
| Scenarios.DuelFight | components/BattleScene.tsx:603-684 | The duel's combat pass ends with Blue dead and both flags up. |
| Scenarios.EliminationNoticedLate | components/BattleScene.tsx:718-724 | The frame in which Blue is eliminated leaves the battle running. |
| Scenarios.RedFirstTurn | components/BattleScene.tsx:611-651 | With Red first in the roster, Red's turn kills the 5-hp Blue trooper and raises only Red's flag. |
| Scenarios.RedFirstFight | components/BattleScene.tsx:603-684 | That combat pass ends with only Red seen, since Blue is dead when its turn comes. |
| Scenarios.EliminationNoticedAtOnce | components/BattleScene.tsx:718-724 | That frame ends the game with RED as winner. |

## Left out

- Rendering is not modelled. This covers the unit models and their animation, the projectile and effect
  records, scenery, atmosphere, `UI.tsx`, the camera controls and `alert` messages. None of it affects the
  simulation state.
- React plumbing is not modelled. The frame clock's `delta` and the clicked point are parameters, and each
  handler returns the new state.
- Random ids are not modelled. The caller supplies a natural id, and the well-formedness results assume
  it is fresh.
- Floating point is not modelled. Numbers are `real`, so IEEE rounding and `Infinity` are not represented.
  `Math.sqrt` is the parameter `root`.
- The y coordinate, `height`, `color`, `name` and `attackType` are kept as data or dropped, because the
  simulation never reads them. `lastAttackTime` is carried along and never changed.
- The terrain selector in `App.tsx` is not modelled. It is cosmetic.
- Selecting a template or team in the UI is not modelled as an operation. The selection is a field of the
  match state.
- Simulation.Tick: requires every living unit's template to be in the catalog. The game reads the template's
  width, and `getTemplate` would return undefined for an unknown id.
- Placement.Place: requires a selected id to be a catalog id. The game reads the cost of the looked-up template,
  which would be undefined otherwise.
- Placement.NewUnit: requires attackSpeed > 0. The game would compute `1 / 0 = Infinity`. Every catalog entry
  has a positive attackSpeed.
- Simulation.TickPreservesWellFormed: requires delta >= 0, as a frame clock provides. With a negative delta a cooldown
  could exceed its maximum.
- Placement.PlaceKeepsWellFormed: requires the new id to be carried and targeted by no unit. This stands in for the
  random id being fresh.
- Simulation.Step: requires every living unit's template to be in the catalog, for the same reason.
- Movement.MoveUnit: requires every living unit's template to be in the catalog, for the same reason.
- Movement.Separate: requires every living unit's template to be in the catalog, for the same reason.
- Combat.StepKeepsCooldownBounded: requires delta >= 0, for the same reason as the frame invariant.
- Movement.Separate: its own contract covers only the case with no living neighbour. The order of the pushes,
  each from the position the previous one left, is stated for one neighbour (`SeparateSingle`) and two
  (`SeparateTwo`), not for three or more in one lemma.
- Combat.CombatPass: its contract only says that units evolve by combat changes. The flag, invariant and
  per-unit control facts (`TurnDecidesControl`) are separate lemmas.
- Placement.TickKeepsAccounted: requires, in BATTLE, every living unit's template to be in the catalog, for the
  same reason as Simulation.Tick.
