/** The data model of the autobattler: teams, phases, stat lines, unit templates and placed units. */
module Types {

  /** A nullable value, written `T | null` in the game. */
  datatype Option<+T> = None | Some(value: T)

  datatype Team = Red | Blue

  /** Cosmetic only: the simulation never reads it. */
  datatype AttackType = Physical | LightMagic | DarkMagic

  datatype GamePhase = Setup | Battle | GameOver

  /** A point or displacement on the ground plane. The cosmetic height coordinate is not modelled. */
  datatype Vec = Vec(x: real, z: real)

  const Zero: Vec := Vec(0.0, 0.0)

  /** The stats a template carries: every unit stat except current hp. attackSpeed is in attacks per second. */
  datatype BaseStats = BaseStats(maxHp: real, atk: real, def: real, range: real, attackSpeed: real, moveSpeed: real)

  /** The live stats of a placed unit: the template's stats plus the current hp. */
  datatype Stats = Stats(hp: real, maxHp: real, atk: real, def: real, range: real, attackSpeed: real, moveSpeed: real)

  /** The stats with hp omitted. */
  function Base(s: Stats): BaseStats
  {
    BaseStats(s.maxHp, s.atk, s.def, s.range, s.attackSpeed, s.moveSpeed)
  }

  /** A template's stats with a current hp added alongside maxHp. */
  function WithHp(b: BaseStats, hp: real): (s: Stats)
    ensures Base(s) == b
    ensures s.hp == hp
  {
    Stats(hp, b.maxHp, b.atk, b.def, b.range, b.attackSpeed, b.moveSpeed)
  }

  /** Splitting off the hp and adding it back gives the stats back. */
  lemma StatsRoundTrip(s: Stats)
    ensures WithHp(Base(s), s.hp) == s
  {
  }

  datatype UnitTemplate = UnitTemplate(
    id: string,
    name: string,
    stats: BaseStats,
    cost: int,
    attackType: AttackType,
    color: string,
    height: real,
    width: real)

  /** A unit placed on the arena. Ids are fresh naturals; targetId refers to another unit by id. */
  datatype UnitInstance = UnitInstance(
    id: nat,
    templateId: string,
    team: Team,
    pos: Vec,
    vel: Vec,
    stats: Stats,
    targetId: Option<nat>,
    lastAttackTime: real,
    isDead: bool,
    maxCooldown: real,
    currentCooldown: real)

  /** The enumerations have exactly the values of the game. */
  lemma EnumerationsExhaustive(t: Team, p: GamePhase, a: AttackType)
    ensures t == Red || t == Blue
    ensures Red != Blue
    ensures p == Setup || p == Battle || p == GameOver
    ensures Setup != Battle && Battle != GameOver && Setup != GameOver
    ensures a == Physical || a == LightMagic || a == DarkMagic
  {
  }
}
