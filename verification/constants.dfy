/** Match constants, the cost formula and the unit catalog. */
module Constants {
  import opened Types

  const InitialBudget: int := 5000

  /** Half the side of the square arena; the origin is its centre. */
  const ArenaSize: int := 40

  /** The raw score of a stat line, already divided by ten. */
  function Score(hp: real, atk: real, def: real): real
  {
    (hp * 0.2 + atk * 2.5 + def * 1.5) / 10.0
  }

  function Max(a: real, b: real): real
  {
    if a >= b then a else b
  }

  function Min(a: real, b: real): real
  {
    if a <= b then a else b
  }

  /** The placement cost of a stat line: the score clamped to [50, 3000], rounded down. */
  function CalculateCost(hp: real, atk: real, def: real): (cost: int)
    ensures 50 <= cost <= 3000
    ensures Score(hp, atk, def) <= 50.0 ==> cost == 50
    ensures Score(hp, atk, def) >= 3000.0 ==> cost == 3000
    ensures 50.0 <= Score(hp, atk, def) <= 3000.0 ==>
              cost as real <= Score(hp, atk, def) < cost as real + 1.0
  {
    Min(3000.0, Max(50.0, Score(hp, atk, def))).Floor
  }

  /** More hp, atk or def never makes a unit cheaper. */
  lemma CostMonotonic(hp: real, atk: real, def: real, hp': real, atk': real, def': real)
    requires hp <= hp' && atk <= atk' && def <= def'
    ensures CalculateCost(hp, atk, def) <= CalculateCost(hp', atk', def')
  {
    var s, s' := Score(hp, atk, def), Score(hp', atk', def');
    assert s <= s';
    var c, c' := Min(3000.0, Max(50.0, s)), Min(3000.0, Max(50.0, s'));
    assert c <= c';
    assert c.Floor <= c'.Floor;
  }

  function TemplateCost(t: UnitTemplate): int
  {
    CalculateCost(t.stats.maxHp, t.stats.atk, t.stats.def)
  }

  /** The catalog as written, with the `cost: 0` placeholders. */
  const RawTemplates: seq<UnitTemplate> := [
    UnitTemplate("foot_soldier", "Tactical Trooper",
                 BaseStats(8000.0, 60.0, 200.0, 4.0, 1.2, 4.0), 0, Physical, "#94a3b8", 1.5, 0.8),
    UnitTemplate("heavy_tank", "Titan Mech",
                 BaseStats(50000.0, 150.0, 1500.0, 6.0, 0.5, 1.5), 0, Physical, "#334155", 2.5, 2.0),
    UnitTemplate("berserker", "Crimson Slayer",
                 BaseStats(15000.0, 400.0, 100.0, 1.5, 1.8, 6.0), 0, Physical, "#ef4444", 1.6, 1.0),
    UnitTemplate("paladin", "Solar Guardian",
                 BaseStats(25000.0, 150.0, 800.0, 3.0, 1.0, 3.5), 0, LightMagic, "#facc15", 1.9, 1.2),
    UnitTemplate("dark_mage", "Void Sorcerer",
                 BaseStats(6000.0, 450.0, 50.0, 10.0, 0.7, 3.0), 0, DarkMagic, "#7e22ce", 1.4, 0.7),
    UnitTemplate("sniper", "Ghost Sniper",
                 BaseStats(9000.0, 350.0, 150.0, 18.0, 0.6, 5.0), 0, Physical, "#166534", 1.6, 0.6)
  ]

  /** The map over the catalog that overwrites every cost with the one derived from the stats. */
  function DeriveCosts(ts: seq<UnitTemplate>): (r: seq<UnitTemplate>)
    ensures |r| == |ts|
    ensures forall i :: 0 <= i < |r| ==> r[i].cost == TemplateCost(r[i])
    ensures forall i :: 0 <= i < |r| ==> r[i].(cost := ts[i].cost) == ts[i]
  {
    seq(|ts|, i requires 0 <= i < |ts| => ts[i].(cost := TemplateCost(ts[i])))
  }

  const UnitTemplates: seq<UnitTemplate> := DeriveCosts(RawTemplates)

  /** Ids are distinct and every stat the simulation divides by or relies on is positive. */
  lemma CatalogWellFormed()
    ensures |UnitTemplates| == 6
    ensures forall i, j :: 0 <= i < j < |UnitTemplates| ==> UnitTemplates[i].id != UnitTemplates[j].id
    ensures forall i :: 0 <= i < |UnitTemplates| ==>
              && UnitTemplates[i].stats.attackSpeed > 0.0
              && UnitTemplates[i].stats.maxHp > 0.0
              && UnitTemplates[i].stats.range > 0.0
              && UnitTemplates[i].width > 0.0
  {
    forall i | 0 <= i < |UnitTemplates|
      ensures UnitTemplates[i].id == RawTemplates[i].id && UnitTemplates[i].stats == RawTemplates[i].stats
      ensures UnitTemplates[i].width == RawTemplates[i].width
    {
      assert UnitTemplates[i].(cost := RawTemplates[i].cost) == RawTemplates[i];
    }
  }

  /** First catalog entry with the given id. */
  function FindTemplate(ts: seq<UnitTemplate>, id: string): (r: Option<UnitTemplate>)
    ensures r.None? <==> forall k :: 0 <= k < |ts| ==> ts[k].id != id
    ensures r.Some? ==> exists k :: 0 <= k < |ts| && ts[k] == r.value && r.value.id == id &&
                                     forall j :: 0 <= j < k ==> ts[j].id != id
  {
    if ts == [] then None
    else if ts[0].id == id then Some(ts[0])
    else
      var r := FindTemplate(ts[1..], id);
      assert r.Some? ==> exists k :: 0 <= k < |ts| && ts[k] == r.value && r.value.id == id &&
                                      forall j :: 0 <= j < k ==> ts[j].id != id
        by {
          if r.Some? {
            var k :| 0 <= k < |ts[1..]| && ts[1..][k] == r.value && r.value.id == id &&
                     forall j :: 0 <= j < k ==> ts[1..][j].id != id;
            assert ts[k + 1] == r.value;
            forall j | 0 <= j < k + 1 ensures ts[j].id != id {
              if j > 0 { assert ts[j] == ts[1..][j - 1]; }
            }
          }
        }
      r
  }

  /** `getTemplate`: the catalog lookup by id. It finds a template exactly for the listed ids, and the one it finds carries that id. */
  function GetTemplate(id: string): (r: Option<UnitTemplate>)
    ensures r.Some? <==> IsCatalogId(id)
    ensures r.Some? ==> r.value in UnitTemplates && r.value.id == id
  {
    CatalogIdsListed(id);
    FindTemplate(UnitTemplates, id)
  }

  /** The width of the first entry of ts with this id, or 0.0 when there is none. */
  function WidthIn(ts: seq<UnitTemplate>, id: string): real
  {
    if ts == [] then 0.0 else if ts[0].id == id then ts[0].width else WidthIn(ts[1..], id)
  }

  /** Where the search finds an entry, the width search lands on the same entry. */
  lemma {:induction false} WidthInFinds(ts: seq<UnitTemplate>, id: string)
    requires FindTemplate(ts, id).Some?
    ensures WidthIn(ts, id) == FindTemplate(ts, id).value.width
    decreases |ts|
  {
    if ts[0].id != id {
      WidthInFinds(ts[1..], id);
    }
  }

  /** The ids of the catalog, listed; `CatalogIdsListed` shows these are exactly the ids its entries carry. */
  const CatalogIds: set<string> := {"foot_soldier", "heavy_tank", "berserker", "paladin", "dark_mage", "sniper"}

  predicate IsCatalogId(id: string)
  {
    id in CatalogIds
  }

  /** The ids of the catalog entries, in catalog order. */
  lemma CatalogIdsInOrder()
    ensures |UnitTemplates| == 6
    ensures UnitTemplates[0].id == "foot_soldier" && UnitTemplates[1].id == "heavy_tank"
    ensures UnitTemplates[2].id == "berserker" && UnitTemplates[3].id == "paladin"
    ensures UnitTemplates[4].id == "dark_mage" && UnitTemplates[5].id == "sniper"
  {
    forall i | 0 <= i < |UnitTemplates| ensures UnitTemplates[i].id == RawTemplates[i].id {
      assert UnitTemplates[i].(cost := RawTemplates[i].cost) == RawTemplates[i];
    }
  }

  /** The listed ids are exactly the ids some catalog entry carries. */
  lemma CatalogIdsListed(id: string)
    ensures IsCatalogId(id) <==> exists k :: 0 <= k < |UnitTemplates| && UnitTemplates[k].id == id
  {
    CatalogIdsInOrder();
    if IsCatalogId(id) {
      var k := if id == "foot_soldier" then 0 else if id == "heavy_tank" then 1
               else if id == "berserker" then 2 else if id == "paladin" then 3
               else if id == "dark_mage" then 4 else 5;
      assert UnitTemplates[k].id == id;
    }
  }

  /** Because the catalog's ids are distinct, looking an entry's id up gives that entry. */
  lemma GetTemplateFindsEntry(i: nat)
    requires i < |UnitTemplates|
    ensures GetTemplate(UnitTemplates[i].id) == Some(UnitTemplates[i])
  {
    CatalogWellFormed();
    var r := GetTemplate(UnitTemplates[i].id);
    var k :| 0 <= k < |UnitTemplates| && UnitTemplates[k] == r.value && r.value.id == UnitTemplates[i].id;
    assert k == i;
  }

  /** A template found by id comes from the catalog, so its stats are positive. */
  lemma LookedUpTemplateWellFormed(id: string)
    requires IsCatalogId(id)
    ensures GetTemplate(id).Some?
    ensures GetTemplate(id).value in UnitTemplates
    ensures GetTemplate(id).value.id == id
    ensures GetTemplate(id).value.stats.attackSpeed > 0.0
    ensures GetTemplate(id).value.stats.maxHp > 0.0
    ensures GetTemplate(id).value.width > 0.0
    ensures 50 <= GetTemplate(id).value.cost <= 3000
  {
    CatalogWellFormed();
    CatalogCostsDerived();
  }

  /** Every catalog cost is the one derived from the entry's own maxHp, atk and def. */
  lemma CatalogCostsDerived()
    ensures forall t :: t in UnitTemplates ==> t.cost == CalculateCost(t.stats.maxHp, t.stats.atk, t.stats.def)
  {
  }
}
