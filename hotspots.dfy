/**
 * The crime-hotspot table of the route planner (maplegend.py): the
 * background pass that nudges every hotspot's risk level, and the lookups
 * that turn a level into a marker colour and a tourist category into an
 * icon.
 *
 * The random numbers of a pass are inputs: one `choice([-1, 0, 1])` per
 * row when the risk column exists, one `randint(1, 5)` per row when it is
 * created.
 */
module Hotspots {
  import opened Wrappers

  /** A value of `random.randint(1, 5)`. */
  type Level = v: int | 1 <= v <= 5 witness 1

  /** A value of `random.choice([-1, 0, 1])`. */
  type Change = c: int | -1 <= c <= 1

  /** `max(1, min(5, v))`: the nearest level in [1, 5]. */
  function ClampLevel(v: int): (r: int)
    ensures 1 <= r <= 5
    ensures 1 <= v <= 5 ==> r == v
    ensures v < 1 ==> r == 1
    ensures v > 5 ==> r == 5
  {
    if v < 1 then 1 else if v > 5 then 5 else v
  }

  /**
   * One row's new level: always in [1, 5]; a level already in range moves
   * by at most one, and the bounds absorb a step outwards.
   */
  function NextLevel(level: int, change: Change): (r: int)
    ensures 1 <= r <= 5
    ensures 1 <= level <= 5 ==> -1 <= r - level <= 1
    ensures level == 5 && change == 1 ==> r == 5
    ensures level == 1 && change == -1 ==> r == 1
    ensures 1 <= level + change <= 5 ==> r == level + change
  {
    ClampLevel(level + change)
  }

  /** The levels after one pass over the whole column. */
  function UpdatedLevels(levels: seq<int>, changes: seq<Change>): (r: seq<int>)
    requires |changes| == |levels|
    ensures |r| == |levels|
    ensures forall i :: 0 <= i < |r| ==> r[i] == NextLevel(levels[i], changes[i])
  {
    seq(|levels|, i requires 0 <= i < |levels| => NextLevel(levels[i], changes[i]))
  }

  ghost predicate InRange(levels: seq<int>) {
    forall i :: 0 <= i < |levels| ==> 1 <= levels[i] <= 5
  }

  /**
   * After a pass every level is in [1, 5], whatever it was before; a column
   * that was in range moves each row by at most one.
   */
  lemma UpdatedLevelsInRange(levels: seq<int>, changes: seq<Change>)
    requires |changes| == |levels|
    ensures InRange(UpdatedLevels(levels, changes))
    ensures InRange(levels) ==> forall i :: 0 <= i < |levels| ==>
      -1 <= UpdatedLevels(levels, changes)[i] - levels[i] <= 1
  {
  }

  /** The column after the background thread's passes, one per sleep interval. */
  function Passes(levels: seq<int>, passes: seq<seq<Change>>): (r: seq<int>)
    requires forall p :: 0 <= p < |passes| ==> |passes[p]| == |levels|
    ensures |r| == |levels|
    decreases |passes|
  {
    if passes == [] then levels
    else Passes(UpdatedLevels(levels, passes[0]), passes[1..])
  }

  /**
   * After at least one pass the column is in range, and stays so; a column
   * that starts in range is in range after any number of passes.
   */
  lemma {:induction false} PassesInRange(levels: seq<int>, passes: seq<seq<Change>>)
    requires forall p :: 0 <= p < |passes| ==> |passes[p]| == |levels|
    requires InRange(levels) || passes != []
    ensures InRange(Passes(levels, passes))
    decreases |passes|
  {
    if passes != [] {
      UpdatedLevelsInRange(levels, passes[0]);
      PassesInRange(UpdatedLevels(levels, passes[0]), passes[1..]);
    }
  }

  /** The position of a hotspot: the `lat` and `lng` columns of its row. */
  datatype Location = Location(lat: real, lng: real)

  /** The hotspot table as the background pass reads and rewrites it. */
  class HotspotTable {
    /** The columns the pass never touches. */
    const locations: seq<Location>
    var hasRiskColumn: bool
    /** The `risk_level` column; meaningless while `hasRiskColumn` is false. */
    var riskLevel: array<int>

    ghost predicate Valid()
      reads this
    {
      riskLevel.Length == |locations|
    }

    constructor (locations: seq<Location>, levels: Option<seq<int>>)
      requires levels.Some? ==> |levels.value| == |locations|
      ensures Valid() && fresh(riskLevel)
      ensures this.locations == locations && hasRiskColumn == levels.Some?
      ensures levels.Some? ==> riskLevel[..] == levels.value
    {
      this.locations := locations;
      hasRiskColumn := levels.Some?;
      if levels.Some? {
        var column := levels.value;
        riskLevel := new int[|locations|](i requires 0 <= i < |locations| => column[i]);
      } else {
        riskLevel := new int[|locations|];
      }
    }

    /**
     * One pass of `simulate_ai_updates` (lines 14-20). Without a risk column
     * every row gets a fresh random level; otherwise each row in turn gets
     * `max(1, min(5, level + change))` written in place. Either way the
     * column exists afterwards, every level is in [1, 5], and the other
     * columns and the row count are untouched.
     */
    method UpdatePass(changes: seq<Change>, draws: seq<Level>)
      requires Valid()
      requires |changes| == |locations| && |draws| == |locations|
      modifies this, riskLevel
      ensures Valid() && hasRiskColumn
      ensures InRange(riskLevel[..])
      ensures !old(hasRiskColumn) ==> fresh(riskLevel) && riskLevel[..] == draws
      ensures old(hasRiskColumn) ==>
        riskLevel == old(riskLevel) && riskLevel[..] == UpdatedLevels(old(riskLevel[..]), changes)
    {
      if !hasRiskColumn {
        riskLevel := new int[|draws|](i requires 0 <= i < |draws| => draws[i]);
        hasRiskColumn := true;
        return;
      }
      var column := riskLevel;
      for i := 0 to column.Length
        modifies column
        invariant forall k :: 0 <= k < i ==> column[k] == NextLevel(old(column[k]), changes[k])
        invariant forall k :: i <= k < column.Length ==> column[k] == old(column[k])
      {
        column[i] := NextLevel(column[i], changes[i]);
      }
      UpdatedLevelsInRange(old(riskLevel[..]), changes);
    }
  }

  // ---- Marker colours and icons ----

  /** `risk_colors`. */
  const RiskColors: map<int, string> := map[1 := "green", 2 := "yellow", 3 := "orange", 4 := "red", 5 := "black"]

  /** `risk_colors.get(risk, "red")`: the colour of a level, red for anything unlisted. */
  function RiskColor(level: int): (color: string)
    ensures level == 1 ==> color == "green"
    ensures level == 2 ==> color == "yellow"
    ensures level == 3 ==> color == "orange"
    ensures level == 4 ==> color == "red"
    ensures level == 5 ==> color == "black"
    ensures !(1 <= level <= 5) ==> color == "red"
  {
    if level in RiskColors then RiskColors[level] else "red"
  }

  /** A marker is red exactly when its level is 4 or not a listed level. */
  lemma RedMarkers(level: int)
    ensures RiskColor(level) == "red" <==> level == 4 || !(1 <= level <= 5)
  {
  }

  /** What `row.get("risk_level", 3)` finds in a row of the hotspot file. */
  datatype RiskCell = NoColumn | Blank | Number(value: int)

  /**
   * `int(row.get("risk_level", 3))` at initial load: 3 without a risk
   * column, the cell's value otherwise, and the `ValueError` of `int(nan)`
   * for a blank cell.
   */
  function InitialRisk(cell: RiskCell): (risk: Result<int>)
    ensures cell == NoColumn ==> risk == Ok(3)
    ensures cell.Number? ==> risk == Ok(cell.value)
    ensures risk.Err? <==> cell == Blank
  {
    match cell
    case NoColumn => Ok(3)
    case Blank => Err("ValueError: cannot convert float NaN to integer")
    case Number(v) => Ok(v)
  }

  /** A hotspot without a risk column is drawn orange, the colour of level 3. */
  lemma DefaultRiskColor()
    ensures InitialRisk(NoColumn) == Ok(3) && RiskColor(InitialRisk(NoColumn).value) == "orange"
  {
  }

  /** `category_icons`. */
  const CategoryIcons: map<string, string> := map[
    "Monuments & Heritage Sites" := "\U{1F3DB}",
    "Forts & Palaces" := "\U{1F3F0}",
    "Temples & Religious Sites" := "\U{1F6D5}",
    "Caves & Ancient Sites" := "\U{26F0}",
    "Natural Wonders & Scenic Spots" := "\U{1F304}",
    "Wildlife & National Parks" := "\U{1F405}",
    "Modern Attractions" := "\U{1F3A1}"]

  /** The pin used for a category the table does not list. */
  const DefaultIcon: string := "\U{1F4CD}"

  /** `category_icons.get(category, "📍")`. */
  function CategoryIcon(category: string): (icon: string)
    ensures category in CategoryIcons ==> icon == CategoryIcons[category]
    ensures category !in CategoryIcons ==> icon == DefaultIcon
  {
    if category in CategoryIcons then CategoryIcons[category] else DefaultIcon
  }

  /** The pin is not the icon of any listed category, so it marks exactly the unknown categories. */
  lemma DefaultIconMeansUnknown(category: string)
    ensures CategoryIcon(category) == DefaultIcon <==> category !in CategoryIcons
  {
    if category in CategoryIcons {
      assert CategoryIcons[category] != DefaultIcon;
    }
  }
}
