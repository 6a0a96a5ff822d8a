/** The capacity figures of app/dashboard/racks/page.tsx: per-rack used, total and
    available units with a utilisation percentage and its colour, the totals and average
    shown in the header cards, and the per-data-center capacity roll-up. */
module RacksPage {
  import opened Common
  import opened Seqs
  import opened RackManagement

  /** A rack row as the page fetches it, with its assets. */
  datatype RackRow = RackRow(rack: Rack, assets: seq<Asset>)

  /** The `stats` object of lines 39-45. */
  datatype RackStats = RackStats(usedUnits: int, totalUnits: int, availableUnits: int, utilization: int, assetCount: nat)

  /** Assets that take up space: every status but "decommissioned" (line 32). */
  predicate InService(a: Asset) {
    a.status != "decommissioned"
  }

  /** `height_units || 1` of one asset. */
  function AssetUnits(a: Asset): int {
    EffectiveHeight(a.heightUnits)
  }

  /** `usedUnits` (lines 31-33). */
  function UsedUnits(assets: seq<Asset>): int {
    Sum(Filter(assets, InService), AssetUnits)
  }

  /** `rack.height_units || 42` (line 34): never zero. */
  function TotalUnits(rack: Rack): (r: int)
    ensures r != 0
    ensures rack.heightUnits != 0 ==> r == rack.heightUnits
  {
    if rack.heightUnits == 0 then 42 else rack.heightUnits
  }

  /** The statistics of one rack (lines 29-47). */
  function Stats(row: RackRow): RackStats {
    var used := UsedUnits(row.assets);
    var total := TotalUnits(row.rack);
    RackStats(used, total, total - used, Percent(used, total), |row.assets|)
  }

  /** Adding an asset to a rack's list adds its units only when it is in service; a
      decommissioned asset changes nothing. */
  lemma UsedUnitsAppend(assets: seq<Asset>, a: Asset)
    ensures UsedUnits(assets + [a]) == UsedUnits(assets) + (if InService(a) then AssetUnits(a) else 0)
  {
    FilterAppend(assets, [a], InService);
    SumAppend(Filter(assets, InService), Filter([a], InService), AssetUnits);
    assert Filter([a], InService) == if InService(a) then [a] else [];
  }

  /** With no negative heights, every asset in service uses at least one unit. */
  lemma UsedUnitsAtLeastCount(assets: seq<Asset>)
    requires forall a :: a in assets ==> a.heightUnits >= 0
    ensures UsedUnits(assets) >= |Filter(assets, InService)|
  {
    var f := Filter(assets, InService);
    forall i | 0 <= i < |f|
      ensures 1 <= AssetUnits(f[i])
    {
      assert f[i] in f;
    }
    SumBounds(f, AssetUnits, 1, MaxHeight(f));
  }

  /** The largest effective height in a list, 1 for an empty list. */
  function MaxHeight(s: seq<Asset>): (m: int)
    ensures m >= 1
    ensures forall i :: 0 <= i < |s| ==> AssetUnits(s[i]) <= m
  {
    if s == [] then 1
    else
      var rest := MaxHeight(s[1..]);
      assert forall i :: 1 <= i < |s| ==> s[i] == s[1..][i - 1];
      if AssetUnits(s[0]) > rest then AssetUnits(s[0]) else rest
  }

  /** What the statistics mean: used plus available is the rack's size, so available
      units go negative exactly when the assets in service need more units than the
      rack has; every asset is counted, decommissioned or not; and the utilisation of a
      rack whose assets fit lies in [0, 100]. */
  lemma StatsSpec(row: RackRow)
    ensures Stats(row).usedUnits + Stats(row).availableUnits == Stats(row).totalUnits
    ensures Stats(row).availableUnits < 0 <==> UsedUnits(row.assets) > TotalUnits(row.rack)
    ensures Stats(row).assetCount == |row.assets|
    ensures 0 <= UsedUnits(row.assets) <= TotalUnits(row.rack) ==> 0 <= Stats(row).utilization <= 100
  {
    if 0 <= UsedUnits(row.assets) <= TotalUnits(row.rack) {
      PercentBounds(UsedUnits(row.assets), TotalUnits(row.rack));
    }
  }

  // ---- Colour ----

  datatype UtilizationColor = Green | Yellow | Red

  /** `getUtilizationColor` (lines 64-68). */
  function ColorOf(utilization: int): (c: UtilizationColor)
    ensures c == Red <==> utilization >= 90
    ensures c == Yellow <==> 70 <= utilization < 90
    ensures c == Green <==> utilization < 70
  {
    if utilization >= 90 then Red
    else if utilization >= 70 then Yellow
    else Green
  }

  function Severity(c: UtilizationColor): nat {
    match c
    case Green => 0
    case Yellow => 1
    case Red => 2
  }

  /** A fuller rack is never shown in a milder colour. */
  lemma ColorMonotone(u: int, v: int)
    requires u <= v
    ensures Severity(ColorOf(u)) <= Severity(ColorOf(v))
  {
  }

  // ---- Header cards ----

  function TotalUnitsOf(row: RackRow): int {
    Stats(row).totalUnits
  }

  function UsedUnitsOf(row: RackRow): int {
    Stats(row).usedUnits
  }

  function UtilizationOf(row: RackRow): int {
    Stats(row).utilization
  }

  /** "Total Units" (line 130): the sum of the racks' total units. */
  function AllUnits(rows: seq<RackRow>): int {
    Sum(rows, TotalUnitsOf)
  }

  /** A further rack adds its own total units to the card. */
  lemma AllUnitsAppend(rows: seq<RackRow>, row: RackRow)
    ensures AllUnits(rows + [row]) == AllUnits(rows) + TotalUnits(row.rack)
  {
    SumAppend(rows, [row], TotalUnitsOf);
  }

  /** With no negative heights every rack contributes at least one unit to the card. */
  lemma {:induction false} AllUnitsAtLeastCount(rows: seq<RackRow>)
    requires forall i :: 0 <= i < |rows| ==> rows[i].rack.heightUnits >= 0
    ensures AllUnits(rows) >= |rows|
    decreases |rows|
  {
    if rows != [] {
      var init := rows[..|rows| - 1];
      assert rows == init + [rows[|rows| - 1]];
      AllUnitsAtLeastCount(init);
      AllUnitsAppend(init, rows[|rows| - 1]);
    }
  }

  /** "Utilization" (lines 142-144): the rounded mean of the racks' percentages, 0 when
      there is no rack. */
  function AverageUtilization(rows: seq<RackRow>): int {
    Average(rows, UtilizationOf)
  }

  /** When every rack's assets fit in it, the average lies in [0, 100]. */
  lemma AverageUtilizationBounds(rows: seq<RackRow>)
    requires forall i :: 0 <= i < |rows| ==> 0 <= UsedUnits(rows[i].assets) <= TotalUnits(rows[i].rack)
    ensures 0 <= AverageUtilization(rows) <= 100
  {
    forall i | 0 <= i < |rows|
      ensures 0 <= UtilizationOf(rows[i]) <= 100
    {
      StatsSpec(rows[i]);
    }
    AverageBounds(rows, UtilizationOf);
  }

  // ---- Capacity per data center ----

  /** `dcRacks` of line 297: the racks of one data center. */
  function DcRacks(rows: seq<RackRow>, dataCenterId: string): seq<RackRow> {
    Filter(rows, (row: RackRow) => row.rack.dataCenterId == dataCenterId)
  }

  datatype Capacity = Capacity(racks: nat, totalUnits: int, usedUnits: int, utilization: int)

  /** The capacity card of one data center (lines 297-300): utilisation 0 when it has no
      units. */
  function DcCapacity(rows: seq<RackRow>, dataCenterId: string): (c: Capacity)
    ensures c.totalUnits <= 0 ==> c.utilization == 0
  {
    var dcRacks := DcRacks(rows, dataCenterId);
    var totalUnits := Sum(dcRacks, TotalUnitsOf);
    var usedUnits := Sum(dcRacks, UsedUnitsOf);
    Capacity(|dcRacks|, totalUnits, usedUnits, if totalUnits > 0 then Percent(usedUnits, totalUnits) else 0)
  }

  /** A further rack adds to its own data center's figures and to no other's. */
  lemma DcCapacityAppend(rows: seq<RackRow>, row: RackRow, dataCenterId: string)
    ensures var before := DcCapacity(rows, dataCenterId);
      var after := DcCapacity(rows + [row], dataCenterId);
      if row.rack.dataCenterId == dataCenterId then
        after.racks == before.racks + 1 && after.totalUnits == before.totalUnits + Stats(row).totalUnits
        && after.usedUnits == before.usedUnits + Stats(row).usedUnits
      else
        after == before
  {
    var p := (r: RackRow) => r.rack.dataCenterId == dataCenterId;
    FilterAppend(rows, [row], p);
    var tail := Filter([row], p);
    assert tail == if p(row) then [row] else [];
    SumAppend(Filter(rows, p), tail, TotalUnitsOf);
    SumAppend(Filter(rows, p), tail, UsedUnitsOf);
    if !p(row) {
      assert Filter(rows, p) + tail == Filter(rows, p);
    }
  }

  // ---- No lower bound on positions ----

  /** The server accepts a position below unit 1, so the page can show a rack that uses
      more units than it has: a one-unit rack holding an asset at unit 1 also takes an
      asset at unit 0, and then reports two units used and -1 available. */
  lemma OverfilledRackIsReachable()
    ensures var rack := Rack("r", "R", "dc", "1", "1", 1);
      var first := Asset("a", "A", 1, Some("r"), Some(1), "active");
      var second := Asset("b", "B", 1, None, None, "active");
      var assets := [first, second];
      var after := AfterMove(assets, "b", "r", 0);
      && MoveOutcome(assets, [rack], "b", "r", 0) == Moved
      && Stats(RackRow(rack, after)).usedUnits == 2
      && Stats(RackRow(rack, after)).availableUnits == -1
  {
    var rack := Rack("r", "R", "dc", "1", "1", 1);
    var first := Asset("a", "A", 1, Some("r"), Some(1), "active");
    var second := Asset("b", "B", 1, None, None, "active");
    var assets := [first, second];
    assert Filter(assets, (a: Asset) => a.id == "b") == [second];
    assert Filter([rack], (r: Rack) => r.id == "r") == [rack];
    assert assets[1..] == [second] && assets[1..][1..] == [];
    OthersInRackCons(assets, "r", "b");
    OthersInRackCons(assets[1..], "r", "b");
    assert OthersInRack(assets, "r", "b") == [first];
    var after := AfterMove(assets, "b", "r", 0);
    assert after == [first, second.(rackId := Some("r"), rackPosition := Some(0))];
    assert Filter(after, InService) == after;
  }
}
