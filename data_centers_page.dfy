/** The overview of app/dashboard/data-centers/page.tsx: per data center the number of
    racks and assets, the units its racks provide, the units counted as used, the
    utilisation badge, and the average utilisation across data centers. */
module DataCentersPage {
  import opened Common
  import opened Seqs
  import opened RackManagement
  import opened RacksPage

  /** The `stats` object of lines 39-45. */
  datatype DcStats = DcStats(totalRacks: nat, totalAssets: int, totalUnits: int, usedUnits: int, utilization: int)

  function AssetsOf(row: RackRow): int { |row.assets| }

  /** `rack.height_units || 0` (line 30): a null height is 0, with no default size. */
  function HeightOf(row: RackRow): int { row.rack.heightUnits }

  /** Every asset counts as one, whatever its height (line 33). */
  function One(a: Asset): int { 1 }

  /** The inner reduce of line 33. */
  function TallyOf(row: RackRow): int { Sum(row.assets, One) }

  /** The statistics of one data center from its racks (lines 28-35). */
  function Stats(racks: seq<RackRow>): DcStats {
    var totalUnits := Sum(racks, HeightOf);
    var usedUnits := Sum(racks, TallyOf);
    DcStats(|racks|, Sum(racks, AssetsOf), totalUnits, usedUnits,
            if totalUnits > 0 then Percent(usedUnits, totalUnits) else 0)
  }

  /** Counting one per element gives the length. */
  lemma {:induction false} TallyIsLength(assets: seq<Asset>)
    ensures Sum(assets, One) == |assets|
    decreases |assets|
  {
    if assets != [] {
      TallyIsLength(assets[..|assets| - 1]);
    }
  }

  /** The used units are the number of assets, so the two figures always agree; the
      utilisation is 0 when the racks provide no units, and between 0 and 100 when the
      assets do not outnumber the units. */
  lemma {:induction false} StatsSpec(racks: seq<RackRow>)
    ensures Stats(racks).usedUnits == Stats(racks).totalAssets
    ensures Stats(racks).totalUnits <= 0 ==> Stats(racks).utilization == 0
    ensures 0 <= Stats(racks).usedUnits
    ensures Stats(racks).usedUnits <= Stats(racks).totalUnits ==> 0 <= Stats(racks).utilization <= 100
    decreases |racks|
  {
    if racks != [] {
      var init := racks[..|racks| - 1];
      StatsSpec(init);
      TallyIsLength(racks[|racks| - 1].assets);
    }
    var st := Stats(racks);
    if st.totalUnits > 0 && st.usedUnits <= st.totalUnits {
      PercentBounds(st.usedUnits, st.totalUnits);
    }
  }

  /** Where the racks page counts an asset's height, this page counts the asset: the
      two used figures agree when every asset is in service and one unit high. */
  lemma {:induction false} UsedUnitsMatchRacksPage(racks: seq<RackRow>)
    requires forall i, j :: 0 <= i < |racks| && 0 <= j < |racks[i].assets| ==>
      InService(racks[i].assets[j]) && AssetUnits(racks[i].assets[j]) == 1
    ensures Stats(racks).usedUnits == Sum(racks, UsedUnitsOf)
    decreases |racks|
  {
    if racks != [] {
      var init := racks[..|racks| - 1];
      assert forall i :: 0 <= i < |init| ==> init[i] == racks[i];
      UsedUnitsMatchRacksPage(init);
      var last := racks[|racks| - 1];
      TallyIsLength(last.assets);
      UsedUnitsOfUnitAssets(last.assets);
    }
  }

  /** The racks page's used units of one-unit assets in service is their number. */
  lemma {:induction false} UsedUnitsOfUnitAssets(assets: seq<Asset>)
    requires forall j :: 0 <= j < |assets| ==> InService(assets[j]) && AssetUnits(assets[j]) == 1
    ensures UsedUnits(assets) == |assets|
    decreases |assets|
  {
    if assets != [] {
      var init := assets[..|assets| - 1];
      assert assets == init + [assets[|assets| - 1]];
      UsedUnitsOfUnitAssets(init);
      UsedUnitsAppend(init, assets[|assets| - 1]);
    }
  }

  // ---- Badge ----

  datatype Badge = DefaultBadge | SecondaryBadge | DestructiveBadge

  /** The badge variant of line 129. */
  function BadgeOf(utilization: int): (b: Badge)
    ensures b == DestructiveBadge <==> utilization > 80
    ensures b == SecondaryBadge <==> 60 < utilization <= 80
    ensures b == DefaultBadge <==> utilization <= 60
  {
    if utilization > 80 then DestructiveBadge
    else if utilization > 60 then SecondaryBadge
    else DefaultBadge
  }

  function BadgeRank(b: Badge): nat {
    match b
    case DefaultBadge => 0
    case SecondaryBadge => 1
    case DestructiveBadge => 2
  }

  /** A fuller data center never gets a milder badge. */
  lemma BadgeMonotone(u: int, v: int)
    requires u <= v
    ensures BadgeRank(BadgeOf(u)) <= BadgeRank(BadgeOf(v))
  {
  }

  // ---- Average ----

  function UtilizationOf(dc: seq<RackRow>): int { Stats(dc).utilization }

  /** "Avg Utilization" (lines 104-109): the rounded mean over the data centers, 0 when
      there is none. */
  function AverageUtilization(dcs: seq<seq<RackRow>>): int {
    Average(dcs, UtilizationOf)
  }

  /** When no data center holds more assets than units, the average lies in [0, 100]. */
  lemma AverageUtilizationBounds(dcs: seq<seq<RackRow>>)
    requires forall i :: 0 <= i < |dcs| ==> Stats(dcs[i]).usedUnits <= Stats(dcs[i]).totalUnits
    ensures 0 <= AverageUtilization(dcs) <= 100
  {
    forall i | 0 <= i < |dcs|
      ensures 0 <= UtilizationOf(dcs[i]) <= 100
    {
      StatsSpec(dcs[i]);
    }
    AverageBounds(dcs, UtilizationOf);
  }
}
