/** The rack view of components/rack-management/interactive-rack.tsx: the assets sorted
    by position, the top-down unit map that shows which asset covers each unit, and the
    start positions offered to the user when placing an asset. */
module InteractiveRack {
  import opened Common
  import opened Seqs
  import opened RackManagement

  // ---- Sorted assets ----

  /** The comparator of line 51, `(a.rack_position || 0) - (b.rack_position || 0)`,
      as an ordering: a comes first when its start unit is not larger. */
  function ByPosition(): (Asset, Asset) -> bool {
    (a: Asset, b: Asset) => StartUnit(a) <= StartUnit(b)
  }

  lemma ByPositionIsTotalPreorder()
    ensures IsTotalPreorder(ByPosition())
  {
  }

  /** `rack.assets.sort(...)` (line 51): a stable sort by start unit. */
  function SortedAssets(assets: seq<Asset>): seq<Asset> {
    SortBy(assets, ByPosition())
  }

  /** The sorted list is the rack's assets, each as often as before, by start unit. */
  lemma SortedAssetsSpec(assets: seq<Asset>)
    ensures multiset(SortedAssets(assets)) == multiset(assets)
    ensures forall a :: a in SortedAssets(assets) <==> a in assets
    ensures var s := SortedAssets(assets);
      forall i, j :: 0 <= i < j < |s| ==> StartUnit(s[i]) <= StartUnit(s[j])
  {
    ByPositionIsTotalPreorder();
    SortBySorted(assets, ByPosition());
    var s := SortedAssets(assets);
    forall a
      ensures a in s <==> a in assets
    {
      assert a in s <==> a in multiset(s);
    }
  }

  // ---- The unit map ----

  /** Whether an asset's span, `rack_position || 0` to that plus `height_units || 1`
      minus one, contains the unit (lines 57-59). */
  predicate Covers(a: Asset, unit: int) {
    StartUnit(a) <= unit <= EndUnit(a)
  }

  /** The index of the first asset covering the unit, if any. */
  function FirstCovering(assets: seq<Asset>, unit: int): (k: Option<nat>)
    ensures k.Some? ==> k.value < |assets| && Covers(assets[k.value], unit)
    ensures k.Some? ==> forall j :: 0 <= j < k.value ==> !Covers(assets[j], unit)
    ensures k.None? <==> forall j :: 0 <= j < |assets| ==> !Covers(assets[j], unit)
  {
    if assets == [] then None
    else if Covers(assets[0], unit) then Some(0)
    else
      match FirstCovering(assets[1..], unit)
      case None => None
      case Some(k) => Some(k + 1)
  }

  /** `sortedAssets.find(...)` at lines 56-60. */
  function CoveringAsset(assets: seq<Asset>, unit: int): Option<Asset> {
    match FirstCovering(assets, unit)
    case None => None
    case Some(k) => Some(assets[k])
  }

  /** One entry of `rackUnits`. */
  datatype UnitView = UnitView(unitNumber: int, asset: Option<Asset>, isAssetStart: bool, isEmpty: bool)

  /** The entry for one unit (lines 56-66): the covering asset, whether the unit is the
      asset's `rack_position`, and whether no asset covers it. */
  function UnitAt(sorted: seq<Asset>, unitNumber: int): UnitView {
    var asset := CoveringAsset(sorted, unitNumber);
    UnitView(unitNumber, asset, asset.Some? && asset.value.rackPosition == Some(unitNumber), asset.None?)
  }

  /** `rackUnits` (lines 54-67): `Array.from({ length: height })`, entry i for unit
      height - i. A length below zero gives no entries. */
  function RackUnits(height: int, sorted: seq<Asset>): seq<UnitView> {
    seq(if height > 0 then height else 0, i => UnitAt(sorted, height - i))
  }

  /** The map lists the units from the top of the rack down to 1: entry i is unit
      height - i, so every unit of the rack appears exactly once. */
  lemma RackUnitsTopDown(height: int, sorted: seq<Asset>)
    ensures var units := RackUnits(height, sorted);
      && |units| == (if height > 0 then height else 0)
      && (forall i :: 0 <= i < |units| ==> units[i].unitNumber == height - i)
      && (forall i :: 0 <= i < |units| ==> 1 <= units[i].unitNumber <= height)
      && (forall i, j :: 0 <= i < j < |units| ==> units[i].unitNumber > units[j].unitNumber)
  {
    var units := RackUnits(height, sorted);
    forall i | 0 <= i < |units|
      ensures units[i] == UnitAt(sorted, height - i)
    {
    }
  }

  /** What each entry shows, stated against the unsorted asset list: the shown asset is
      one of the rack's assets and covers the unit, it is the first covering one in
      position order, the unit is empty exactly when no asset covers it, and it is marked
      as a start exactly at the asset's own `rack_position`. */
  lemma {:induction false} RackUnitsShow(height: int, assets: seq<Asset>, i: int)
    requires 0 <= i < height
    ensures var sorted := SortedAssets(assets);
      var unit := RackUnits(height, sorted)[i];
      && unit.unitNumber == height - i
      && (unit.isEmpty <==> forall a :: a in assets ==> !Covers(a, height - i))
      && (unit.asset.Some? ==> unit.asset.value in assets && Covers(unit.asset.value, height - i))
      && (unit.asset.Some? ==>
            exists k :: 0 <= k < |sorted| && sorted[k] == unit.asset.value &&
              (forall j :: 0 <= j < k ==> !Covers(sorted[j], height - i)))
      && (unit.isAssetStart <==> unit.asset.Some? && unit.asset.value.rackPosition == Some(height - i))
  {
    SortedAssetsSpec(assets);
    var sorted := SortedAssets(assets);
    RackUnitAt(height, sorted, i);
    UnitAtSpec(sorted, assets, height - i);
    var k := FirstCovering(sorted, height - i);
    if k.Some? {
      assert sorted[k.value] == RackUnits(height, sorted)[i].asset.value;
    }
  }

  lemma RackUnitAt(height: int, sorted: seq<Asset>, i: int)
    requires 0 <= i < height
    ensures RackUnits(height, sorted)[i] == UnitAt(sorted, height - i)
  {
  }

  /** The entry of one unit, over any ordering of the rack's assets. */
  lemma UnitAtSpec(sorted: seq<Asset>, assets: seq<Asset>, u: int)
    requires forall a :: a in sorted <==> a in assets
    ensures var unit := UnitAt(sorted, u);
      && unit.unitNumber == u
      && (unit.isEmpty <==> forall a :: a in assets ==> !Covers(a, u))
      && (unit.asset.Some? ==> unit.asset.value in assets && Covers(unit.asset.value, u))
      && (unit.asset.Some? ==>
            exists k :: 0 <= k < |sorted| && sorted[k] == unit.asset.value &&
              (forall j :: 0 <= j < k ==> !Covers(sorted[j], u)))
      && (unit.isAssetStart <==> unit.asset.Some? && unit.asset.value.rackPosition == Some(u))
  {
    var k := FirstCovering(sorted, u);
    if k.None? {
      forall a | a in assets
        ensures !Covers(a, u)
      {
        assert a in sorted;
        var j :| 0 <= j < |sorted| && sorted[j] == a;
      }
    } else {
      assert sorted[k.value] in assets;
      assert CoveringAsset(sorted, u) == Some(sorted[k.value]);
    }
  }

  /** Spans of distinct entries share no unit. */
  ghost predicate Disjoint(assets: seq<Asset>) {
    forall i, j, u :: 0 <= i < |assets| && 0 <= j < |assets| && i != j && Covers(assets[i], u) ==> !Covers(assets[j], u)
  }

  /** When the rack's assets do not overlap, the order no longer matters: every unit shows
      the one asset that covers it, and an asset whose position is a unit of the rack is
      marked as starting there. */
  lemma {:induction false} RackUnitsOfDisjoint(height: int, assets: seq<Asset>, n: int)
    requires Disjoint(assets) && 0 <= n < |assets|
    requires 1 <= StartUnit(assets[n]) <= height && 1 <= EffectiveHeight(assets[n].heightUnits)
    ensures var units := RackUnits(height, SortedAssets(assets));
      forall u :: 1 <= u <= height && Covers(assets[n], u) ==> units[height - u].asset == Some(assets[n])
    ensures var units := RackUnits(height, SortedAssets(assets));
      assets[n].rackPosition.Some? ==> units[height - StartUnit(assets[n])].isAssetStart
  {
    var units := RackUnits(height, SortedAssets(assets));
    forall u | 1 <= u <= height && Covers(assets[n], u)
      ensures units[height - u].asset == Some(assets[n])
    {
      RackUnitsShow(height, assets, height - u);
      assert height - (height - u) == u;
      assert assets[n] in assets;
      assert units[height - u] == UnitAt(SortedAssets(assets), u);
      assert !units[height - u].isEmpty;
      var shown := units[height - u].asset.value;
      var m :| 0 <= m < |assets| && assets[m] == shown;
      assert m == n;
    }
    var s := StartUnit(assets[n]);
    assert Covers(assets[n], s);
    RackUnitsShow(height, assets, height - s);
  }

  // ---- Offered positions ----

  /** `availableAssets.find((a) => a.id === selectedAsset)` (line 167). */
  function FindById(assets: seq<Asset>, id: string): (r: Option<Asset>)
    ensures r.Some? ==> r.value in assets && r.value.id == id
    ensures r.None? <==> forall a :: a in assets ==> a.id != id
  {
    if assets == [] then None
    else if assets[0].id == id then Some(assets[0])
    else FindById(assets[1..], id)
  }

  /** `sortedAssets.some(...)` at lines 177-181: some asset covers the unit. */
  predicate Occupied(assets: seq<Asset>, unit: int) {
    exists a :: a in assets && Covers(a, unit)
  }

  /** No unit of pos .. pos + height - 1 is covered. */
  predicate SpanFree(assets: seq<Asset>, pos: int, height: int) {
    forall u :: pos <= u < pos + height ==> !Occupied(assets, u)
  }

  /** `getAvailablePositions` (lines 166-193): no positions for an unknown selection;
      otherwise, in increasing order, exactly the start positions from 1 to
      height - h + 1 whose span of h units is free, h being `height_units || 1`. */
  method GetAvailablePositions(availableAssets: seq<Asset>, selectedAsset: string, rackHeight: int, sortedAssets: seq<Asset>)
    returns (positions: seq<int>)
    ensures FindById(availableAssets, selectedAsset).None? ==> positions == []
    ensures forall i, j :: 0 <= i < j < |positions| ==> positions[i] < positions[j]
    ensures FindById(availableAssets, selectedAsset).Some? ==>
      var h := EffectiveHeight(FindById(availableAssets, selectedAsset).value.heightUnits);
      forall p :: p in positions <==> 1 <= p <= rackHeight - h + 1 && SpanFree(sortedAssets, p, h)
  {
    var selectedAssetData := FindById(availableAssets, selectedAsset);
    if selectedAssetData.None? {
      return [];
    }
    var assetHeight := EffectiveHeight(selectedAssetData.value.heightUnits);
    positions := [];
    var pos := 1;
    while pos <= rackHeight - assetHeight + 1
      invariant 1 <= pos && (pos <= rackHeight - assetHeight + 2 || pos == 1)
      invariant forall i, j :: 0 <= i < j < |positions| ==> positions[i] < positions[j]
      invariant forall i :: 0 <= i < |positions| ==> positions[i] < pos
      invariant forall p :: p in positions <==> 1 <= p < pos && SpanFree(sortedAssets, p, assetHeight)
      decreases rackHeight - assetHeight + 1 - pos
    {
      var isFree := true;
      var checkPos := pos;
      while checkPos < pos + assetHeight
        invariant pos <= checkPos && (checkPos <= pos + assetHeight || checkPos == pos)
        invariant isFree
        invariant forall u :: pos <= u < checkPos ==> !Occupied(sortedAssets, u)
        decreases pos + assetHeight - checkPos
      {
        var hasAsset := Occupied(sortedAssets, checkPos);
        if hasAsset {
          isFree := false;
          break;
        }
        checkPos := checkPos + 1;
      }
      if isFree {
        positions := positions + [pos];
      }
      pos := pos + 1;
    }
  }

  // ---- Agreement with the server ----

  /** Every position the view offers for an available asset passes the server's checks,
      so `moveAssetToRack` places the asset there. This holds when ids are unique, no
      height is negative, the rack is found, and the view's asset list holds every asset
      the table has in that rack. */
  lemma OfferedPositionsAcceptedByServer(assets: seq<Asset>, racks: seq<Rack>, rack: Rack, placed: seq<Asset>,
                                         selectedAsset: string, p: int)
    requires RackById(racks, rack.id) == Some(rack)
    requires UniqueIds(assets)
    requires forall a :: a in assets ==> a.heightUnits >= 0
    requires forall a :: a in assets && a.rackId == Some(rack.id) ==> a in placed
    requires FindById(AvailableAssets(assets), selectedAsset).Some?
    requires var h := EffectiveHeight(FindById(AvailableAssets(assets), selectedAsset).value.heightUnits);
      1 <= p <= rack.heightUnits - h + 1 && SpanFree(SortedAssets(placed), p, h)
    ensures MoveOutcome(assets, racks, selectedAsset, rack.id, p) == Moved
  {
    var x := FindById(AvailableAssets(assets), selectedAsset).value;
    AvailableAssetFound(assets, selectedAsset);
    var h := EffectiveHeight(x.heightUnits);
    var sorted := SortedAssets(placed);
    SortedAssetsSpec(placed);
    var others := OthersInRack(assets, rack.id, selectedAsset);
    forall b | b in others
      ensures !ConflictsWith(b, p, p + h - 1)
    {
      FreeSpanHasNoConflict(sorted, b, p, h);
    }
    MoveSucceedsIff(assets, racks, selectedAsset, rack.id, p);
  }

  /** The asset the view finds among the available ones is the one the server looks up. */
  lemma AvailableAssetFound(assets: seq<Asset>, selectedAsset: string)
    requires UniqueIds(assets)
    requires FindById(AvailableAssets(assets), selectedAsset).Some?
    ensures AssetById(assets, selectedAsset) == FindById(AvailableAssets(assets), selectedAsset)
    ensures FindById(AvailableAssets(assets), selectedAsset).value in assets
  {
    var x := FindById(AvailableAssets(assets), selectedAsset).value;
    AvailableAssetsSpec(assets);
    var ix :| 0 <= ix < |assets| && assets[ix] == x;
    AssetByIdOfUnique(assets, ix);
  }

  /** An asset that covers no unit of a free span does not conflict with it, when both
      spans are non-empty. */
  lemma FreeSpanHasNoConflict(sorted: seq<Asset>, b: Asset, p: int, h: int)
    requires b in sorted && SpanFree(sorted, p, h)
    requires h >= 1 && b.heightUnits >= 0
    ensures !ConflictsWith(b, p, p + h - 1)
  {
    ConflictsIffIntersect(p, p + h - 1, StartUnit(b), EndUnit(b));
    var u := if p < StartUnit(b) then StartUnit(b) else p;
    if u < p + h {
      assert !Occupied(sorted, u);
      assert !Covers(b, u);
    }
  }

  /** Without the height assumption the two sides disagree: an asset of height -1 needs
      no free unit in the view, which offers position 1 of a two-unit rack that another
      asset fills, while the server's three-way test reports the conflict. */
  lemma NegativeHeightOfferRefused()
    ensures var filler := Asset("b", "B", 2, Some("r"), Some(1), "active");
      var selected := Asset("a", "A", -1, None, None, "active");
      var assets := [filler, selected];
      var rack := Rack("r", "R", "dc", "1", "1", 2);
      && FindById(AvailableAssets(assets), "a") == Some(selected)
      && 1 <= 1 <= rack.heightUnits - EffectiveHeight(selected.heightUnits) + 1
      && SpanFree(SortedAssets([filler]), 1, EffectiveHeight(selected.heightUnits))
      && MoveOutcome(assets, [rack], "a", "r", 1) == PositionConflict("B")
  {
    var filler := Asset("b", "B", 2, Some("r"), Some(1), "active");
    var selected := Asset("a", "A", -1, None, None, "active");
    var assets := [filler, selected];
    var rack := Rack("r", "R", "dc", "1", "1", 2);
    assert Filter(assets, IsPlaceable) == [selected];
    assert AvailableAssets(assets) == [selected];
    assert Filter(assets, (a: Asset) => a.id == "a") == [selected];
    assert Filter([rack], (r: Rack) => r.id == "r") == [rack];
    assert assets[1..] == [selected] && assets[1..][1..] == [];
    OthersInRackCons(assets, "r", "a");
    OthersInRackCons(assets[1..], "r", "a");
    assert OthersInRack(assets, "r", "a") == [filler];
  }
}
