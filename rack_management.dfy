/** The rack server actions of lib/actions/rack-management.ts: placing an asset in a
    rack slot (`moveAssetToRack`) with its fit test and overlap scan, taking it out
    again, the position guard of `createRack`, the refusal of `deleteRack`, and the
    listing of assets that can still be placed. */
module RackManagement {
  import opened Common
  import opened Seqs

  /** A row of `assets`. A null height is 0 (both are falsy). */
  datatype Asset = Asset(id: string, name: string, heightUnits: int, rackId: Option<string>,
                         rackPosition: Option<int>, status: string)

  /** A row of `racks`. A null height is 0. */
  datatype Rack = Rack(id: string, name: string, dataCenterId: string, rowPosition: string,
                       columnPosition: string, heightUnits: int)

  /** `height_units || 1`: an absent or zero height counts as one unit. */
  function EffectiveHeight(heightUnits: int): int {
    if heightUnits == 0 then 1 else heightUnits
  }

  /** `rack_position || 0`. */
  function StartUnit(a: Asset): int {
    if a.rackPosition.Some? then a.rackPosition.value else 0
  }

  /** The last unit an asset occupies. */
  function EndUnit(a: Asset): int {
    StartUnit(a) + EffectiveHeight(a.heightUnits) - 1
  }

  /** The overlap test of lines 167-171, as written: the new span's start or end lies in
      the existing span, or the new span encloses it. */
  predicate Conflicts(newStart: int, newEnd: int, existingStart: int, existingEnd: int) {
    || (newStart >= existingStart && newStart <= existingEnd)
    || (newEnd >= existingStart && newEnd <= existingEnd)
    || (newStart <= existingStart && newEnd >= existingEnd)
  }

  /** For two non-empty spans the three-way test is exactly interval intersection. */
  lemma ConflictsIffIntersect(newStart: int, newEnd: int, existingStart: int, existingEnd: int)
    requires newStart <= newEnd && existingStart <= existingEnd
    ensures Conflicts(newStart, newEnd, existingStart, existingEnd) <==> newStart <= existingEnd && existingStart <= newEnd
  {
  }

  /** With a negative height the existing span is empty, yet the test still reports a
      conflict: an asset at unit 5 with height -3 (span 5..1) blocks unit 2. */
  lemma ConflictsWithEmptySpan()
    ensures Conflicts(2, 2, 5, 5 + EffectiveHeight(-3) - 1)
    ensures !(5 <= 2 && 2 <= 5 + EffectiveHeight(-3) - 1)
  {
  }

  /** Whether an existing asset conflicts with the span newStart..newEnd. */
  predicate ConflictsWith(existing: Asset, newStart: int, newEnd: int) {
    Conflicts(newStart, newEnd, StartUnit(existing), EndUnit(existing))
  }

  /** The index of the first asset in scan order that conflicts, if any. */
  function FirstConflict(others: seq<Asset>, newStart: int, newEnd: int): (k: Option<nat>)
    ensures k.Some? ==> k.value < |others| && ConflictsWith(others[k.value], newStart, newEnd)
    ensures k.Some? ==> forall j :: 0 <= j < k.value ==> !ConflictsWith(others[j], newStart, newEnd)
    ensures k.None? <==> forall j :: 0 <= j < |others| ==> !ConflictsWith(others[j], newStart, newEnd)
  {
    if others == [] then None
    else if ConflictsWith(others[0], newStart, newEnd) then Some(0)
    else
      match FirstConflict(others[1..], newStart, newEnd)
      case None => None
      case Some(k) => Some(k + 1)
  }

  /** `.eq("id", id).single()` on `assets`. */
  function AssetById(assets: seq<Asset>, id: string): Option<Asset> {
    Single(Filter(assets, (a: Asset) => a.id == id))
  }

  /** `.eq("id", id).single()` on `racks`. */
  function RackById(racks: seq<Rack>, id: string): Option<Rack> {
    Single(Filter(racks, (r: Rack) => r.id == id))
  }

  /** No two rows of `assets` share an id (the table's primary key). */
  predicate UniqueIds(assets: seq<Asset>) {
    forall i, j :: 0 <= i < |assets| && 0 <= j < |assets| && assets[i].id == assets[j].id ==> i == j
  }

  /** With unique ids the lookup finds every row by its id. */
  lemma AssetByIdOfUnique(assets: seq<Asset>, i: int)
    requires UniqueIds(assets) && 0 <= i < |assets|
    ensures AssetById(assets, assets[i].id) == Some(assets[i])
  {
    FilterUnique(assets, (a: Asset) => a.id == assets[i].id, i);
  }

  /** The assets the overlap scan visits (lines 154-158): those in the target rack other
      than the one being moved, in table order. */
  function OthersInRack(assets: seq<Asset>, rackId: string, assetId: string): seq<Asset> {
    Filter(assets, (a: Asset) => a.rackId == Some(rackId) && a.id != assetId)
  }

  /** The other assets in a rack, one table row at a time. */
  lemma OthersInRackCons(assets: seq<Asset>, rackId: string, assetId: string)
    requires assets != []
    ensures OthersInRack(assets, rackId, assetId) ==
      (if assets[0].rackId == Some(rackId) && assets[0].id != assetId then [assets[0]] else []) + OthersInRack(assets[1..], rackId, assetId)
  {
  }

  /** What `moveAssetToRack` reports. */
  datatype MoveResult = Moved | AssetNotFound | RackNotFound | DoesNotFit | PositionConflict(assetName: string)

  /** The error text returned for a result; None on success. */
  function MoveError(r: MoveResult): Option<string> {
    match r
    case Moved => None
    case AssetNotFound => Some("Asset not found")
    case RackNotFound => Some("Rack not found")
    case DoesNotFit => Some("Asset doesn't fit at this position")
    case PositionConflict(name) => Some("Position conflicts with " + name)
  }

  /** The outcome of `moveAssetToRack` (lines 129-199) over the current tables. */
  function MoveOutcome(assets: seq<Asset>, racks: seq<Rack>, assetId: string, rackId: string, rackPosition: int): MoveResult {
    match AssetById(assets, assetId)
    case None => AssetNotFound
    case Some(asset) =>
      match RackById(racks, rackId)
      case None => RackNotFound
      case Some(rack) =>
        var assetHeight := EffectiveHeight(asset.heightUnits);
        if rackPosition + assetHeight - 1 > rack.heightUnits then DoesNotFit
        else
          ScanVerdict(OthersInRack(assets, rackId, assetId), rackPosition, rackPosition + assetHeight - 1)
  }

  /** The verdict of the scan of lines 154-174: the first overlapping asset's name, or
      success. */
  function ScanVerdict(others: seq<Asset>, newStart: int, newEnd: int): MoveResult {
    match FirstConflict(others, newStart, newEnd)
    case Some(k) => PositionConflict(others[k].name)
    case None => Moved
  }

  /** Every asset with the given id placed at rackPosition in the rack; nothing else
      changes (lines 178-184). */
  function AfterMove(assets: seq<Asset>, assetId: string, rackId: string, rackPosition: int): (r: seq<Asset>)
    ensures |r| == |assets|
    ensures forall i :: 0 <= i < |r| ==>
      r[i] == if assets[i].id == assetId then assets[i].(rackId := Some(rackId), rackPosition := Some(rackPosition)) else assets[i]
  {
    seq(|assets|, i requires 0 <= i < |assets| =>
      if assets[i].id == assetId then assets[i].(rackId := Some(rackId), rackPosition := Some(rackPosition)) else assets[i])
  }

  /** Every asset with the given id taken out of its rack (lines 205-211). */
  function AfterRemove(assets: seq<Asset>, assetId: string): (r: seq<Asset>)
    ensures |r| == |assets|
    ensures forall i :: 0 <= i < |r| ==>
      r[i] == if assets[i].id == assetId then assets[i].(rackId := None, rackPosition := None) else assets[i]
  {
    seq(|assets|, i requires 0 <= i < |assets| =>
      if assets[i].id == assetId then assets[i].(rackId := None, rackPosition := None) else assets[i])
  }

  /** The lookups come first: a missing asset or rack is reported whatever the position. */
  lemma MoveLookupsFirst(assets: seq<Asset>, racks: seq<Rack>, assetId: string, rackId: string, rackPosition: int)
    ensures AssetById(assets, assetId).None? ==> MoveOutcome(assets, racks, assetId, rackId, rackPosition) == AssetNotFound
    ensures AssetById(assets, assetId).Some? && RackById(racks, rackId).None? ==>
      MoveOutcome(assets, racks, assetId, rackId, rackPosition) == RackNotFound
  {
  }

  /** Once asset and rack are found, the placement is refused as not fitting exactly when
      its last unit lies above the rack's height; no lower bound is checked. */
  lemma MoveFitTest(assets: seq<Asset>, racks: seq<Rack>, assetId: string, rackId: string, rackPosition: int)
    requires AssetById(assets, assetId).Some? && RackById(racks, rackId).Some?
    ensures MoveOutcome(assets, racks, assetId, rackId, rackPosition) == DoesNotFit <==>
      rackPosition + EffectiveHeight(AssetById(assets, assetId).value.heightUnits) - 1 > RackById(racks, rackId).value.heightUnits
  {
  }

  /** A move succeeds exactly when asset and rack are found, the asset fits, and no
      other asset of the rack conflicts; a conflict names the first one in scan order. */
  lemma MoveSucceedsIff(assets: seq<Asset>, racks: seq<Rack>, assetId: string, rackId: string, rackPosition: int)
    ensures var r := MoveOutcome(assets, racks, assetId, rackId, rackPosition);
      r == Moved <==>
        && AssetById(assets, assetId).Some? && RackById(racks, rackId).Some?
        && rackPosition + EffectiveHeight(AssetById(assets, assetId).value.heightUnits) - 1 <= RackById(racks, rackId).value.heightUnits
        && forall b :: b in OthersInRack(assets, rackId, assetId) ==>
             !ConflictsWith(b, rackPosition, rackPosition + EffectiveHeight(AssetById(assets, assetId).value.heightUnits) - 1)
  {
    var r := MoveOutcome(assets, racks, assetId, rackId, rackPosition);
    if AssetById(assets, assetId).Some? && RackById(racks, rackId).Some? {
      var others := OthersInRack(assets, rackId, assetId);
      var h := EffectiveHeight(AssetById(assets, assetId).value.heightUnits);
      if FirstConflict(others, rackPosition, rackPosition + h - 1).None? {
        forall b | b in others
          ensures !ConflictsWith(b, rackPosition, rackPosition + h - 1)
        {
          assert b in others;
          var j :| 0 <= j < |others| && others[j] == b;
        }
      } else {
        var k := FirstConflict(others, rackPosition, rackPosition + h - 1).value;
        assert others[k] in others;
      }
    }
  }

  /** After a successful move the moved asset's span, [p, p + h - 1], shares no unit with
      any other asset in the rack, provided every height involved is at least one. */
  lemma MovedSpanIsFree(assets: seq<Asset>, racks: seq<Rack>, assetId: string, rackId: string, rackPosition: int)
    requires MoveOutcome(assets, racks, assetId, rackId, rackPosition) == Moved
    requires forall a :: a in assets ==> EffectiveHeight(a.heightUnits) >= 1
    ensures var after := AfterMove(assets, assetId, rackId, rackPosition);
      forall i, j :: 0 <= i < |after| && 0 <= j < |after| && after[i].id == assetId && after[j].id != assetId && after[j].rackId == Some(rackId) ==>
        EndUnit(after[j]) < StartUnit(after[i]) || EndUnit(after[i]) < StartUnit(after[j])
  {
    MoveSucceedsIff(assets, racks, assetId, rackId, rackPosition);
    var after := AfterMove(assets, assetId, rackId, rackPosition);
    var asset := AssetById(assets, assetId).value;
    forall i, j | 0 <= i < |after| && 0 <= j < |after| && after[i].id == assetId && after[j].id != assetId && after[j].rackId == Some(rackId)
      ensures EndUnit(after[j]) < StartUnit(after[i]) || EndUnit(after[i]) < StartUnit(after[j])
    {
      var f := Filter(assets, (a: Asset) => a.id == assetId);
      assert assets[i] in f && |f| == 1;
      assert f == [f[0]];
      assert assets[i] == asset;
      assert after[j] == assets[j];
      assert assets[j] in OthersInRack(assets, rackId, assetId);
      ConflictsIffIntersect(rackPosition, rackPosition + EffectiveHeight(asset.heightUnits) - 1, StartUnit(assets[j]), EndUnit(assets[j]));
    }
  }

  // ---- Table guards ----

  predicate SamePosition(a: Rack, b: Rack) {
    a.dataCenterId == b.dataCenterId && a.rowPosition == b.rowPosition && a.columnPosition == b.columnPosition
  }

  /** The racks at data's position (lines 37-43). */
  function RacksAt(racks: seq<Rack>, data: Rack): seq<Rack> {
    Filter(racks, (r: Rack) => SamePosition(r, data))
  }

  /** The guard of lines 37-47: `.single()` finds a rack only when exactly one sits at
      the position, and only then is the insert refused. */
  predicate PositionTaken(racks: seq<Rack>, data: Rack) {
    Single(RacksAt(racks, data)).Some?
  }

  /** No two racks of a data center share a row and column. */
  predicate UniquePositions(racks: seq<Rack>) {
    forall i, j :: 0 <= i < j < |racks| ==> !SamePosition(racks[i], racks[j])
  }

  /** While positions are unique the guard keeps them unique. */
  lemma CreateKeepsPositionsUnique(racks: seq<Rack>, data: Rack)
    requires UniquePositions(racks)
    ensures !PositionTaken(racks, data) ==> UniquePositions(racks + [data])
  {
    OccupiedPositionIsTaken(racks, data);
    if !PositionTaken(racks, data) {
      var r := racks + [data];
      forall i, j | 0 <= i < j < |r|
        ensures !SamePosition(r[i], r[j])
      {
        if j == |racks| {
          assert r[i] == racks[i];
        }
      }
    }
  }

  /** Under unique positions the guard sees every occupied position. */
  lemma OccupiedPositionIsTaken(racks: seq<Rack>, data: Rack)
    requires UniquePositions(racks)
    ensures (exists i :: 0 <= i < |racks| && SamePosition(racks[i], data)) ==> PositionTaken(racks, data)
  {
    if i :| 0 <= i < |racks| && SamePosition(racks[i], data) {
      AtMostOneAt(racks, data, i);
      assert racks[i] in RacksAt(racks, data);
    }
  }

  /** Under unique positions at most one rack sits at the position of racks[a]. */
  lemma {:induction false} AtMostOneAt(racks: seq<Rack>, data: Rack, a: int)
    requires UniquePositions(racks) && 0 <= a < |racks| && SamePosition(racks[a], data)
    ensures |RacksAt(racks, data)| <= 1
    decreases |racks|
  {
    var p := (r: Rack) => SamePosition(r, data);
    if a > 0 {
      assert !p(racks[0]) by {
        assert !SamePosition(racks[0], racks[a]);
      }
      assert UniquePositions(racks[1..]);
      AtMostOneAt(racks[1..], data, a - 1);
      assert racks[1..][a - 1] == racks[a];
    } else {
      FilterEmpty(racks[1..], p);
      forall i | 0 <= i < |racks[1..]|
        ensures !p(racks[1..][i])
      {
        assert !SamePosition(racks[0], racks[i + 1]);
      }
    }
  }

  /** The `.single()` guard does not catch a position that is already taken twice: a
      third rack is inserted there. */
  lemma DuplicatePositionNotGuarded(r1: Rack, r2: Rack, data: Rack)
    requires SamePosition(r1, data) && SamePosition(r2, data)
    ensures !PositionTaken([r1, r2], data)
  {
    var p := (r: Rack) => SamePosition(r, data);
    assert [r2][1..] == [];
    assert Filter([r2], p) == [r2];
    assert [r1, r2][1..] == [r2];
    assert Filter([r1, r2], p) == [r1, r2];
  }

  /** Some asset refers to the rack (lines 89-93). */
  predicate HasAssets(assets: seq<Asset>, rackId: string) {
    exists i :: 0 <= i < |assets| && assets[i].rackId == Some(rackId)
  }

  /** Every rack an asset refers to exists. */
  predicate RackRefsValid(assets: seq<Asset>, racks: seq<Rack>) {
    forall i :: 0 <= i < |assets| && assets[i].rackId.Some? ==>
      exists j :: 0 <= j < |racks| && racks[j].id == assets[i].rackId.value
  }

  /** A successful move points the asset at a rack the lookup found, so no asset is
      left referring to a missing rack. */
  lemma MoveKeepsRefs(assets: seq<Asset>, racks: seq<Rack>, assetId: string, rackId: string, rackPosition: int)
    requires RackRefsValid(assets, racks)
    requires MoveOutcome(assets, racks, assetId, rackId, rackPosition) == Moved
    ensures RackRefsValid(AfterMove(assets, assetId, rackId, rackPosition), racks)
  {
    var rack := RackById(racks, rackId).value;
    assert rack in racks;
    var j :| 0 <= j < |racks| && racks[j] == rack;
    assert rack in Filter(racks, (r: Rack) => r.id == rackId);
  }

  lemma RemoveKeepsRefs(assets: seq<Asset>, racks: seq<Rack>, assetId: string)
    requires RackRefsValid(assets, racks)
    ensures RackRefsValid(AfterRemove(assets, assetId), racks)
  {
    var after := AfterRemove(assets, assetId);
    forall i | 0 <= i < |after| && after[i].rackId.Some?
      ensures exists j :: 0 <= j < |racks| && racks[j].id == after[i].rackId.value
    {
      assert after[i] == assets[i];
    }
  }

  /** Deleting is refused while an asset refers to the rack, so an allowed delete leaves
      every reference intact. */
  lemma DeleteKeepsRefs(assets: seq<Asset>, racks: seq<Rack>, rackId: string)
    requires RackRefsValid(assets, racks) && !HasAssets(assets, rackId)
    ensures RackRefsValid(assets, Filter(racks, (r: Rack) => r.id != rackId))
  {
    var kept := Filter(racks, (r: Rack) => r.id != rackId);
    forall i | 0 <= i < |assets| && assets[i].rackId.Some?
      ensures exists j :: 0 <= j < |kept| && kept[j].id == assets[i].rackId.value
    {
      var j :| 0 <= j < |racks| && racks[j].id == assets[i].rackId.value;
      assert racks[j] in kept;
      var k :| 0 <= k < |kept| && kept[k] == racks[j];
    }
  }

  lemma CreateKeepsRefs(assets: seq<Asset>, racks: seq<Rack>, data: Rack)
    requires RackRefsValid(assets, racks)
    ensures RackRefsValid(assets, racks + [data])
  {
    forall i | 0 <= i < |assets| && assets[i].rackId.Some?
      ensures exists j :: 0 <= j < |racks + [data]| && (racks + [data])[j].id == assets[i].rackId.value
    {
      var j :| 0 <= j < |racks| && racks[j].id == assets[i].rackId.value;
      assert (racks + [data])[j] == racks[j];
    }
  }

  // ---- Available assets ----

  /** The order of `.order("name")`. */
  function ByName(): (Asset, Asset) -> bool {
    (a: Asset, b: Asset) => LexLeq(a.name, b.name)
  }

  lemma ByNameIsTotalPreorder()
    ensures IsTotalPreorder(ByName())
  {
    forall a: Asset, b: Asset
      ensures ByName()(a, b) || ByName()(b, a)
    {
      LexTotal(a.name, b.name);
    }
    forall a: Asset, b: Asset, c: Asset | ByName()(a, b) && ByName()(b, c)
      ensures ByName()(a, c)
    {
      LexTransitive(a.name, b.name, c.name);
    }
  }

  /** An asset that can be placed: in no rack and active (lines 244-245). */
  predicate IsPlaceable(a: Asset) {
    a.rackId.None? && a.status == "active"
  }

  /** `getAvailableAssets` (lines 227-258). */
  function AvailableAssets(assets: seq<Asset>): seq<Asset> {
    SortBy(Filter(assets, IsPlaceable), ByName())
  }

  /** The listing holds exactly the unplaced active assets, each as often as in the
      table, ordered by name. */
  lemma AvailableAssetsSpec(assets: seq<Asset>)
    ensures forall a :: a in AvailableAssets(assets) <==> a in assets && IsPlaceable(a)
    ensures multiset(AvailableAssets(assets)) == multiset(Filter(assets, IsPlaceable))
    ensures SortedBy(AvailableAssets(assets), ByName())
  {
    ByNameIsTotalPreorder();
    SortBySorted(Filter(assets, IsPlaceable), ByName());
    var r := AvailableAssets(assets);
    forall a
      ensures a in r <==> a in assets && IsPlaceable(a)
    {
      assert a in r <==> a in multiset(r);
      assert a in Filter(assets, IsPlaceable) <==> a in multiset(Filter(assets, IsPlaceable));
    }
  }

  /** The `racks` and `assets` tables. */
  class Inventory {
    var racks: seq<Rack>
    var assets: seq<Asset>

    constructor (racks: seq<Rack>, assets: seq<Asset>)
      ensures this.racks == racks && this.assets == assets
    {
      this.racks, this.assets := racks, assets;
    }

    /** `moveAssetToRack`: look the asset and the rack up, test the fit, scan the rack's
        other assets for the first conflict, then write only the moved asset. */
    method MoveAssetToRack(assetId: string, rackId: string, rackPosition: int) returns (result: MoveResult)
      modifies this
      ensures result == MoveOutcome(old(assets), old(racks), assetId, rackId, rackPosition)
      ensures racks == old(racks)
      ensures assets == if result == Moved then AfterMove(old(assets), assetId, rackId, rackPosition) else old(assets)
    {
      result := CheckMove(assets, racks, assetId, rackId, rackPosition);
      if result == Moved {
        assets := AfterMove(assets, assetId, rackId, rackPosition);
      }
    }

    /** `removeAssetFromRack`: no lookup, no error for an unknown id. */
    method RemoveAssetFromRack(assetId: string)
      modifies this
      ensures racks == old(racks) && assets == AfterRemove(old(assets), assetId)
    {
      assets := AfterRemove(assets, assetId);
    }

    /** `createRack`: refused when the guard finds a rack at the position, otherwise
        the rack (with the id the database gives it) is appended. */
    method CreateRack(data: Rack) returns (created: bool)
      modifies this
      ensures created <==> !PositionTaken(old(racks), data)
      ensures racks == if created then old(racks) + [data] else old(racks)
      ensures assets == old(assets)
    {
      var existingRack := Single(RacksAt(racks, data));
      if existingRack.Some? {
        return false;
      }
      racks := racks + [data];
      return true;
    }

    /** `deleteRack`: refused while any asset refers to the rack. */
    method DeleteRack(rackId: string) returns (deleted: bool)
      modifies this
      ensures deleted <==> !HasAssets(old(assets), rackId)
      ensures racks == if deleted then Filter(old(racks), (r: Rack) => r.id != rackId) else old(racks)
      ensures assets == old(assets)
    {
      var referencing := Filter(assets, (a: Asset) => a.rackId == Some(rackId));
      FilterEmpty(assets, (a: Asset) => a.rackId == Some(rackId));
      if |referencing| > 0 {
        return false;
      }
      racks := Filter(racks, (r: Rack) => r.id != rackId);
      return true;
    }
  }

  /** The checks of `moveAssetToRack` (lines 133-175), in order: asset lookup, rack
      lookup, fit test, then the scan for the first conflicting asset. */
  method CheckMove(assets: seq<Asset>, racks: seq<Rack>, assetId: string, rackId: string, rackPosition: int)
    returns (result: MoveResult)
    ensures result == MoveOutcome(assets, racks, assetId, rackId, rackPosition)
  {
    var asset := AssetById(assets, assetId);
    if asset.None? {
      return AssetNotFound;
    }
    var rack := RackById(racks, rackId);
    if rack.None? {
      return RackNotFound;
    }
    var assetHeight := EffectiveHeight(asset.value.heightUnits);
    if rackPosition + assetHeight - 1 > rack.value.heightUnits {
      return DoesNotFit;
    }
    var conflictingAssets := OthersInRack(assets, rackId, assetId);
    var newStart := rackPosition;
    var newEnd := newStart + assetHeight - 1;
    MoveOutcomeOfScan(assets, racks, assetId, rackId, rackPosition, conflictingAssets, newEnd);
    result := ScanForConflict(conflictingAssets, newStart, newEnd);
  }

  /** The scan of lines 154-174 and its verdict. */
  method ScanForConflict(conflictingAssets: seq<Asset>, newStart: int, newEnd: int) returns (result: MoveResult)
    ensures result == ScanVerdict(conflictingAssets, newStart, newEnd)
  {
    var conflict := FindConflict(conflictingAssets, newStart, newEnd);
    if conflict.Some? {
      return PositionConflict(conflictingAssets[conflict.value].name);
    }
    return Moved;
  }

  /** The scan of lines 161-174: the first asset, in scan order, that conflicts. */
  method FindConflict(conflictingAssets: seq<Asset>, newStart: int, newEnd: int) returns (k: Option<nat>)
    ensures k == FirstConflict(conflictingAssets, newStart, newEnd)
  {
    var i := 0;
    while i < |conflictingAssets|
      invariant i <= |conflictingAssets|
      invariant forall j :: 0 <= j < i ==> !ConflictsWith(conflictingAssets[j], newStart, newEnd)
    {
      var existingAsset := conflictingAssets[i];
      var existingStart := StartUnit(existingAsset);
      var existingEnd := existingStart + EffectiveHeight(existingAsset.heightUnits) - 1;
      if Conflicts(newStart, newEnd, existingStart, existingEnd) {
        FirstConflictAt(conflictingAssets, newStart, newEnd, i);
        return Some(i);
      }
      i := i + 1;
    }
    return None;
  }

  /** Once the lookups and the fit test pass, the outcome is the scan's. */
  lemma MoveOutcomeOfScan(assets: seq<Asset>, racks: seq<Rack>, assetId: string, rackId: string, rackPosition: int,
                          others: seq<Asset>, newEnd: int)
    requires AssetById(assets, assetId).Some? && RackById(racks, rackId).Some?
    requires newEnd == rackPosition + EffectiveHeight(AssetById(assets, assetId).value.heightUnits) - 1
    requires newEnd <= RackById(racks, rackId).value.heightUnits
    requires others == OthersInRack(assets, rackId, assetId)
    ensures MoveOutcome(assets, racks, assetId, rackId, rackPosition) == ScanVerdict(others, rackPosition, newEnd)
  {
  }

  /** A conflict at index i after none before it is the first conflict. */
  lemma FirstConflictAt(others: seq<Asset>, newStart: int, newEnd: int, i: nat)
    requires i < |others| && ConflictsWith(others[i], newStart, newEnd)
    requires forall j :: 0 <= j < i ==> !ConflictsWith(others[j], newStart, newEnd)
    ensures FirstConflict(others, newStart, newEnd) == Some(i)
  {
  }
}
