/** The floor plan of components/rack-management/floor-plan-editor.tsx: the racks of the
    selected data center placed on a rows x cols grid by their parsed row and column
    positions, and the colour of each cell. */
module FloorPlan {
  import opened Common
  import opened Seqs
  import opened JsStrings
  import opened RackManagement
  import opened RacksPage

  /** The cell a rack goes to (lines 61-63): its parsed row and column minus one, when
      both are numbers inside the grid. A position that does not parse is NaN, and NaN
      fails every comparison. */
  function GridTarget(rack: Rack, rows: nat, cols: nat): (t: Option<(int, int)>)
    ensures t.Some? ==> 0 <= t.value.0 < rows && 0 <= t.value.1 < cols
  {
    InBounds(ParseInt(rack.rowPosition), ParseInt(rack.columnPosition), rows, cols)
  }

  /** The zero-based cell of a parsed row and column, when both are inside the grid. */
  function InBounds(row: Option<int>, col: Option<int>, rows: nat, cols: nat): (t: Option<(int, int)>)
    ensures t.Some? ==> 0 <= t.value.0 < rows && 0 <= t.value.1 < cols
  {
    match (row, col)
    case (Some(r), Some(c)) =>
      if r - 1 >= 0 && r - 1 < rows && c - 1 >= 0 && c - 1 < cols then Some((r - 1, c - 1)) else None
    case _ => None
  }

  /** A rack whose positions are written as decimal numbers inside the grid goes to the
      cell one row and one column up and left of them, and nowhere when they lie outside. */
  lemma GridTargetOfDecimal(rack: Rack, rows: nat, cols: nat, r: nat, c: nat)
    requires rack.rowPosition == Decimal(r) && rack.columnPosition == Decimal(c)
    ensures GridTarget(rack, rows, cols) == if 1 <= r <= rows && 1 <= c <= cols then Some((r - 1, c - 1)) else None
  {
    ParseIntDecimal(r);
    ParseIntDecimal(c);
    GridTargetOfParsed(rack, rows, cols, r, c);
  }

  lemma GridTargetOfParsed(rack: Rack, rows: nat, cols: nat, r: int, c: int)
    requires ParseInt(rack.rowPosition) == Some(r) && ParseInt(rack.columnPosition) == Some(c)
    ensures GridTarget(rack, rows, cols) == if 1 <= r <= rows && 1 <= c <= cols then Some((r - 1, c - 1)) else None
  {
    var target := InBounds(Some(r), Some(c), rows, cols);
    assert target == if 1 <= r <= rows && 1 <= c <= cols then Some((r - 1, c - 1)) else None;
  }

  /** A rack whose row position holds no digit goes nowhere. */
  lemma GridTargetOfNonNumeric(rack: Rack, rows: nat, cols: nat)
    requires forall i :: 0 <= i < |rack.rowPosition| ==> !IsDigit(rack.rowPosition[i])
    ensures GridTarget(rack, rows, cols) == None
  {
    ParseIntNoDigits(rack.rowPosition);
  }

  /** Where each rack of the plan is aimed. */
  function Aim(rows: nat, cols: nat): RackRow -> Option<(int, int)> {
    (row: RackRow) => GridTarget(row.rack, rows, cols)
  }

  /** What a cell holds once racks have been placed in order: the last rack aimed at
      it, null when none is. */
  function CellOf(racks: seq<RackRow>, aim: RackRow -> Option<(int, int)>, i: int, j: int): Option<RackRow> {
    if racks == [] then None
    else if aim(racks[|racks| - 1]) == Some((i, j)) then Some(racks[|racks| - 1])
    else CellOf(racks[..|racks| - 1], aim, i, j)
  }

  /** A cell shows a rack aimed at it, and the last one aimed at it; it is null exactly
      when no rack is aimed at it. */
  lemma {:induction false} CellOfSpec(racks: seq<RackRow>, aim: RackRow -> Option<(int, int)>, i: int, j: int)
    ensures CellOf(racks, aim, i, j).None? <==> forall k :: 0 <= k < |racks| ==> aim(racks[k]) != Some((i, j))
    ensures CellOf(racks, aim, i, j).Some? ==>
      exists k :: 0 <= k < |racks| && CellOf(racks, aim, i, j) == Some(racks[k]) && aim(racks[k]) == Some((i, j)) &&
        forall m :: k < m < |racks| ==> aim(racks[m]) != Some((i, j))
    decreases |racks|
  {
    if racks != [] {
      var init := racks[..|racks| - 1];
      CellOfSpec(init, aim, i, j);
      assert forall k :: 0 <= k < |init| ==> init[k] == racks[k];
      if aim(racks[|racks| - 1]) != Some((i, j)) && CellOf(init, aim, i, j).Some? {
        var k :| 0 <= k < |init| && CellOf(init, aim, i, j) == Some(init[k]) && aim(init[k]) == Some((i, j)) &&
          forall m :: k < m < |init| ==> aim(init[m]) != Some((i, j));
        assert racks[k] == init[k];
      }
    }
  }

  /** The cells racks are aimed at. */
  function Targets(racks: seq<RackRow>, aim: RackRow -> Option<(int, int)>): (t: set<(int, int)>)
    ensures |t| <= |racks|
  {
    if racks == [] then {}
    else
      var rest := Targets(racks[..|racks| - 1], aim);
      match aim(racks[|racks| - 1])
      case None => rest
      case Some(cell) => rest + {cell}
  }

  lemma {:induction false} TargetsSpec(racks: seq<RackRow>, aim: RackRow -> Option<(int, int)>, cell: (int, int))
    ensures cell in Targets(racks, aim) <==> exists k :: 0 <= k < |racks| && aim(racks[k]) == Some(cell)
    decreases |racks|
  {
    if racks != [] {
      var init := racks[..|racks| - 1];
      TargetsSpec(init, aim, cell);
      assert forall k :: 0 <= k < |init| ==> init[k] == racks[k];
    }
  }

  /** The occupied cells of a rows x cols grid. */
  function OccupiedCells(racks: seq<RackRow>, aim: RackRow -> Option<(int, int)>, rows: nat, cols: nat): set<(int, int)> {
    set i: int, j: int | 0 <= i < rows && 0 <= j < cols && CellOf(racks, aim, i, j).Some? :: (i, j)
  }

  /** No more cells are occupied than racks were placed. */
  lemma OccupiedCellsBound(racks: seq<RackRow>, aim: RackRow -> Option<(int, int)>, rows: nat, cols: nat)
    ensures |OccupiedCells(racks, aim, rows, cols)| <= |racks|
  {
    var occupied := OccupiedCells(racks, aim, rows, cols);
    var targets := Targets(racks, aim);
    forall cell | cell in occupied
      ensures cell in targets
    {
      CellOfSpec(racks, aim, cell.0, cell.1);
      TargetsSpec(racks, aim, cell);
    }
    SubsetCardinality(occupied, targets);
  }

  lemma SubsetCardinality<T>(a: set<T>, b: set<T>)
    requires a <= b
    ensures |a| <= |b|
  {
    assert b == a + (b - a);
  }

  /** The grid shows only racks of the selected data center, each one of the page's racks. */
  lemma GridShowsSelectedDataCenter(racks: seq<RackRow>, dataCenterId: string, aim: RackRow -> Option<(int, int)>, i: int, j: int)
    ensures var cell := CellOf(DcRacks(racks, dataCenterId), aim, i, j);
      cell.Some? ==> cell.value in racks && cell.value.rack.dataCenterId == dataCenterId
  {
    var dcRacks := DcRacks(racks, dataCenterId);
    CellOfSpec(dcRacks, aim, i, j);
    if CellOf(dcRacks, aim, i, j).Some? {
      var k :| 0 <= k < |dcRacks| && CellOf(dcRacks, aim, i, j) == Some(dcRacks[k]);
      assert dcRacks[k] in dcRacks;
    }
  }

  /** Placing rack k changes only the cell it is aimed at. */
  lemma PlaceStep(racks: seq<RackRow>, aim: RackRow -> Option<(int, int)>, k: int)
    requires 0 <= k < |racks|
    ensures forall i, j :: CellOf(racks[..k + 1], aim, i, j) ==
                            if aim(racks[k]) == Some((i, j)) then Some(racks[k]) else CellOf(racks[..k], aim, i, j)
  {
    assert racks[..k + 1][..k] == racks[..k];
  }

  /** `createGrid` (lines 55-69): a rows x cols grid of nulls, then every rack written
      to the cell its parsed position aims it at. */
  method CreateGrid(rows: nat, cols: nat, dcRacks: seq<RackRow>) returns (grid: array2<Option<RackRow>>)
    ensures fresh(grid) && grid.Length0 == rows && grid.Length1 == cols
    ensures forall i, j :: 0 <= i < rows && 0 <= j < cols ==> grid[i, j] == CellOf(dcRacks, Aim(rows, cols), i, j)
  {
    grid := new Option<RackRow>[rows, cols]((i, j) => None);
    PlaceAll(grid, dcRacks, Aim(rows, cols));
  }

  /** The `forEach` of lines 60-66: each rack in order written to the cell it is aimed
      at, a later rack replacing an earlier one. */
  method PlaceAll(grid: array2<Option<RackRow>>, racks: seq<RackRow>, aim: RackRow -> Option<(int, int)>)
    requires forall row :: row in racks && aim(row).Some? ==>
      0 <= aim(row).value.0 < grid.Length0 && 0 <= aim(row).value.1 < grid.Length1
    requires forall i, j :: 0 <= i < grid.Length0 && 0 <= j < grid.Length1 ==> grid[i, j].None?
    modifies grid
    ensures forall i, j :: 0 <= i < grid.Length0 && 0 <= j < grid.Length1 ==> grid[i, j] == CellOf(racks, aim, i, j)
  {
    var k := 0;
    while k < |racks|
      invariant k <= |racks|
      invariant forall i, j :: 0 <= i < grid.Length0 && 0 <= j < grid.Length1 ==> grid[i, j] == CellOf(racks[..k], aim, i, j)
    {
      var rack := racks[k];
      var target := aim(rack);
      PlaceStep(racks, aim, k);
      if target.Some? {
        grid[target.value.0, target.value.1] := Some(rack);
      }
      k := k + 1;
    }
    assert racks[..k] == racks;
  }

  // ---- Cell colour ----

  datatype CellColor = Blank | RedCell | YellowCell | BlueCell | GreenCell

  /** `getRackColor` (lines 73-81). */
  function GetRackColor(cell: Option<RackRow>): (c: CellColor)
    ensures c == Blank <==> cell.None?
    ensures cell.Some? ==> var u := Stats(cell.value).utilization;
      && (c == RedCell <==> u >= 90)
      && (c == YellowCell <==> 70 <= u < 90)
      && (c == BlueCell <==> 0 < u < 70)
      && (c == GreenCell <==> u <= 0)
  {
    match cell
    case None => Blank
    case Some(rack) =>
      var utilization := Stats(rack).utilization;
      if utilization >= 90 then RedCell
      else if utilization >= 70 then YellowCell
      else if utilization > 0 then BlueCell
      else GreenCell
  }

  /** The floor plan agrees with the rack list's colour at the two upper thresholds and
      splits the list's green into blue (some use) and green (none). */
  lemma CellColorAgreesWithList(row: RackRow)
    ensures GetRackColor(Some(row)) == RedCell <==> ColorOf(Stats(row).utilization) == Red
    ensures GetRackColor(Some(row)) == YellowCell <==> ColorOf(Stats(row).utilization) == Yellow
    ensures GetRackColor(Some(row)) in {BlueCell, GreenCell} <==> ColorOf(Stats(row).utilization) == Green
  {
  }
}
