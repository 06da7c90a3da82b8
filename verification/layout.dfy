/** Splitting an output rectangle into cells (`src/layout.rs`), and the test that
    tells the compositor whether those cells leave any pixel uncovered. */
module Layout {
  import opened Numerics

  datatype CompositionLayout = Row | Column | Grid | PictureInPicture

  datatype GridLayout = GridLayout(columns: U32, rows: U32)

  datatype Cell = Cell(x: U32, y: U32, width: U32, height: U32) {
    predicate Contains(px: int, py: int) {
      x <= px < x + width && y <= py < y + height
    }

    predicate Empty() {
      width == 0 || height == 0
    }

    predicate Within(outputWidth: nat, outputHeight: nat) {
      x + width <= outputWidth && y + height <= outputHeight
    }

    predicate Inside(outer: Cell) {
      && outer.x <= x && x + width <= outer.x + outer.width
      && outer.y <= y && y + height <= outer.y + outer.height
    }
  }

  predicate Overlap(a: Cell, b: Cell) {
    && a.x < b.x + b.width && b.x < a.x + a.width
    && a.y < b.y + b.height && b.y < a.y + a.height
  }

  ghost predicate PairwiseDisjoint(cells: seq<Cell>) {
    forall i, j :: 0 <= i < j < |cells| ==> !Overlap(cells[i], cells[j])
  }

  ghost predicate AllWithin(cells: seq<Cell>, width: nat, height: nat) {
    forall i :: 0 <= i < |cells| ==> cells[i].Within(width, height)
  }

  // ---- Grid lines ------------------------------------------------------------

  /** Least `c >= from` whose square reaches `n`: the integer meaning of
      `(n as f64).sqrt().ceil()`, which is exact for every 32-bit `n`. */
  function CeilSqrtFrom(n: nat, from: nat): (c: nat)
    requires from == 0 || (from - 1) * (from - 1) < n
    ensures n <= c * c
    ensures c == 0 || (c - 1) * (c - 1) < n
    decreases n - from * from, if from == 0 then 1 else 0
  {
    if n <= from * from then from else CeilSqrtFrom(n, from + 1)
  }

  function CeilSqrt(n: nat): (c: nat)
    ensures n <= c * c
    ensures c == 0 || (c - 1) * (c - 1) < n
  {
    CeilSqrtFrom(n, 0)
  }

  lemma CeilSqrtAtMost(n: nat)
    ensures CeilSqrt(n) <= n
  {
    var c := CeilSqrt(n);
    if c != 0 {
      MulMonotone(n, c - 1, n);
      MulMonotone(n, c - 1, c - 1);
    }
    if n != 0 { MulMonotone(1, n, n); }
  }

  function GridSize(count: nat, layout: CompositionLayout): GridLayout
    requires layout == Grid ==> 0 < AsU32(Max(count, 1))
  {
    var count := AsU32(Max(count, 1));
    match layout
    case Row => GridLayout(count, 1)
    case Column => GridLayout(1, count)
    case Grid =>
      CeilSqrtAtMost(count);
      var columns := CeilSqrt(count);
      assert columns != 0;
      MulMonotone(1, columns, count - 1);
      DivAtMost(count + columns - 1, columns, count);
      GridLayout(columns, (count + columns - 1) / columns)
    case PictureInPicture => GridLayout(1, 1)
  }

  function Edge(total: U32, divisions: U32, index: U32): U32 {
    AsU32(MulDiv(index, total, Max(divisions, 1)))
  }

  lemma EdgeExact(total: U32, divisions: U32, index: U32)
    requires index <= divisions && 0 < divisions
    ensures Edge(total, divisions, index) == MulDiv(index, total, divisions) <= total
  {
    MulDivAtMost(index, total, divisions);
    AsU32Exact(MulDiv(index, total, divisions));
  }

  lemma EdgeEnds(total: U32, divisions: U32)
    requires 0 < divisions
    ensures Edge(total, divisions, 0) == 0
    ensures Edge(total, divisions, divisions) == total
  {
    hide MulDiv;
    MulDivWhole(total, divisions);
  }

  /** Grid lines never cross: the ordering that keeps cells apart. */
  lemma EdgeMonotone(total: U32, divisions: U32, i: U32, j: U32)
    requires i <= j <= divisions && 0 < divisions
    ensures Edge(total, divisions, i) <= Edge(total, divisions, j) <= total
  {
    hide Edge, MulDiv;
    EdgeExact(total, divisions, i);
    EdgeExact(total, divisions, j);
    MulDivMonotone(i, j, total, divisions);
  }

  // ---- Row, Column and Grid ----------------------------------------------------

  predicate FitsGrid(grid: GridLayout, count: nat) {
    && 0 < grid.columns && 0 < grid.rows
    && forall index :: 0 <= index < count ==> index / grid.columns < grid.rows
  }

  /** `rows = ceil(count / columns)` rows of `columns` slots hold `count` sources. */
  lemma RowsHold(count: nat, columns: nat, index: nat)
    requires 0 < columns && index < count
    ensures index / columns < (count + columns - 1) / columns
  {
    var rows := (count + columns - 1) / columns;
    DivBounds(count + columns - 1, columns);
    assert (rows + 1) * columns == rows * columns + columns;
    DivBelow(index, columns, rows);
  }

  /** The grid has a slot for every source exactly below 2^32 of them: from there on the
      narrowed count makes too few. For a narrowed count of zero the source's Grid divides
      by zero. */
  lemma GridHoldsEverySource(count: nat, layout: CompositionLayout)
    requires layout != PictureInPicture && (layout == Grid ==> 0 < AsU32(Max(count, 1)))
    ensures FitsGrid(GridSize(count, layout), Max(count, 1)) <==> count < U32_LIMIT
  {
    if count < U32_LIMIT {
      GridHoldsNarrowCounts(count, layout);
    } else {
      GridIsTooSmall(count, layout);
    }
  }

  /** One source more than 32 bits count: a row of one slot. */
  lemma WideRowHasOneSlot()
    ensures GridSize(U32_LIMIT + 1, Row) == GridLayout(1, 1)
    ensures !FitsGrid(GridSize(U32_LIMIT + 1, Row), U32_LIMIT + 1)
  {
    GridHoldsEverySource(U32_LIMIT + 1, Row);
    hide FitsGrid;
  }

  lemma GridHoldsNarrowCounts(count: nat, layout: CompositionLayout)
    requires layout != PictureInPicture && count < U32_LIMIT
    ensures FitsGrid(GridSize(count, layout), Max(count, 1))
  {
    var grid := GridSize(count, layout);
    var n := Max(count, 1);
    AsU32Exact(n);
    match layout {
      case Row =>
        forall index | 0 <= index < n ensures index / grid.columns < grid.rows {
          DivBelow(index, n, 1);
        }
      case Column =>
      case Grid =>
        RowsHold(n, grid.columns, 0);
        assert 0 / grid.columns == 0;
        forall index | 0 <= index < n ensures index / grid.columns < grid.rows {
          RowsHold(n, grid.columns, index);
        }
    }
  }

  lemma GridIsTooSmall(count: nat, layout: CompositionLayout)
    requires layout != PictureInPicture && (layout == Grid ==> 0 < AsU32(Max(count, 1)))
    requires U32_LIMIT <= count
    ensures !FitsGrid(GridSize(count, layout), count)
  {
    var grid := GridSize(count, layout);
    var narrowed := AsU32(count);
    var slots := grid.rows * grid.columns;
    if 0 < grid.columns && 0 < grid.rows {
      assert 0 <= slots < count by {
        MulMonotone(0, grid.rows, grid.columns);
        if layout == Grid {
          CeilSqrtAtMost(narrowed);
          DivBounds(narrowed + grid.columns - 1, grid.columns);
        }
      }
      MulDivCancel(grid.rows, grid.columns);
      assert slots / grid.columns == grid.rows;
    }
  }

  function SlotCell(width: U32, height: U32, grid: GridLayout, column: U32, row: U32): (cell: Cell)
    requires column < grid.columns && row < grid.rows
    ensures cell.x == Edge(width, grid.columns, column)
    ensures cell.x + cell.width == Edge(width, grid.columns, column + 1)
    ensures cell.y == Edge(height, grid.rows, row)
    ensures cell.y + cell.height == Edge(height, grid.rows, row + 1)
  {
    hide Edge;
    EdgeMonotone(width, grid.columns, column, column + 1);
    EdgeMonotone(height, grid.rows, row, row + 1);
    var x := Edge(width, grid.columns, column);
    var y := Edge(height, grid.rows, row);
    Cell(x, y, Edge(width, grid.columns, column + 1) - x, Edge(height, grid.rows, row + 1) - y)
  }

  function GridCell(width: U32, height: U32, grid: GridLayout, index: nat): Cell
    requires FitsGrid(grid, index + 1)
  {
    hide Edge;
    assert index / grid.columns < grid.rows;
    DivNonNegative(index, grid.columns);
    SlotCell(width, height, grid, index % grid.columns, index / grid.columns)
  }

  lemma SlotCellWithin(width: U32, height: U32, grid: GridLayout, column: U32, row: U32)
    requires column < grid.columns && row < grid.rows
    ensures SlotCell(width, height, grid, column, row).Within(width, height)
  {
    hide Edge;
    EdgeMonotone(width, grid.columns, column, column + 1);
    EdgeMonotone(height, grid.rows, row, row + 1);
  }

  lemma SlotCellsApart(width: U32, height: U32, grid: GridLayout, c: U32, r: U32, c': U32, r': U32)
    requires c < grid.columns && r < grid.rows && c' < grid.columns && r' < grid.rows
    requires r < r' || (r == r' && c < c')
    ensures !Overlap(SlotCell(width, height, grid, c, r), SlotCell(width, height, grid, c', r'))
  {
    hide Edge;
    if r < r' {
      EdgeMonotone(height, grid.rows, r + 1, r');
    } else {
      EdgeMonotone(width, grid.columns, c + 1, c');
    }
  }

  lemma GridCellWithin(width: U32, height: U32, grid: GridLayout, index: nat)
    requires FitsGrid(grid, index + 1)
    ensures GridCell(width, height, grid, index).Within(width, height)
  {
    hide Edge, SlotCell;
    assert index / grid.columns < grid.rows;
    DivNonNegative(index, grid.columns);
    SlotCellWithin(width, height, grid, index % grid.columns, index / grid.columns);
  }

  /** Slots are handed out row by row, so a later source is further along its row or lower. */
  lemma SlotOrder(i: nat, j: nat, columns: U32)
    requires i < j && 0 < columns
    ensures i / columns < j / columns || (i / columns == j / columns && i % columns < j % columns)
  {
    DivMonotone(i, j, columns);
  }

  lemma GridCellsApart(width: U32, height: U32, grid: GridLayout, i: nat, j: nat)
    requires i < j && FitsGrid(grid, i + 1) && FitsGrid(grid, j + 1)
    ensures !Overlap(GridCell(width, height, grid, i), GridCell(width, height, grid, j))
  {
    hide Edge, SlotCell, Overlap;
    assert i / grid.columns < grid.rows && j / grid.columns < grid.rows;
    DivNonNegative(i, grid.columns);
    DivNonNegative(j, grid.columns);
    SlotOrder(i, j, grid.columns);
    SlotCellsApart(width, height, grid,
      i % grid.columns, i / grid.columns, j % grid.columns, j / grid.columns);
  }

  // ---- Picture in picture --------------------------------------------------------

  function PipMargin(width: U32, height: U32): U32 {
    Min(Min(Min(width, height) / 50, width / 4), height / 4)
  }

  function PipOverlay(width: U32, height: U32, overlays: U32, index: U32): (cell: Cell)
    requires index < overlays
  {
    hide Edge;
    var margin := PipMargin(width, height);
    var availableHeight := SaturatingSub(height, 2 * margin);
    var availableWidth := SaturatingSub(width, 2 * margin);
    var overlayWidth := Min(Max(width / 4, 1), availableWidth);
    var targetHeight := Max(height / 4, 1);
    var x := SaturatingSub(SaturatingSub(width, margin), overlayWidth);
    var slot := overlays - index - 1;
    EdgeMonotone(availableHeight, overlays, slot, slot + 1);
    var slotTop := margin + Edge(availableHeight, overlays, slot);
    var slotBottom := margin + Edge(availableHeight, overlays, slot + 1);
    var slotHeight := SaturatingSub(slotBottom, slotTop);
    var cellHeight := Min(targetHeight, slotHeight);
    Cell(x, SaturatingSub(slotBottom, cellHeight), overlayWidth, cellHeight)
  }

  lemma PipOverlayWithin(width: U32, height: U32, overlays: U32, index: U32)
    requires index < overlays
    ensures PipOverlay(width, height, overlays, index).Within(width, height)
  {
    hide Edge;
    var availableHeight := SaturatingSub(height, 2 * PipMargin(width, height));
    var slot := overlays - index - 1;
    EdgeMonotone(availableHeight, overlays, slot, slot + 1);
  }

  lemma PipOverlaysApart(width: U32, height: U32, overlays: U32, i: U32, j: U32)
    requires i < j < overlays
    ensures !Overlap(PipOverlay(width, height, overlays, i), PipOverlay(width, height, overlays, j))
  {
    hide Edge;
    var availableHeight := SaturatingSub(height, 2 * PipMargin(width, height));
    var (slotI, slotJ) := (overlays - i - 1, overlays - j - 1);
    EdgeMonotone(availableHeight, overlays, slotJ, slotJ + 1);
    EdgeMonotone(availableHeight, overlays, slotJ + 1, slotI);
    EdgeMonotone(availableHeight, overlays, slotI, slotI + 1);
  }

  // ---- Where the cells are ---------------------------------------------------------

  /** `position` is where a line stands that has `index` of `divisions` equal parts of
      `total` before it, rounded down. */
  predicate LineAt(position: int, index: int, divisions: int, total: int) {
    position * divisions <= index * total < (position + 1) * divisions
  }

  predicate CellOnGrid(cell: Cell, column: int, row: int, columns: int, rows: int, width: int, height: int) {
    && LineAt(cell.x, column, columns, width) && LineAt(cell.x + cell.width, column + 1, columns, width)
    && LineAt(cell.y, row, rows, height) && LineAt(cell.y + cell.height, row + 1, rows, height)
  }

  ghost predicate CellOnGridAt(cells: seq<Cell>, i: nat, columns: nat, rows: nat, width: nat, height: nat) {
    i < |cells| && 0 < columns && CellOnGrid(cells[i], i % columns, i / columns, columns, rows, width, height)
  }

  /** Cells in the slots of a grid of equal parts, row by row from the top left. */
  ghost predicate OnGrid(cells: seq<Cell>, columns: nat, rows: nat, width: nat, height: nat) {
    0 < columns && 0 < rows && forall i: nat :: i < |cells| ==> CellOnGridAt(cells, i, columns, rows, width, height)
  }

  /** As square as it can be: the fewest columns whose square holds the sources, and no row
      that stays empty. */
  predicate NearSquare(columns: int, rows: int, count: int) {
    && (columns - 1) * (columns - 1) < count <= columns * columns
    && (rows - 1) * columns < count <= rows * columns
  }

  lemma LinesDiffer(a: int, b: int, index: int, divisions: int, total: int)
    requires 0 < divisions && LineAt(a, index, divisions, total) && LineAt(b, index, divisions, total)
    ensures a == b
  {
    DivUnique(index * total, divisions, a);
    DivUnique(index * total, divisions, b);
  }

  lemma EdgeIsALine(total: U32, divisions: U32, index: U32)
    requires index <= divisions && 0 < divisions
    ensures LineAt(Edge(total, divisions, index), index, divisions, total)
  {
    EdgeExact(total, divisions, index);
    DivBounds(index * total, divisions);
    hide Edge;
  }

  lemma BorderLines(divisions: int, total: int)
    requires 0 < divisions
    ensures LineAt(0, 0, divisions, total) && LineAt(total, divisions, divisions, total)
  {
  }

  lemma GridCellOnGrid(width: U32, height: U32, grid: GridLayout, i: nat)
    requires FitsGrid(grid, i + 1)
    ensures 0 <= i / grid.columns
    ensures CellOnGrid(GridCell(width, height, grid, i), i % grid.columns, i / grid.columns,
                       grid.columns, grid.rows, width, height)
  {
    assert i / grid.columns < grid.rows;
    DivNonNegative(i, grid.columns);
    var (column, row) := (i % grid.columns, i / grid.columns);
    EdgeIsALine(width, grid.columns, column);
    EdgeIsALine(width, grid.columns, column + 1);
    EdgeIsALine(height, grid.rows, row);
    EdgeIsALine(height, grid.rows, row + 1);
    hide Edge, LineAt;
  }

  /** Side by side from the left border to the right one, each as high as the output. */
  ghost predicate SideBySide(cells: seq<Cell>, width: nat, height: nat) {
    && 0 < |cells| && cells[0].x == 0 && cells[|cells| - 1].x + cells[|cells| - 1].width == width
    && (forall i :: 0 <= i < |cells| ==> cells[i].y == 0 && cells[i].height == height)
    && (forall i: nat :: i < |cells| - 1 ==> NextTo(cells, i))
  }

  ghost predicate NextTo(cells: seq<Cell>, i: nat) {
    i + 1 < |cells| && cells[i].x + cells[i].width == cells[i + 1].x
  }

  /** One under the other from the top border to the bottom one, each as wide as the output. */
  ghost predicate Stacked(cells: seq<Cell>, width: nat, height: nat) {
    && 0 < |cells| && cells[0].y == 0 && cells[|cells| - 1].y + cells[|cells| - 1].height == height
    && (forall i :: 0 <= i < |cells| ==> cells[i].x == 0 && cells[i].width == width)
    && (forall i: nat :: i < |cells| - 1 ==> Under(cells, i))
  }

  ghost predicate Under(cells: seq<Cell>, i: nat) {
    i + 1 < |cells| && cells[i].y + cells[i].height == cells[i + 1].y
  }

  /** The next source is to the right in the same row, or starts the row below at the left
      border after a row that ends at the right one. */
  ghost predicate FollowsInOrder(cells: seq<Cell>, i: nat, width: nat) {
    && i + 1 < |cells|
    && var (cell, next) := (cells[i], cells[i + 1]);
       || (next.x == cell.x + cell.width && next.y == cell.y && next.height == cell.height)
       || (next.x == 0 && next.y == cell.y + cell.height && cell.x + cell.width == width)
  }

  ghost predicate InReadingOrder(cells: seq<Cell>, width: nat) {
    && 0 < |cells| && cells[0].x == 0 && cells[0].y == 0
    && forall i: nat :: i < |cells| - 1 ==> FollowsInOrder(cells, i, width)
  }

  lemma OnGridIsInOrder(cells: seq<Cell>, columns: nat, rows: nat, width: nat, height: nat)
    requires OnGrid(cells, columns, rows, width, height) && 0 < |cells|
    ensures InReadingOrder(cells, width)
  {
    BorderLines(columns, width);
    BorderLines(rows, height);
    FirstSlot(columns);
    assert CellOnGridAt(cells, 0, columns, rows, width, height);
    LinesDiffer(cells[0].x, 0, 0, columns, width);
    LinesDiffer(cells[0].y, 0, 0, rows, height);
    forall i: nat | i < |cells| - 1 ensures FollowsInOrder(cells, i, width) {
      var next := i + 1;
      assert CellOnGridAt(cells, i, columns, rows, width, height);
      assert CellOnGridAt(cells, next, columns, rows, width, height);
      NextSlot(i, columns);
      hide LineAt;
      NextCellFollows(cells[i], cells[next], i % columns, i / columns, columns, rows, width, height);
    }
  }

  lemma FirstSlot(columns: nat)
    requires 0 < columns
    ensures 0 % columns == 0 && 0 / columns == 0
  {
  }

  lemma NextSlot(i: nat, columns: nat)
    requires 0 < columns
    ensures if i % columns + 1 == columns then (i + 1) % columns == 0 && (i + 1) / columns == i / columns + 1
            else (i + 1) % columns == i % columns + 1 && (i + 1) / columns == i / columns
  {
    var (column, row) := (i % columns, i / columns);
    assert i == row * columns + column;
    if column + 1 == columns {
      MulDivCancel(row + 1, columns);
      assert i + 1 == (row + 1) * columns;
    } else {
      DivUnique(i + 1, columns, row);
    }
  }

  lemma NextCellFollows(
    cell: Cell, next: Cell, column: int, row: int, columns: int, rows: int, width: int, height: int)
    requires 0 < columns && 0 < rows && CellOnGrid(cell, column, row, columns, rows, width, height)
    requires CellOnGrid(next, if column + 1 == columns then 0 else column + 1,
                        if column + 1 == columns then row + 1 else row, columns, rows, width, height)
    ensures || (next.x == cell.x + cell.width && next.y == cell.y && next.height == cell.height)
            || (next.x == 0 && next.y == cell.y + cell.height && cell.x + cell.width == width)
  {
    BorderLines(columns, width);
    hide LineAt;
    if column + 1 == columns {
      LinesDiffer(next.x, 0, 0, columns, width);
      LinesDiffer(cell.x + cell.width, width, columns, columns, width);
      LinesDiffer(next.y, cell.y + cell.height, row + 1, rows, height);
    } else {
      LinesDiffer(next.x, cell.x + cell.width, column + 1, columns, width);
      LinesDiffer(next.y, cell.y, row, rows, height);
      LinesDiffer(next.y + next.height, cell.y + cell.height, row + 1, rows, height);
    }
  }

  lemma OneRowIsSideBySide(cells: seq<Cell>, width: nat, height: nat)
    requires OnGrid(cells, |cells|, 1, width, height)
    ensures SideBySide(cells, width, height)
  {
    var n := |cells|;
    BorderLines(n, width);
    BorderLines(1, height);
    forall i: nat | i < n ensures CellOnGrid(cells[i], i, 0, n, 1, width, height) {
      assert CellOnGridAt(cells, i, n, 1, width, height);
      DivUnique(i, n, 0);
    }
    hide LineAt;
    LinesDiffer(cells[0].x, 0, 0, n, width);
    LinesDiffer(cells[n - 1].x + cells[n - 1].width, width, n, n, width);
    forall i: nat | i < n ensures cells[i].y == 0 && cells[i].height == height {
      LinesDiffer(cells[i].y, 0, 0, 1, height);
      LinesDiffer(cells[i].y + cells[i].height, height, 1, 1, height);
    }
    forall i: nat | i < n - 1 ensures NextTo(cells, i) {
      var next := i + 1;
      LinesDiffer(cells[next].x, cells[i].x + cells[i].width, next, n, width);
    }
  }

  lemma OneColumnIsStacked(cells: seq<Cell>, width: nat, height: nat)
    requires 0 < |cells| && OnGrid(cells, 1, |cells|, width, height)
    ensures Stacked(cells, width, height)
  {
    var n := |cells|;
    BorderLines(1, width);
    BorderLines(n, height);
    forall i: nat | i < n ensures CellOnGrid(cells[i], 0, i, 1, n, width, height) {
      assert CellOnGridAt(cells, i, 1, n, width, height);
    }
    hide LineAt;
    LinesDiffer(cells[0].y, 0, 0, n, height);
    LinesDiffer(cells[n - 1].y + cells[n - 1].height, height, n, n, height);
    forall i: nat | i < n ensures cells[i].x == 0 && cells[i].width == width {
      LinesDiffer(cells[i].x, 0, 0, 1, width);
      LinesDiffer(cells[i].x + cells[i].width, width, 1, 1, width);
    }
    forall i: nat | i < n - 1 ensures Under(cells, i) {
      var next := i + 1;
      LinesDiffer(cells[next].y, cells[i].y + cells[i].height, next, n, height);
    }
  }

  /** An overlay keeps the margin to the right, takes a quarter of the output at most, and
      stands on the bottom of its own slot; slots are numbered from the bottom. */
  predicate OverlayOnItsSlot(cell: Cell, index: int, overlays: int, width: int, height: int) {
    var margin := Min(Min(width, height) / 50, Min(width / 4, height / 4));
    var room := height - 2 * margin;
    && cell.x + cell.width == width - margin
    && cell.width == Min(Max(width / 4, 1), width - 2 * margin)
    && cell.height <= Max(height / 4, 1)
    && LineAt(cell.y + cell.height - margin, overlays - index, overlays, room)
    && (cell.height == Max(height / 4, 1) || LineAt(cell.y - margin, overlays - index - 1, overlays, room))
  }

  ghost predicate OverlayAt(cells: seq<Cell>, i: nat, width: nat, height: nat) {
    i + 1 < |cells| && OverlayOnItsSlot(cells[i + 1], i, |cells| - 1, width, height)
  }

  /** The primary source fills the output; the others stand along its right side, the first
      one lowest. */
  ghost predicate PictureInPictureOrder(cells: seq<Cell>, width: U32, height: U32) {
    && 0 < |cells| && cells[0] == Cell(0, 0, width, height)
    && forall i: nat :: i < |cells| - 1 ==> OverlayAt(cells, i, width, height)
  }

  lemma OverlayStands(width: U32, height: U32, overlays: U32, index: U32)
    requires index < overlays
    ensures OverlayOnItsSlot(PipOverlay(width, height, overlays, index), index, overlays, width, height)
  {
    var margin := PipMargin(width, height);
    var room := SaturatingSub(height, 2 * margin);
    var slot := overlays - index - 1;
    EdgeMonotone(room, overlays, slot, slot + 1);
    EdgeIsALine(room, overlays, slot);
    EdgeIsALine(room, overlays, slot + 1);
    hide Edge, LineAt;
  }

  /** Where the cells of each layout are: a fact about the list alone. */
  ghost predicate LaidOut(cells: seq<Cell>, width: U32, height: U32, count: nat, layout: CompositionLayout) {
    match layout
    case Row => |cells| == Max(count, 1) && OnGrid(cells, |cells|, 1, width, height) && SideBySide(cells, width, height)
    case Column => |cells| == Max(count, 1) && OnGrid(cells, 1, |cells|, width, height) && Stacked(cells, width, height)
    case Grid =>
      && |cells| == Max(count, 1) && InReadingOrder(cells, width)
      && (exists columns: nat, rows: nat ::
            NearSquare(columns, rows, |cells|) && OnGrid(cells, columns, rows, width, height))
    case PictureInPicture =>
      |cells| == Min(Max(count, 1), 0x1_0000_0000) && PictureInPictureOrder(cells, width, height)
  }

  lemma GridIsNearSquare(count: nat)
    requires count < U32_LIMIT
    ensures var grid := GridSize(count, Grid); NearSquare(grid.columns, grid.rows, Max(count, 1))
  {
    var grid := GridSize(count, Grid);
    var n := Max(count, 1);
    AsU32Exact(n);
    DivBounds(n + grid.columns - 1, grid.columns);
  }

  lemma GridCellsOnGrid(width: U32, height: U32, count: nat, layout: CompositionLayout)
    requires layout != PictureInPicture && count < U32_LIMIT
    ensures var grid := GridSize(count, layout); var cells := CellList(width, height, count, layout);
            |cells| == Max(count, 1) && OnGrid(cells, grid.columns, grid.rows, width, height)
  {
    GridHoldsEverySource(count, layout);
    var grid := GridSize(count, layout);
    var cells := CellList(width, height, count, layout);
    hide CellOnGrid, GridCell, GridSize;
    forall i: nat | i < |cells| ensures CellOnGridAt(cells, i, grid.columns, grid.rows, width, height) {
      GridCellOnGrid(width, height, grid, i);
    }
  }

  lemma OverlaysInOrder(width: U32, height: U32, count: nat)
    ensures LaidOut(CellList(width, height, count, PictureInPicture), width, height, count, PictureInPicture)
  {
    var cells := CellList(width, height, count, PictureInPicture);
    hide PipOverlay, OverlayOnItsSlot;
    forall i: nat | i < |cells| - 1 ensures OverlayAt(cells, i, width, height) {
      OverlayStands(width, height, OverlayCount(count), i);
    }
  }

  lemma CellListIsLaidOut(width: U32, height: U32, count: nat, layout: CompositionLayout)
    requires layout != PictureInPicture ==> count < U32_LIMIT
    ensures LaidOut(CellList(width, height, count, layout), width, height, count, layout)
  {
    if layout == PictureInPicture {
      OverlaysInOrder(width, height, count);
    } else {
      GridCellsOnGrid(width, height, count, layout);
      AsU32Exact(Max(count, 1));
      var cells := CellList(width, height, count, layout);
      var grid := GridSize(count, layout);
      hide CellList, OnGrid, SideBySide, Stacked, InReadingOrder, NearSquare;
      match layout {
        case Row => OneRowIsSideBySide(cells, width, height);
        case Column => OneColumnIsStacked(cells, width, height);
        case Grid =>
          GridIsNearSquare(count);
          OnGridIsInOrder(cells, grid.columns, grid.rows, width, height);
      }
    }
  }

  // ---- The cell list -------------------------------------------------------------

  function OverlayCount(count: nat): U32 {
    Min(Max(count, 1) - 1, U32_LIMIT - 1)
  }

  function CellList(width: U32, height: U32, count: nat, layout: CompositionLayout): seq<Cell>
    requires layout != PictureInPicture ==> count < U32_LIMIT
  {
    if layout == PictureInPicture then
      var overlays := OverlayCount(count);
      [Cell(0, 0, width, height)] +
      seq(overlays, i requires 0 <= i < overlays => PipOverlay(width, height, overlays, i))
    else
      GridHoldsEverySource(count, layout);
      var grid := GridSize(count, layout);
      seq(Max(count, 1), i requires 0 <= i < Max(count, 1) => GridCell(width, height, grid, i))
  }

  method PictureInPictureCells(width: U32, height: U32, count: nat) returns (cells: seq<Cell>)
    ensures cells == CellList(width, height, count, PictureInPicture)
  {
    cells := [Cell(0, 0, width, height)];
    if Max(count, 1) == 1 {
      return;
    }
    var overlays: U32 := Min(count - 1, U32_LIMIT - 1);
    for index := 0 to overlays
      invariant |cells| == index + 1
      invariant cells == CellList(width, height, count, PictureInPicture)[..index + 1]
    {
      cells := cells + [PipOverlay(width, height, overlays, index)];
    }
  }

  /** `GridLayoutCalculator::cells`: every cell lies inside the output; grid cells
      are pairwise disjoint, and so are the overlays of a picture in picture. */
  method Cells(width: U32, height: U32, count: nat, layout: CompositionLayout) returns (cells: seq<Cell>)
    requires layout != PictureInPicture ==> count < U32_LIMIT
    ensures cells == CellList(width, height, count, layout)
    ensures layout != PictureInPicture ==> |cells| == Max(count, 1)
    ensures layout == PictureInPicture ==> cells[0] == Cell(0, 0, width, height)
    ensures AllWithin(cells, width, height)
    ensures PairwiseDisjoint(if layout == PictureInPicture then cells[1..] else cells)
    ensures LaidOut(cells, width, height, count, layout)
  {
    CellListIsSafe(width, height, count, layout);
    CellListIsLaidOut(width, height, count, layout);
    hide LaidOut;
    if layout == PictureInPicture {
      cells := PictureInPictureCells(width, height, count);
      return;
    }
    GridHoldsEverySource(count, layout);
    var grid := GridSize(count, layout);
    cells := [];
    for index := 0 to Max(count, 1)
      invariant |cells| == index
      invariant cells == CellList(width, height, count, layout)[..index]
    {
      cells := cells + [GridCell(width, height, grid, index)];
    }
  }

  lemma CellListIsSafe(width: U32, height: U32, count: nat, layout: CompositionLayout)
    requires layout != PictureInPicture ==> count < U32_LIMIT
    ensures var cells := CellList(width, height, count, layout);
            && AllWithin(cells, width, height)
            && PairwiseDisjoint(if layout == PictureInPicture then cells[1..] else cells)
  {
    var cells := CellList(width, height, count, layout);
    if layout == PictureInPicture {
      var overlays := OverlayCount(count);
      forall i | 0 <= i < |cells| ensures cells[i].Within(width, height) {
        if 0 < i { PipOverlayWithin(width, height, overlays, i - 1); }
      }
      forall i, j | 0 <= i < j < |cells[1..]| ensures !Overlap(cells[1..][i], cells[1..][j]) {
        PipOverlaysApart(width, height, overlays, i, j);
      }
    } else {
      GridHoldsEverySource(count, layout);
      var grid := GridSize(count, layout);
      forall i | 0 <= i < |cells| ensures cells[i].Within(width, height) {
        GridCellWithin(width, height, grid, i);
      }
      forall i, j | 0 <= i < j < |cells| ensures !Overlap(cells[i], cells[j]) {
        GridCellsApart(width, height, grid, i, j);
      }
    }
  }

  // ---- Does the layout leave a pixel uncovered? -------------------------------------

  function TotalArea(cells: seq<Cell>): nat {
    if |cells| == 0 then 0
    else TotalArea(cells[..|cells| - 1]) + cells[|cells| - 1].width * cells[|cells| - 1].height
  }

  /** The compositor's test: some cell is the whole output, or the areas add up. */
  predicate CellsCoverOutput(cells: seq<Cell>, width: U32, height: U32) {
    || (exists i :: 0 <= i < |cells| && cells[i] == Cell(0, 0, width, height))
    || TotalArea(cells) == width * height
  }

  predicate CoveredBy(cells: seq<Cell>, px: int, py: int) {
    exists i :: 0 <= i < |cells| && cells[i].Contains(px, py)
  }

  ghost predicate EveryPixelCovered(cells: seq<Cell>, width: nat, height: nat) {
    forall px, py :: 0 <= px < width && 0 <= py < height ==> CoveredBy(cells, px, py)
  }

  ghost function Rectangle(x: int, y: int, width: nat, height: nat): set<(int, int)> {
    set px, py | x <= px < x + width && y <= py < y + height :: (px, py)
  }

  lemma {:induction false} RowSize(x: int, y: int, width: nat)
    ensures |Rectangle(x, y, width, 1)| == width
  {
    if width == 0 {
      assert Rectangle(x, y, 0, 1) == {};
    } else {
      RowSize(x, y, width - 1);
      assert Rectangle(x, y, width, 1) == Rectangle(x, y, width - 1, 1) + {(x + width - 1, y)};
    }
  }

  lemma RectangleSplit(x: int, y: int, width: nat, height: nat)
    requires 0 < height
    ensures |Rectangle(x, y, width, height)| == |Rectangle(x, y, width, height - 1)| + width
  {
    var (above, row) := (Rectangle(x, y, width, height - 1), Rectangle(x, y + height - 1, width, 1));
    RowSize(x, y + height - 1, width);
    assert Rectangle(x, y, width, height) == above + row;
    assert above !! row;
  }

  lemma {:induction false} RectangleSize(x: int, y: int, width: nat, height: nat)
    ensures |Rectangle(x, y, width, height)| == width * height
  {
    if height == 0 {
      assert Rectangle(x, y, width, 0) == {};
    } else {
      RectangleSplit(x, y, width, height);
      RectangleSize(x, y, width, height - 1);
      assert width * (height - 1) + width == width * height;
    }
  }

  ghost function PixelsOf(cells: seq<Cell>): set<(int, int)> {
    if |cells| == 0 then {}
    else var last := cells[|cells| - 1];
         PixelsOf(cells[..|cells| - 1]) + Rectangle(last.x, last.y, last.width, last.height)
  }

  lemma {:induction false} PixelsOfMember(cells: seq<Cell>, px: int, py: int)
    ensures (px, py) in PixelsOf(cells) <==> CoveredBy(cells, px, py)
  {
    if |cells| != 0 {
      var front := cells[..|cells| - 1];
      PixelsOfMember(front, px, py);
      if CoveredBy(front, px, py) {
        var i :| 0 <= i < |front| && front[i].Contains(px, py);
        assert cells[i].Contains(px, py);
      }
    }
  }

  /** Disjoint cells: counting pixels is adding areas. */
  lemma {:induction false} AreaCountsPixels(cells: seq<Cell>)
    requires PairwiseDisjoint(cells)
    ensures |PixelsOf(cells)| == TotalArea(cells)
  {
    if |cells| != 0 {
      var (front, last) := (cells[..|cells| - 1], cells[|cells| - 1]);
      AreaCountsPixels(front);
      RectangleSize(last.x, last.y, last.width, last.height);
      var lastPixels := Rectangle(last.x, last.y, last.width, last.height);
      forall p | p in PixelsOf(front) ensures p !in lastPixels {
        PixelsOfMember(front, p.0, p.1);
        var i :| 0 <= i < |front| && front[i].Contains(p.0, p.1);
        assert !Overlap(cells[i], last);
      }
      assert PixelsOf(front) !! lastPixels;
    }
  }

  lemma SubsetSize<T>(small: set<T>, big: set<T>)
    requires small <= big
    ensures |small| <= |big|
    ensures |small| == |big| <==> small == big
  {
    assert |big - small| == |big| - |small|;
    assert big == small + (big - small);
  }

  lemma CoveredMeansAllPixels(cells: seq<Cell>, width: U32, height: U32)
    requires AllWithin(cells, width, height)
    ensures PixelsOf(cells) <= Rectangle(0, 0, width, height)
    ensures PixelsOf(cells) == Rectangle(0, 0, width, height) <==> EveryPixelCovered(cells, width, height)
  {
    var (output, covered) := (Rectangle(0, 0, width, height), PixelsOf(cells));
    forall p | p in covered ensures p in output {
      PixelsOfMember(cells, p.0, p.1);
      var i :| 0 <= i < |cells| && cells[i].Contains(p.0, p.1);
      assert cells[i].Within(width, height);
    }
    if EveryPixelCovered(cells, width, height) {
      forall p | p in output ensures p in covered {
        PixelsOfMember(cells, p.0, p.1);
      }
    }
    if covered == output {
      forall px, py | 0 <= px < width && 0 <= py < height ensures CoveredBy(cells, px, py) {
        assert (px, py) in output;
        PixelsOfMember(cells, px, py);
      }
    }
  }

  /** For disjoint cells inside the output the area sum cannot overflow 64 bits, and
      it reaches the output's area exactly when no pixel is left uncovered. */
  lemma {:induction false} AreaTestIsExact(cells: seq<Cell>, width: U32, height: U32)
    requires AllWithin(cells, width, height) && PairwiseDisjoint(cells)
    ensures TotalArea(cells) <= width * height < U64_LIMIT
    ensures TotalArea(cells) == width * height <==> EveryPixelCovered(cells, width, height)
  {
    AreaCountsPixels(cells);
    RectangleSize(0, 0, width, height);
    CoveredMeansAllPixels(cells, width, height);
    SubsetSize(PixelsOf(cells), Rectangle(0, 0, width, height));
    MulMonotone(width, U32_LIMIT - 1, height);
  }

  /** `cells_cover_output` answers the question its name asks, for every layout. */
  lemma CoverTestIsExact(width: U32, height: U32, count: nat, layout: CompositionLayout)
    requires layout != PictureInPicture ==> count < U32_LIMIT
    ensures var cells := CellList(width, height, count, layout);
            CellsCoverOutput(cells, width, height) <==> EveryPixelCovered(cells, width, height)
  {
    var cells := CellList(width, height, count, layout);
    CellListIsSafe(width, height, count, layout);
    if layout == PictureInPicture {
      assert cells[0] == Cell(0, 0, width, height);
      assert forall px, py :: 0 <= px < width && 0 <= py < height ==> cells[0].Contains(px, py);
    } else {
      AreaTestIsExact(cells, width, height);
      if i :| 0 <= i < |cells| && cells[i] == Cell(0, 0, width, height) {
        assert forall px, py :: 0 <= px < width && 0 <= py < height ==> cells[i].Contains(px, py);
      }
    }
  }
}
