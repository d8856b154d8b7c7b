/** Cell geometry of a collage (the arithmetic at the top of `create_collage`
    in collage.py): cell size, thumbnail box, grid extent and centring, and
    the rectangles of the cells.

    Python's `//` rounds towards negative infinity; every division here has a
    positive divisor, where Dafny's Euclidean `/` agrees with it. */
module Layout {
  import opened Crop

  /** The parameters of one collage build, apart from the sources,
      the background colour and the output file. */
  datatype Config = Config(
    outputWidth: int,
    outputHeight: int,
    cols: int,
    rows: int,
    frameSpacing: int,
    colSpacing: int,
    rowSpacing: int,
    cropToSquare: bool,
    gravity: real)

  /** Spacing used when the caller gives none (frame, column and row). */
  const DefaultSpacing: int := 10

  /** A collage build with the default spacing, no cropping and the default
      gravity. */
  function DefaultConfig(outputWidth: int, outputHeight: int, cols: int, rows: int): (c: Config)
    ensures c.frameSpacing == c.colSpacing == c.rowSpacing == DefaultSpacing
    ensures !c.cropToSquare && c.gravity == DefaultGravity
    ensures c.outputWidth == outputWidth && c.outputHeight == outputHeight
    ensures c.cols == cols && c.rows == rows
  {
    Config(outputWidth, outputHeight, cols, rows,
           DefaultSpacing, DefaultSpacing, DefaultSpacing, false, DefaultGravity)
  }

  /** An axis-aligned rectangle on the canvas. */
  datatype Rect = Rect(x: int, y: int, width: int, height: int)

  predicate Within(inner: Rect, outer: Rect)
  {
    outer.x <= inner.x && inner.x + inner.width <= outer.x + outer.width &&
    outer.y <= inner.y && inner.y + inner.height <= outer.y + outer.height
  }

  /** Two rectangles share no pixel: one lies wholly left of, right of,
      above or below the other. */
  predicate Disjoint(a: Rect, b: Rect)
  {
    a.x + a.width <= b.x || b.x + b.width <= a.x ||
    a.y + a.height <= b.y || b.y + b.height <= a.y
  }

  /** The derived geometry of a build. */
  datatype Geometry = Geometry(
    cellWidth: int,
    cellHeight: int,
    boxWidth: int,
    boxHeight: int,
    gridWidth: int,
    gridHeight: int,
    originX: int,
    originY: int)

  /** Canvas width left for cells once the frame on both sides and the
      spacing between columns are taken away. */
  function AvailableWidth(c: Config): int
  {
    c.outputWidth - 2 * c.frameSpacing - (c.cols - 1) * c.colSpacing
  }

  function AvailableHeight(c: Config): int
  {
    c.outputHeight - 2 * c.frameSpacing - (c.rows - 1) * c.rowSpacing
  }

  /** What the source needs of a build that has at least one source: a grid
      with at least one row and column (a zero dimension divides by zero), a
      canvas of non-negative size (the imaging library refuses a negative
      one) and cells of at least one pixel each way (the thumbnail box). */
  predicate WellFormed(c: Config)
  {
    c.cols >= 1 && c.rows >= 1 &&
    c.outputWidth >= 0 && c.outputHeight >= 0 &&
    AvailableWidth(c) >= c.cols && AvailableHeight(c) >= c.rows
  }

  /** The geometry of a build: the cell size, the thumbnail box (the cell
      or, when cropping, the largest square inside it), the extent of the
      grid block and its origin. GeometryBounds states what the sizes and
      the origin mean. */
  function ComputeGeometry(c: Config): (g: Geometry)
    requires c.cols >= 1 && c.rows >= 1
    ensures !c.cropToSquare ==> g.boxWidth == g.cellWidth && g.boxHeight == g.cellHeight
    ensures c.cropToSquare ==>
              g.boxWidth == g.boxHeight == Min(g.cellWidth, g.cellHeight)
  {
    var cellWidth := AvailableWidth(c) / c.cols;
    var cellHeight := AvailableHeight(c) / c.rows;
    var side := Min(cellWidth, cellHeight);
    var gridWidth := c.cols * cellWidth + (c.cols - 1) * c.colSpacing;
    var gridHeight := c.rows * cellHeight + (c.rows - 1) * c.rowSpacing;
    Geometry(cellWidth, cellHeight,
             if c.cropToSquare then side else cellWidth,
             if c.cropToSquare then side else cellHeight,
             gridWidth, gridHeight,
             (c.outputWidth - gridWidth) / 2,
             (c.outputHeight - gridHeight) / 2)
  }

  /** Cells share the available area equally, rounding down; the grid block
      is the cells plus the spacing between them; and it is centred on the
      canvas, rounding down. */
  lemma GeometryBounds(c: Config)
    requires c.cols >= 1 && c.rows >= 1
    ensures var g := ComputeGeometry(c);
            c.cols * g.cellWidth <= AvailableWidth(c) < c.cols * (g.cellWidth + 1) &&
            c.rows * g.cellHeight <= AvailableHeight(c) < c.rows * (g.cellHeight + 1)
    ensures var g := ComputeGeometry(c);
            g.gridWidth == c.cols * g.cellWidth + (c.cols - 1) * c.colSpacing &&
            g.gridHeight == c.rows * g.cellHeight + (c.rows - 1) * c.rowSpacing
    ensures var g := ComputeGeometry(c);
            2 * g.originX <= c.outputWidth - g.gridWidth <= 2 * g.originX + 1 &&
            2 * g.originY <= c.outputHeight - g.gridHeight <= 2 * g.originY + 1
  {
    FloorDivBounds(AvailableWidth(c), c.cols);
    FloorDivBounds(AvailableHeight(c), c.rows);
  }

  /** Division by a positive number rounds down. */
  lemma FloorDivBounds(a: int, b: int)
    requires b >= 1
    ensures b * (a / b) <= a < b * (a / b + 1)
  {
    assert a == b * (a / b) + a % b;
  }

  /** The top-left corner of cell (row, col): the grid origin plus one cell
      and one spacing per preceding column or row. */
  function CellX(c: Config, g: Geometry, col: int): int
  {
    g.originX + col * (g.cellWidth + c.colSpacing)
  }

  function CellY(c: Config, g: Geometry, row: int): int
  {
    g.originY + row * (g.cellHeight + c.rowSpacing)
  }

  function CellRect(c: Config, g: Geometry, row: int, col: int): Rect
  {
    Rect(CellX(c, g, col), CellY(c, g, row), g.cellWidth, g.cellHeight)
  }

  function GridRect(g: Geometry): Rect
  {
    Rect(g.originX, g.originY, g.gridWidth, g.gridHeight)
  }

  /** The canvas without the frame on each side. */
  function InsideFrame(c: Config): Rect
  {
    Rect(c.frameSpacing, c.frameSpacing,
         c.outputWidth - 2 * c.frameSpacing, c.outputHeight - 2 * c.frameSpacing)
  }

  /** The offset that centres an extent of `size` in one of `cell`, rounding
      down, as `(cell - size) // 2`. */
  function CenterOffset(cell: int, size: int): (r: int)
    ensures 2 * r <= cell - size <= 2 * r + 1
  {
    (cell - size) / 2
  }

  /** Cells are at least one pixel each way in a well-formed build. */
  lemma CellsPositive(c: Config)
    requires WellFormed(c)
    ensures ComputeGeometry(c).cellWidth >= 1 && ComputeGeometry(c).cellHeight >= 1
    ensures ComputeGeometry(c).boxWidth >= 1 && ComputeGeometry(c).boxHeight >= 1
  {
    var g := ComputeGeometry(c);
    GeometryBounds(c);
    DivAtLeastOne(AvailableWidth(c), c.cols);
    DivAtLeastOne(AvailableHeight(c), c.rows);
  }

  lemma DivAtLeastOne(a: int, b: int)
    requires 1 <= b <= a
    ensures a / b >= 1
  {
    FloorDivBounds(a, b);
    assert b * (a / b + 1) > b * 1;
  }

  /** The thumbnail box is never larger than the cell. */
  lemma BoxWithinCell(c: Config)
    requires c.cols >= 1 && c.rows >= 1
    ensures ComputeGeometry(c).boxWidth <= ComputeGeometry(c).cellWidth
    ensures ComputeGeometry(c).boxHeight <= ComputeGeometry(c).cellHeight
  {
  }

  /** Centring is exact up to one pixel: the margins left and right of the
      grid differ by at most one, and likewise above and below. */
  lemma GridCentred(c: Config)
    requires c.cols >= 1 && c.rows >= 1
    ensures var g := ComputeGeometry(c);
            var left := g.originX;
            var right := c.outputWidth - (g.originX + g.gridWidth);
            0 <= right - left <= 1
    ensures var g := ComputeGeometry(c);
            var top := g.originY;
            var bottom := c.outputHeight - (g.originY + g.gridHeight);
            0 <= bottom - top <= 1
  {
    GeometryBounds(c);
  }

  /** The centred grid leaves at least the frame on every side of the
      canvas. */
  lemma GridInsideFrame(c: Config)
    requires c.cols >= 1 && c.rows >= 1
    ensures Within(GridRect(ComputeGeometry(c)), InsideFrame(c))
  {
    var g := ComputeGeometry(c);
    GeometryBounds(c);
    // Rounding the cells down leaves the grid no wider than the usable area.
    assert g.gridWidth <= c.outputWidth - 2 * c.frameSpacing;
    assert g.gridHeight <= c.outputHeight - 2 * c.frameSpacing;
  }

  /** Every cell of the grid lies inside the grid block, under non-negative
      spacing. */
  lemma CellInsideGrid(c: Config, row: int, col: int)
    requires WellFormed(c)
    requires c.colSpacing >= 0 && c.rowSpacing >= 0
    requires 0 <= row < c.rows && 0 <= col < c.cols
    ensures Within(CellRect(c, ComputeGeometry(c), row, col), GridRect(ComputeGeometry(c)))
  {
    var g := ComputeGeometry(c);
    CellsPositive(c);
    GeometryBounds(c);
    StepBounds(col, c.cols, g.cellWidth, c.colSpacing);
    StepBounds(row, c.rows, g.cellHeight, c.rowSpacing);
  }

  /** In a row of n cells of size `cell` separated by `gap`, cell i starts
      at or after the first and ends at or before the last. */
  lemma StepBounds(i: int, n: int, cell: int, gap: int)
    requires 0 <= i < n && cell >= 0 && gap >= 0
    ensures 0 <= i * (cell + gap)
    ensures i * (cell + gap) + cell <= n * cell + (n - 1) * gap
  {
    assert i * (cell + gap) <= (n - 1) * (cell + gap) by {
      assert (n - 1 - i) * (cell + gap) >= 0;
    }
  }

  /** Distinct cells never overlap when the spacing is non-negative. */
  lemma CellsDisjoint(c: Config, r1: int, c1: int, r2: int, c2: int)
    requires WellFormed(c)
    requires c.colSpacing >= 0 && c.rowSpacing >= 0
    requires (r1, c1) != (r2, c2)
    ensures Disjoint(CellRect(c, ComputeGeometry(c), r1, c1), CellRect(c, ComputeGeometry(c), r2, c2))
  {
    var g := ComputeGeometry(c);
    CellsPositive(c);
    if c1 < c2 {
      StepApart(c1, c2, g.cellWidth, c.colSpacing);
    } else if c2 < c1 {
      StepApart(c2, c1, g.cellWidth, c.colSpacing);
    } else if r1 < r2 {
      StepApart(r1, r2, g.cellHeight, c.rowSpacing);
    } else {
      StepApart(r2, r1, g.cellHeight, c.rowSpacing);
    }
  }

  /** A later cell in a row starts no earlier than an earlier one ends. */
  lemma StepApart(i: int, j: int, cell: int, gap: int)
    requires i < j && cell >= 0 && gap >= 0
    ensures i * (cell + gap) + cell <= j * (cell + gap)
  {
    var step := cell + gap;
    var d := j - i;
    assert (d - 1) * step >= 0;
    assert d * step == (d - 1) * step + step;
    assert j * step == i * step + d * step;
  }

  /** An extent no larger than the cell, centred in it, stays inside it. */
  lemma CenteredWithin(cell: int, size: int)
    requires 0 <= size <= cell
    ensures 0 <= CenterOffset(cell, size)
    ensures CenterOffset(cell, size) + size <= cell
  {
  }
}
