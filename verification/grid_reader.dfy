/** The mesh-building part of `GmtGridReader::RequestData`: the grid is
    loaded as a row-major list of points, then every interior cell is split
    into two triangles whose vertices are point-list offsets. */
module GmtGridReader {
  import opened UInt32
  import opened RowMajor
  import opened GridOffsets

  datatype Option<T> = None | Some(value: T)

  /** A mesh vertex: x is the grid row, y the grid column, z the height
      sampled at that node. */
  datatype Point = Point(x: nat, y: nat, z: real)

  /** A triangle as three point-list offsets. */
  datatype Triangle = Triangle(a: nat, b: nat, c: nat)

  /** What the grid file yields: its dimensions and the height at each node.
      How GMT lays out its data array is hidden inside `height`. */
  datatype Grid = Grid(nRows: u32, nCols: u32, height: (u32, u32) -> real)

  /** The reader's output: points, triangle cells, the `nCells` counter and
      the number of out-of-bounds diagnostics `gridOffset` wrote. */
  datatype Mesh = Mesh(points: seq<Point>, cells: seq<Triangle>, nCells: int, offsetLogs: nat)

  datatype ReadResult = Built(mesh: Mesh) | CannotOpenFile

  /** `points` holds the node (row, col) at its row-major position, and
      nothing else. */
  ghost predicate IsRowMajorGrid(points: seq<Point>, nRows: u32, nCols: u32, height: (u32, u32) -> real)
  {
    && |points| == nRows * nCols
    && forall row: u32, col: u32 :: row < nRows && col < nCols ==>
         Flat(nCols, row, col) < |points| && points[Flat(nCols, row, col)] == Point(row, col, height(row, col))
  }

  /** First triangle of cell (row, col): its top-left, top-right and
      bottom-right corners. */
  function UpperTriangle(nRows: u32, nCols: u32, row: u32, col: u32): (t: Triangle)
    requires row < MAX && col < MAX
    ensures Addressable(nRows, nCols) && row + 1 < nRows && col + 1 < nCols ==>
      t.a == Flat(nCols, row, col) && t.b == t.a + 1 && t.c == t.a + nCols + 1
  {
    Triangle(GridOffset(nRows, nCols, row, col).id,
             GridOffset(nRows, nCols, row, col + 1).id,
             GridOffset(nRows, nCols, row + 1, col + 1).id)
  }

  /** Second triangle of cell (row, col): top-left, bottom-right, bottom-left. */
  function LowerTriangle(nRows: u32, nCols: u32, row: u32, col: u32): (t: Triangle)
    requires row < MAX && col < MAX
    ensures Addressable(nRows, nCols) && row + 1 < nRows && col + 1 < nCols ==>
      t.a == Flat(nCols, row, col) && t.b == t.a + nCols + 1 && t.c == t.a + nCols
  {
    Triangle(GridOffset(nRows, nCols, row, col).id,
             GridOffset(nRows, nCols, row + 1, col + 1).id,
             GridOffset(nRows, nCols, row + 1, col).id)
  }

  /** A bound of the triangle loop, `nRows-1` or `nCols-1` on an unsigned
      value: one less than the count, or the top of the range when the count
      is zero. */
  function CellBound(n: u32): (bound: u32)
    ensures n >= 1 ==> bound == n - 1
    ensures n == 0 ==> bound == MAX
  {
    Sub(n, 1)
  }

  /** Every cell the loop visits before the cursor (row, col) has its upper
      and then its lower triangle at its row-major pair of positions. */
  ghost predicate LaidOutBefore(cells: seq<Triangle>, nRows: u32, nCols: u32, row: nat, col: nat)
  {
    var rows: nat, cols: nat := CellBound(nRows), CellBound(nCols);
    forall r: u32, c: u32 :: r < rows && c < cols && (r < row || (r == row && c < col)) ==>
      2 * Flat(cols, r, c) + 1 < |cells|
      && cells[2 * Flat(cols, r, c)] == UpperTriangle(nRows, nCols, r, c)
      && cells[2 * Flat(cols, r, c) + 1] == LowerTriangle(nRows, nCols, r, c)
  }

  /** `cells` holds, cell by cell in row-major order, the upper and then the
      lower triangle of every cell the loop visits, and nothing else. */
  ghost predicate IsTriangulation(cells: seq<Triangle>, nRows: u32, nCols: u32)
  {
    var rows: nat, cols: nat := CellBound(nRows), CellBound(nCols);
    && |cells| == 2 * (rows * cols)
    && LaidOutBefore(cells, nRows, nCols, rows, 0)
  }

  /** Appending the two triangles of the cell under the cursor extends the
      layout by that one cell. */
  lemma ExtendLayout(before: seq<Triangle>, nRows: u32, nCols: u32, row: u32, col: u32)
    requires row < CellBound(nRows) && col < CellBound(nCols)
    requires |before| == 2 * Flat(CellBound(nCols), row, col)
    requires LaidOutBefore(before, nRows, nCols, row, col)
    ensures LaidOutBefore(before + [UpperTriangle(nRows, nCols, row, col), LowerTriangle(nRows, nCols, row, col)],
                          nRows, nCols, row, col + 1)
  {
    var cells := before + [UpperTriangle(nRows, nCols, row, col), LowerTriangle(nRows, nCols, row, col)];
    var rows: nat, cols: nat := CellBound(nRows), CellBound(nCols);
    forall r: u32, c: u32 | r < rows && c < cols && (r < row || (r == row && c < col + 1))
      ensures 2 * Flat(cols, r, c) + 1 < |cells|
      ensures cells[2 * Flat(cols, r, c)] == UpperTriangle(nRows, nCols, r, c)
      ensures cells[2 * Flat(cols, r, c) + 1] == LowerTriangle(nRows, nCols, r, c)
    {
      if r != row || c != col {
        FlatBeforeCursor(cols, row, col, r, c);
      }
    }
  }

  predicate VerticesBelow(t: Triangle, n: nat)
  {
    t.a < n && t.b < n && t.c < n
  }

  function Logged(o: Offset): (n: nat)
  {
    if o.outOfBounds then 1 else 0
  }

  /** The point loop: after the reset, one point per node, rows outermost. */
  method LoadPoints(nRows: u32, nCols: u32, height: (u32, u32) -> real) returns (points: seq<Point>)
    ensures IsRowMajorGrid(points, nRows, nCols, height)
  {
    points := [];
    var row: u32 := 0;
    while row < nRows
      invariant row <= nRows
      invariant |points| == row * nCols
      invariant forall r: u32, c: u32 :: r < row && c < nCols ==>
        Flat(nCols, r, c) < |points| && points[Flat(nCols, r, c)] == Point(r, c, height(r, c))
    {
      var col: u32 := 0;
      while col < nCols
        invariant col <= nCols
        invariant |points| == row * nCols + col
        invariant forall r: u32, c: u32 :: (r < row || (r == row && c < col)) && c < nCols ==>
          Flat(nCols, r, c) < |points| && points[Flat(nCols, r, c)] == Point(r, c, height(r, c))
      {
        var before := points;
        points := points + [Point(row, col, height(row, col))];
        forall r: u32, c: u32 | (r < row || (r == row && c < col + 1)) && c < nCols
          ensures Flat(nCols, r, c) < |points| && points[Flat(nCols, r, c)] == Point(r, c, height(r, c))
        {
          if r == row && c == col {
            assert Flat(nCols, r, c) == |before|;
          } else {
            FlatBeforeCursor(nCols, row, col, r, c);
          }
        }
        col := col + 1;
      }
      assert |points| == (row + 1) * nCols;
      row := row + 1;
    }
  }

  /** One pass of the triangle loop's body: the six `gridOffset` calls of
      cell (row, col) and the two triangles they form. Inside the grid no call
      is out of bounds; in a grid without rows or columns the first already is. */
  method CellTriangles(nRows: u32, nCols: u32, row: u32, col: u32) returns (upper: Triangle, lower: Triangle, logs: nat)
    requires row < MAX && col < MAX
    ensures upper == UpperTriangle(nRows, nCols, row, col)
    ensures lower == LowerTriangle(nRows, nCols, row, col)
    ensures row + 1 < nRows && col + 1 < nCols ==>
      logs == 0 && VerticesBelow(upper, nRows * nCols) && VerticesBelow(lower, nRows * nCols)
    ensures nRows == 0 || nCols == 0 ==> logs > 0
  {
    // First triangle
    var o0 := GridOffset(nRows, nCols, row, col);
    var o1 := GridOffset(nRows, nCols, row, col + 1);
    var o2 := GridOffset(nRows, nCols, row + 1, col + 1);
    upper := Triangle(o0.id, o1.id, o2.id);
    // Second triangle
    var o3 := GridOffset(nRows, nCols, row, col);
    var o4 := GridOffset(nRows, nCols, row + 1, col + 1);
    var o5 := GridOffset(nRows, nCols, row + 1, col);
    lower := Triangle(o3.id, o4.id, o5.id);
    logs := Logged(o0) + Logged(o1) + Logged(o2) + Logged(o3) + Logged(o4) + Logged(o5);
  }

  /** What holds of the triangle loop's results when its cursor is at
      (row, col): the cells visited so far are laid out, and the diagnostics
      logged so far match the grid's shape. */
  ghost predicate TriangleLoopState(cells: seq<Triangle>, logs: nat, nRows: u32, nCols: u32, row: nat, col: nat)
  {
    && |cells| == 2 * Flat(CellBound(nCols), row, col)
    && LaidOutBefore(cells, nRows, nCols, row, col)
    && (nRows >= 1 && nCols >= 1 ==> logs == 0 && forall t :: t in cells ==> VerticesBelow(t, nRows * nCols))
    && (cells == [] ==> logs == 0)
    && ((nRows == 0 || nCols == 0) && cells != [] ==> logs > 0)
  }

  /** One pass of the inner loop's body advances the loop state by one cell. */
  lemma TriangleLoopStep(cells: seq<Triangle>, logs: nat, nRows: u32, nCols: u32, row: u32, col: u32, cellLogs: nat)
    requires row < CellBound(nRows) && col < CellBound(nCols)
    requires TriangleLoopState(cells, logs, nRows, nCols, row, col)
    requires row + 1 < nRows && col + 1 < nCols ==>
      cellLogs == 0
      && VerticesBelow(UpperTriangle(nRows, nCols, row, col), nRows * nCols)
      && VerticesBelow(LowerTriangle(nRows, nCols, row, col), nRows * nCols)
    requires nRows == 0 || nCols == 0 ==> cellLogs > 0
    ensures TriangleLoopState(cells + [UpperTriangle(nRows, nCols, row, col), LowerTriangle(nRows, nCols, row, col)],
                              logs + cellLogs, nRows, nCols, row, col + 1)
  {
    ExtendLayout(cells, nRows, nCols, row, col);
  }

  /** Finishing a row of cells is starting the next one. */
  lemma TriangleLoopNextRow(cells: seq<Triangle>, logs: nat, nRows: u32, nCols: u32, row: nat)
    requires TriangleLoopState(cells, logs, nRows, nCols, row, CellBound(nCols))
    ensures TriangleLoopState(cells, logs, nRows, nCols, row + 1, 0)
  {
    assert Flat(CellBound(nCols), row, CellBound(nCols)) == Flat(CellBound(nCols), row + 1, 0);
  }

  /** What the loop state says once every row of cells has been visited. */
  lemma TriangleLoopDone(cells: seq<Triangle>, logs: nat, nRows: u32, nCols: u32)
    requires TriangleLoopState(cells, logs, nRows, nCols, CellBound(nRows), 0)
    ensures IsTriangulation(cells, nRows, nCols)
    ensures nRows >= 1 && nCols >= 1 ==> |cells| == 2 * (nRows - 1) * (nCols - 1)
    ensures nRows == 1 || nCols == 1 ==> cells == []
    ensures nRows >= 1 && nCols >= 1 ==> forall t :: t in cells ==> VerticesBelow(t, nRows * nCols)
    ensures logs == 0 <==> (cells == [] || (nRows >= 1 && nCols >= 1))
  {
  }

  /** The inner triangle loop: the cells of one row, left to right. */
  method TriangulateRow(nRows: u32, nCols: u32, row: u32, cells0: seq<Triangle>, nCells0: int, logs0: nat)
    returns (cells: seq<Triangle>, nCells: int, logs: nat)
    requires row < CellBound(nRows)
    requires nCells0 == |cells0|
    requires TriangleLoopState(cells0, logs0, nRows, nCols, row, 0)
    ensures nCells == |cells|
    ensures TriangleLoopState(cells, logs, nRows, nCols, row + 1, 0)
  {
    cells, nCells, logs := cells0, nCells0, logs0;
    var cols := CellBound(nCols);
    var col: u32 := 0;
    while col < cols
      invariant col <= cols
      invariant nCells == |cells|
      invariant TriangleLoopState(cells, logs, nRows, nCols, row, col)
    {
      var before := cells;
      var upper, lower, cellLogs := CellTriangles(nRows, nCols, row, col);
      TriangleLoopStep(cells, logs, nRows, nCols, row, col, cellLogs);
      cells := cells + [upper];
      nCells := nCells + 1;
      cells := cells + [lower];
      nCells := nCells + 1;
      logs := logs + cellLogs;
      assert cells == before + [upper, lower];
      col := col + 1;
    }
    TriangleLoopNextRow(cells, logs, nRows, nCols, row);
  }

  /** The triangle loop. With at least one row and one column it emits
      exactly two triangles per interior cell, every vertex addresses a loaded
      point and no offset is out of bounds. With zero rows or columns the
      unsigned `- 1` wraps to the top of the range and the loop runs over
      cells outside the grid, logging on the way. */
  method Triangulate(nRows: u32, nCols: u32) returns (cells: seq<Triangle>, nCells: int, logs: nat)
    ensures IsTriangulation(cells, nRows, nCols)
    ensures nCells == |cells|
    ensures nRows >= 1 && nCols >= 1 ==> |cells| == 2 * (nRows - 1) * (nCols - 1)
    ensures nRows == 1 || nCols == 1 ==> cells == []
    ensures nRows >= 1 && nCols >= 1 ==> forall t :: t in cells ==> VerticesBelow(t, nRows * nCols)
    ensures logs == 0 <==> (cells == [] || (nRows >= 1 && nCols >= 1))
  {
    cells := [];
    nCells := 0;
    logs := 0;
    var rows := CellBound(nRows);
    var row: u32 := 0;
    while row < rows
      invariant row <= rows
      invariant nCells == |cells|
      invariant TriangleLoopState(cells, logs, nRows, nCols, row, 0)
    {
      cells, nCells, logs := TriangulateRow(nRows, nCols, row, cells, nCells, logs);
      row := row + 1;
    }
    assert row == rows;
    TriangleLoopDone(cells, logs, nRows, nCols);
  }

  /** `RequestData` from reading the grid onwards: a failed read ends the
      request with a cannot-open-file error and builds nothing; otherwise the
      points are loaded and the grid triangulated. */
  method RequestData(read: Option<Grid>) returns (r: ReadResult)
    ensures read.None? <==> r.CannotOpenFile?
    ensures read.Some? ==>
      && IsRowMajorGrid(r.mesh.points, read.value.nRows, read.value.nCols, read.value.height)
      && IsTriangulation(r.mesh.cells, read.value.nRows, read.value.nCols)
      && r.mesh.nCells == |r.mesh.cells|
    ensures read.Some? && read.value.nRows >= 1 && read.value.nCols >= 1 ==> r.mesh.offsetLogs == 0
  {
    if read.None? {
      return CannotOpenFile;
    }
    var grid := read.value;
    var points := LoadPoints(grid.nRows, grid.nCols, grid.height);
    var cells, nCells, logs := Triangulate(grid.nRows, grid.nCols);
    r := Built(Mesh(points, cells, nCells, logs));
  }

  /** Capacity requested for points before the point loop (an unsigned product). */
  function PointReserve(nRows: u32, nCols: u32): (n: u32)
    ensures nRows * nCols < MODULUS ==> n == nRows * nCols
  {
    Mul(nRows, nCols)
  }

  /** Capacity requested for cells before the triangle loop. */
  function PolygonReserve(nRows: u32, nCols: u32): (n: u32)
    ensures 2 * (nRows * nCols) < MODULUS ==> n == 2 * (nRows * nCols)
  {
    Mul(Mul(nRows, nCols), 2)
  }

  /** While twice the node count fits in 32 bits, the point reservation is the
      exact point count and the cell reservation covers every emitted cell. */
  lemma ReservesCoverMesh(nRows: u32, nCols: u32)
    requires nRows >= 1 && nCols >= 1
    requires 2 * (nRows * nCols) < MODULUS
    ensures PointReserve(nRows, nCols) == nRows * nCols
    ensures 2 * (CellBound(nRows) * CellBound(nCols)) <= PolygonReserve(nRows, nCols)
  {
  }
}
