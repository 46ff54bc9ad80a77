/** Properties of the mesh as a whole: how each cell's two triangles cover
    it, and that every triangle's vertex offsets address the points the
    point loop placed at the cell's corners. */
module MeshProperties {
  import opened UInt32
  import opened RowMajor
  import opened GridOffsets
  import opened GmtGridReader

  function Vertices(t: Triangle): (vs: set<nat>)
  {
    {t.a, t.b, t.c}
  }

  /** The offsets of the four corners of cell (row, col). */
  function Corners(nRows: u32, nCols: u32, row: u32, col: u32): (vs: set<nat>)
    requires row < MAX && col < MAX
  {
    { GridOffset(nRows, nCols, row, col).id, GridOffset(nRows, nCols, row, col + 1).id,
      GridOffset(nRows, nCols, row + 1, col).id, GridOffset(nRows, nCols, row + 1, col + 1).id }
  }

  /** The two triangles of a cell are proper triangles that meet exactly
      along the diagonal from (row, col) to (row+1, col+1), and together use
      the cell's four corners and nothing else. */
  lemma CellSharesDiagonal(nRows: u32, nCols: u32, row: u32, col: u32)
    requires Addressable(nRows, nCols)
    requires row + 1 < nRows && col + 1 < nCols
    ensures |Vertices(UpperTriangle(nRows, nCols, row, col))| == 3
    ensures |Vertices(LowerTriangle(nRows, nCols, row, col))| == 3
    ensures Vertices(UpperTriangle(nRows, nCols, row, col)) * Vertices(LowerTriangle(nRows, nCols, row, col))
         == {GridOffset(nRows, nCols, row, col).id, GridOffset(nRows, nCols, row + 1, col + 1).id}
    ensures Vertices(UpperTriangle(nRows, nCols, row, col)) + Vertices(LowerTriangle(nRows, nCols, row, col))
         == Corners(nRows, nCols, row, col)
  {
    OffsetAdjacency(nRows, nCols, row, col);
    OffsetAdjacency(nRows, nCols, row, col + 1);
    OffsetAdjacency(nRows, nCols, row + 1, col);
  }

  /** Twice the signed area of the triangle p, q, s in the (x, y) plane. */
  function DoubleSignedArea(p: Point, q: Point, s: Point): (area: int)
  {
    (q.x - p.x) * (s.y - p.y) - (q.y - p.y) * (s.x - p.x)
  }

  predicate Neighbours(p: Point, q: Point)
  {
    -1 <= p.x - q.x <= 1 && -1 <= p.y - q.y <= 1
  }

  /** Triangle t addresses three loaded points that are mutual grid
      neighbours and span half a grid cell with the same (clockwise in x =
      row, y = col) orientation as every other triangle. */
  ghost predicate IsUnitTriangle(points: seq<Point>, t: Triangle)
  {
    && VerticesBelow(t, |points|)
    && Neighbours(points[t.a], points[t.b])
    && Neighbours(points[t.b], points[t.c])
    && Neighbours(points[t.c], points[t.a])
    && DoubleSignedArea(points[t.a], points[t.b], points[t.c]) == -1
  }

  /** Both triangles of an interior cell are unit half-cells of the loaded
      points. */
  /** Point p sits at grid node (row, col). */
  predicate At(p: Point, row: nat, col: nat)
  {
    p.x == row && p.y == col
  }

  /** Triangle t is one of the two halves of cell (row, col) split along the
      diagonal (row, col)-(row+1, col+1): it starts at the top-left corner and
      continues either right then diagonally down, or diagonally down then
      down. */
  ghost predicate IsHalfOfCell(points: seq<Point>, t: Triangle, row: nat, col: nat)
  {
    && VerticesBelow(t, |points|)
    && At(points[t.a], row, col)
    && ((At(points[t.b], row, col + 1) && At(points[t.c], row + 1, col + 1))
        || (At(points[t.b], row + 1, col + 1) && At(points[t.c], row + 1, col)))
  }

  /** Triangle t is a half of some interior cell of an nRows x nCols grid. */
  ghost predicate IsHalfOfSomeCell(points: seq<Point>, t: Triangle, nRows: u32, nCols: u32)
  {
    exists row: u32, col: u32 :: row + 1 < nRows && col + 1 < nCols && IsHalfOfCell(points, t, row, col)
  }

  lemma CellTrianglesAreUnit(points: seq<Point>, nRows: u32, nCols: u32, height: (u32, u32) -> real, row: u32, col: u32)
    requires Addressable(nRows, nCols)
    requires IsRowMajorGrid(points, nRows, nCols, height)
    requires row + 1 < nRows && col + 1 < nCols
    ensures IsUnitTriangle(points, UpperTriangle(nRows, nCols, row, col))
    ensures IsUnitTriangle(points, LowerTriangle(nRows, nCols, row, col))
    ensures IsHalfOfCell(points, UpperTriangle(nRows, nCols, row, col), row, col)
    ensures IsHalfOfCell(points, LowerTriangle(nRows, nCols, row, col), row, col)
  {
  }

  /** Every position of a triangulation belongs to a cell inside the grid:
      the inverse of the cell layout. */
  lemma CellOfIndex(cells: seq<Triangle>, nRows: u32, nCols: u32, k: nat) returns (row: u32, col: u32)
    requires nRows >= 1 && nCols >= 1
    requires IsTriangulation(cells, nRows, nCols)
    requires k < |cells|
    ensures row + 1 < nRows && col + 1 < nCols
    ensures cells[k] == UpperTriangle(nRows, nCols, row, col) || cells[k] == LowerTriangle(nRows, nCols, row, col)
  {
    var rows: nat, cols: nat := CellBound(nRows), CellBound(nCols);
    var r, c := PairCovers(cols, rows, k);
    row, col := r, c;
  }

  /** Why the triangle offsets address the right points: for the output of
      the point loop and the triangle loop on the same addressable grid, every
      emitted triangle is a unit half-cell of loaded points, and is one of the
      two halves of some interior cell cut along that cell's down-right diagonal. */
  lemma MeshTrianglesAreUnit(points: seq<Point>, cells: seq<Triangle>, nRows: u32, nCols: u32, height: (u32, u32) -> real)
    requires Addressable(nRows, nCols) && nRows >= 1 && nCols >= 1
    requires IsRowMajorGrid(points, nRows, nCols, height)
    requires IsTriangulation(cells, nRows, nCols)
    ensures forall k :: 0 <= k < |cells| ==> IsUnitTriangle(points, cells[k])
    ensures forall k :: 0 <= k < |cells| ==> IsHalfOfSomeCell(points, cells[k], nRows, nCols)
  {
    forall k | 0 <= k < |cells|
      ensures IsUnitTriangle(points, cells[k])
      ensures IsHalfOfSomeCell(points, cells[k], nRows, nCols)
    {
      var row, col := CellOfIndex(cells, nRows, nCols, k);
      CellTrianglesAreUnit(points, nRows, nCols, height, row, col);
    }
  }
}
