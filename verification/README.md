# GmtGridReader mesh construction, in Dafny

This project models how MB-System's `GmtGridReader` (src/qt-guilib/GmtGridReader.cpp) turns a GMT
grid into a triangle mesh. It covers three parts of that code:

- `gridOffset` maps grid node (row, col) to its position in the row-major point list.
- The point loop of `RequestData` inserts one point per node, with x = row and y = col.
- The triangle loop of `RequestData` splits every interior cell into two triangles. Each
  triangle is given by the point-list offsets of its vertices.

The C++ code declares grid sizes, loop cursors and the offset expression `unsigned`. The model
keeps that 32-bit arithmetic explicit (module `UInt32`):

- `gridOffset` computes `col + row * nCols` modulo 2^32. It agrees with the mathematical
  row-major index only while the grid holds at most 2^32 nodes (`GridOffsets.Addressable`).
- The triangle loop bounds `nRows - 1` and `nCols - 1` wrap to 2^32 - 1 when the count is zero.
  The model keeps that behaviour and does not add a precondition against it.

The out-of-bounds message that `gridOffset` writes is modelled as a flag on its result.
`Triangulate` counts these flags. Node heights come from GMT's data array through the foreign
`GMT_Get_Index`. The model treats them as an opaque sampling function `height(row, col)`, and
each point carries that value unchanged.

Modules:

- `UInt32`: unsigned 32-bit wrap, subtraction and multiplication.
- `RowMajor`: row-major positions in unbounded arithmetic, and the multiplication facts the
  proofs need.
- `GridOffsets`: `gridOffset` and its properties.
- `GmtGridReader`: the point loop, the triangle loop, the read-failure branch of `RequestData`,
  and the capacity reservations.
- `MeshProperties`: how the two triangles cover a cell, and how triangle offsets address the
  loaded points.

The repository's sensor-log replay harness is only declared in src/mbtrnav/opt/dorado/Replay.h.
The files that define it are not part of this model.

## Model

| member | source | states |
|---|---|---|
| UInt32.Sub | src/qt-guilib/GmtGridReader.cpp:104-105 | unsigned `n - 1` is `n - 1` for n >= 1; for 0 it wraps to 2^32 - 1 |
| UInt32.Mul | src/qt-guilib/GmtGridReader.cpp:79 | an unsigned product is congruent to the true product modulo 2^32, and equal to it whenever it fits in 32 bits |
| UInt32.Wrap | src/qt-guilib/GmtGridReader.cpp:212 | storing a value in 32 bits yields the 32-bit value congruent to it modulo 2^32: the value itself when in range, the value minus 2^32 for a sum in [2^32, 2^33), and the value plus 2^32 for a difference in [-2^32, 0) |
| GridOffsets.GridOffset | src/qt-guilib/GmtGridReader.cpp:205-213 | the diagnostic is written exactly for out-of-bounds pairs; whenever `col + row*nCols` fits in 32 bits the offset is that value, in bounds or not, so the out-of-bounds branch changes nothing; an in-bounds offset is below nRows*nCols even when the 32-bit sum wraps; in every case the offset is `col + row*nCols` reduced modulo 2^32 |
| GridOffsets.OffsetIgnoresRowCount | src/qt-guilib/GmtGridReader.cpp:206-212 | the row count only drives the bounds check: the returned offset does not depend on it, so an out-of-bounds pair still gets its offset |
| GridOffsets.OffsetInjective | src/qt-guilib/GmtGridReader.cpp:212 | on an addressable grid, distinct in-bounds pairs have distinct offsets |
| GridOffsets.OffsetDecode | src/qt-guilib/GmtGridReader.cpp:212 | round trip on an addressable grid: for an in-bounds pair, offset / nCols is the row and offset % nCols is the column |
| GridOffsets.OffsetCovers | src/qt-guilib/GmtGridReader.cpp:205-213 | on an addressable grid, every index below nRows*nCols is the in-bounds offset of the pair that decoding it gives, so offsets are onto the point list |
| GridOffsets.OffsetAdjacency | src/qt-guilib/GmtGridReader.cpp:212 | on an addressable grid, from an in-bounds pair one column to the right adds 1 to the offset and one row down adds nCols |
| GridOffsets.OffsetWrapsBeyondAddressable | src/qt-guilib/GmtGridReader.cpp:212 | in a 65537 x 65536 grid, node (65536, 0) gets the same 32-bit offset as node (0, 0), so the addressable bound cannot be dropped |
| GmtGridReader.CellBound | src/qt-guilib/GmtGridReader.cpp:104-105 | each bound of the triangle loop is the count minus 1, or 2^32 - 1 when the count is 0 |
| GmtGridReader.UpperTriangle | src/qt-guilib/GmtGridReader.cpp:108-110 | for an interior cell of an addressable grid, the first triangle is the top-left corner `k`, then `k + 1` to its right, then `k + nCols + 1` diagonally below |
| GmtGridReader.LowerTriangle | src/qt-guilib/GmtGridReader.cpp:115-117 | for an interior cell of an addressable grid, the second triangle is the top-left corner `k`, then `k + nCols + 1` diagonally below, then `k + nCols` directly below |
| GmtGridReader.PointReserve | src/qt-guilib/GmtGridReader.cpp:79 | the point capacity requested is the node count whenever that count fits in 32 bits |
| GmtGridReader.PolygonReserve | src/qt-guilib/GmtGridReader.cpp:96 | the cell capacity requested is twice the node count whenever that fits in 32 bits |
| GmtGridReader.LoadPoints | src/qt-guilib/GmtGridReader.cpp:72-93 | after the reset the list holds exactly nRows*nCols points, and node (row, col) with its height is at position `col + row*nCols` |
| GmtGridReader.CellTriangles | src/qt-guilib/GmtGridReader.cpp:107-119 | the six `gridOffset` calls of one cell form its upper and lower triangles; inside the grid none logs and every vertex is below nRows*nCols; in a grid with zero rows or columns at least one logs |
| GmtGridReader.TriangulateRow | src/qt-guilib/GmtGridReader.cpp:105-120 | one run of the inner loop over a row of cells appends that row's triangles after the earlier rows' in layout order, keeping nCells equal to the number of cells and the diagnostic count in line with the grid's shape |
| GmtGridReader.Triangulate | src/qt-guilib/GmtGridReader.cpp:101-122 | the cells are laid out two per interior cell in row-major order; nCells equals the number of cells, which is 2*(nRows-1)*(nCols-1) and none when nRows or nCols is 1; with nRows, nCols >= 1 every vertex is below nRows*nCols; a diagnostic is logged iff cells are emitted for a grid with zero rows or columns |
| GmtGridReader.RequestData | src/qt-guilib/GmtGridReader.cpp:62-128 | a failed grid read yields the cannot-open-file error and nothing else; a successful read yields the row-major points and the triangulation of the same grid, and no out-of-bounds diagnostic when the grid has rows and columns |
| GmtGridReader.ReservesCoverMesh | src/qt-guilib/GmtGridReader.cpp:79-100 | for a grid with nRows, nCols >= 1, when twice the node count fits in 32 bits, the point reservation equals the point count and the cell reservation is at least the number of emitted cells |
| MeshProperties.CellSharesDiagonal | src/qt-guilib/GmtGridReader.cpp:107-118 | for an interior cell of an addressable grid, each triangle of a cell has three distinct vertices; the two meet exactly on the diagonal (row,col)-(row+1,col+1) and together use exactly the cell's four corners |
| MeshProperties.CellTrianglesAreUnit | src/qt-guilib/GmtGridReader.cpp:87-118 | on an addressable grid, both triangles of an interior cell address loaded points that are pairwise grid neighbours and enclose signed double area -1 in exact coordinates, so both are non-degenerate and have the same orientation; each starts at the cell's node (row, col) and continues to (row, col+1) then (row+1, col+1) for the first triangle, or to (row+1, col+1) then (row+1, col) for the second, so both split the cell along the diagonal from (row, col) to (row+1, col+1) |
| MeshProperties.CellOfIndex | src/qt-guilib/GmtGridReader.cpp:104-121 | for a grid with nRows, nCols >= 1, every position in a triangulation holds the upper or lower triangle of a cell inside the grid |
| MeshProperties.MeshTrianglesAreUnit | src/qt-guilib/GmtGridReader.cpp:87-121 | for the point list and triangulation of the same addressable grid, every emitted triangle is a unit half-cell of loaded points in exact coordinates, and it is one of the two halves of some interior cell (row, col) split along the diagonal from (row, col) to (row+1, col+1), with its vertices in the order the loop emits them |

## Left out

- `readGridFile` (GmtGridReader.cpp:132-170) is not modelled. It calls `stat`, creates a GMT session, and retries `GMT_Read_Data` up to 100 times with `usleep`; all of this is file-system and foreign-library I/O. `RequestData` takes its outcome as an input: either a grid or a failed read.
- `GMT_Get_Index` and the float values in `gmtGrid_->data` are foreign code and floating-point data. They are represented by the opaque `height` function.
- The VTK plumbing is not modelled: the output-type checks and their error codes (lines 44-60), `SetPoints`/`SetPolys`, the selection callback, `SetFileName`, `zBounds` and `bounds`. None of it affects the index layout.
- Whether `vtkCellArray::Allocate` clears cells left from an earlier request is decided inside VTK, which is not part of this model. The modelled cell list holds the cells inserted by one request.
- A failed `Allocate` (lines 79-83, 96-100) only writes a message. Only the requested capacities are modelled.
- GmtGridReader.LoadPoints: the program stores points as 32-bit floats (`SetDataTypeToFloat`, line 20), so x = row and y = col are exact only up to 2^24. The model keeps them as exact naturals. Beyond 2^24 rows or columns, neighbouring nodes can round to the same coordinates. The geometric statements of MeshProperties.CellTrianglesAreUnit and MeshProperties.MeshTrianglesAreUnit hold for the exact coordinates, not for the rounded ones.
- GmtGridReader.Triangulate: `nCells` is a C `int`. It is modelled as an unbounded integer, so signed overflow beyond 2^31 - 1 cells is not modelled. For grids with zero rows or columns, the contract says only whether diagnostics were logged, not how many.
- src/qt-guilib/QVtkItem.h is a Qt Quick item that hands mouse and wheel events between threads. It is user-interface code and concurrency, not mesh construction.
- src/mbtrnav/opt/dorado/Replay.h declares the log-replay harness. The definitions of its matching, CSV parsing, dispatch and counter logic are not part of this model, and its tolerance constants have no values there.
