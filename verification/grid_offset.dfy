/** The reader's `gridOffset`: the index of grid entry (row, col) in the
    row-major point list, computed in 32-bit unsigned arithmetic. An
    out-of-bounds pair is reported on the error stream, but the offset is
    returned all the same; the report is modelled as a flag on the result. */
module GridOffsets {
  import opened UInt32
  import opened RowMajor

  /** (row, col) lies inside an nRows x nCols grid. */
  predicate InBounds(nRows: nat, nCols: nat, row: nat, col: nat)
  {
    row < nRows && col < nCols
  }

  /** Every in-bounds offset fits in 32 bits, so none of them wraps. */
  predicate Addressable(nRows: nat, nCols: nat)
  {
    nRows * nCols <= MODULUS
  }

  /** The value `gridOffset` returns (`id`) and whether it took the
      out-of-bounds branch, which only writes a diagnostic. */
  datatype Offset = Offset(id: u32, outOfBounds: bool)

  /** `col + row * nCols` is evaluated on `unsigned` operands before it is
      widened to the id type, hence the wrap. */
  function GridOffset(nRows: u32, nCols: u32, row: u32, col: u32): (r: Offset)
    ensures r.outOfBounds <==> !InBounds(nRows, nCols, row, col)
    ensures !r.outOfBounds ==> r.id < nRows * nCols
    ensures (col + row * nCols - r.id) % MODULUS == 0
    ensures col + row * nCols < MODULUS ==> r.id == Flat(nCols, row, col)
    ensures !r.outOfBounds && Addressable(nRows, nCols) ==> r.id == Flat(nCols, row, col)
  {
    var id := Wrap(col + row * nCols);
    if InBounds(nRows, nCols, row, col) then
      FlatBelow(nCols, nRows, row, col);
      assert Addressable(nRows, nCols) ==> col + row * nCols < MODULUS;
      Offset(id, false)
    else
      Offset(id, true)
  }

  /** The row count only feeds the bounds check: the offset itself is the
      same whatever grid height it is checked against. */
  lemma OffsetIgnoresRowCount(nRows1: u32, nRows2: u32, nCols: u32, row: u32, col: u32)
    ensures GridOffset(nRows1, nCols, row, col).id == GridOffset(nRows2, nCols, row, col).id
  {
  }

  /** Two in-bounds pairs of an addressable grid never share an offset. */
  lemma OffsetInjective(nRows: u32, nCols: u32, r1: u32, c1: u32, r2: u32, c2: u32)
    requires Addressable(nRows, nCols)
    requires InBounds(nRows, nCols, r1, c1) && InBounds(nRows, nCols, r2, c2)
    requires GridOffset(nRows, nCols, r1, c1).id == GridOffset(nRows, nCols, r2, c2).id
    ensures r1 == r2 && c1 == c2
  {
    FlatInjective(nCols, r1, c1, r2, c2);
  }

  /** Round trip: dividing an in-bounds offset by the column count gives back
      the row, and the remainder gives back the column. */
  lemma OffsetDecode(nRows: u32, nCols: u32, row: u32, col: u32)
    requires Addressable(nRows, nCols) && InBounds(nRows, nCols, row, col)
    ensures GridOffset(nRows, nCols, row, col).id / nCols == row
    ensures GridOffset(nRows, nCols, row, col).id % nCols == col
  {
    FlatDecode(nCols, row, col);
  }

  /** Every index of the point list is the offset of exactly the in-bounds
      pair that decoding it names. */
  lemma OffsetCovers(nRows: u32, nCols: u32, k: nat)
    requires Addressable(nRows, nCols) && k < nRows * nCols
    ensures nCols > 0 && InBounds(nRows, nCols, k / nCols, k % nCols)
    ensures GridOffset(nRows, nCols, k / nCols, k % nCols) == Offset(k, false)
  {
    FlatCovers(nCols, nRows, k);
  }

  /** Row-major adjacency: one step right adds one, one step down adds a row. */
  lemma OffsetAdjacency(nRows: u32, nCols: u32, row: u32, col: u32)
    requires Addressable(nRows, nCols) && InBounds(nRows, nCols, row, col)
    ensures col + 1 < nCols ==>
      GridOffset(nRows, nCols, row, col + 1).id == GridOffset(nRows, nCols, row, col).id + 1
    ensures row + 1 < nRows ==>
      GridOffset(nRows, nCols, row + 1, col).id == GridOffset(nRows, nCols, row, col).id + nCols
  {
  }

  /** Without Addressable the 32-bit sum wraps: in a 65537 x 65536 grid the
      first entry of the last row lands on the offset of the very first entry. */
  lemma OffsetWrapsBeyondAddressable()
    ensures !Addressable(65537, 65536)
    ensures InBounds(65537, 65536, 65536, 0)
    ensures GridOffset(65537, 65536, 65536, 0).id == GridOffset(65537, 65536, 0, 0).id
  {
  }
}
