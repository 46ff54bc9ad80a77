/** Row-major flattening in unbounded arithmetic: the position that grid entry
    (row, col) takes in a list holding `width` entries per row. The 32-bit
    offset the reader computes agrees with it whenever the grid is small
    enough (see GridOffsets.Addressable). */
module RowMajor {

  function Flat(width: nat, row: nat, col: nat): (k: nat)
  {
    col + row * width
  }

  lemma MulMonotone(a: nat, b: nat, width: nat)
    requires a <= b
    ensures a * width <= b * width
  {
    assert b * width == a * width + (b - a) * width;
  }

  /** Every entry of the first `rows` rows lies below `rows * width`. */
  lemma FlatBelow(width: nat, rows: nat, row: nat, col: nat)
    requires row < rows && col < width
    ensures Flat(width, row, col) < rows * width
  {
    assert Flat(width, row, col) < (row + 1) * width;
    MulMonotone(row + 1, rows, width);
  }

  /** Entries visited before the cursor (row, col) of a row-major walk occupy
      exactly the positions below `row * width + col`. */
  lemma FlatBeforeCursor(width: nat, row: nat, col: nat, r: nat, c: nat)
    requires c < width
    requires r < row || (r == row && c < col)
    ensures Flat(width, r, c) < row * width + col
  {
    if r < row {
      FlatBelow(width, row, r, c);
    }
  }

  /** Distinct in-range entries never share a position. */
  lemma FlatInjective(width: nat, r1: nat, c1: nat, r2: nat, c2: nat)
    requires c1 < width && c2 < width
    requires Flat(width, r1, c1) == Flat(width, r2, c2)
    ensures r1 == r2 && c1 == c2
  {
    if r1 < r2 {
      FlatBelow(width, r2, r1, c1);
      assert false;
    } else if r2 < r1 {
      FlatBelow(width, r1, r2, c2);
      assert false;
    }
  }

  /** Division and remainder by the width recover the entry from its position. */
  lemma FlatDecode(width: nat, row: nat, col: nat)
    requires col < width
    ensures Flat(width, row, col) / width == row
    ensures Flat(width, row, col) % width == col
  {
    var k := Flat(width, row, col);
    assert k == Flat(width, k / width, k % width);
    FlatInjective(width, k / width, k % width, row, col);
  }

  /** Every position below `rows * width` belongs to some in-range entry. */
  lemma FlatCovers(width: nat, rows: nat, k: nat)
    requires k < rows * width
    ensures width > 0
    ensures k / width < rows && k % width < width
    ensures Flat(width, k / width, k % width) == k
  {
    if k / width >= rows {
      MulMonotone(rows, k / width, width);
      assert false;
    }
  }

  /** Inverse of a layout that stores two entries per grid entry: every
      position below `2 * (rows * width)` is the first or second slot of some
      in-range entry. */
  lemma PairCovers(width: nat, rows: nat, k: nat) returns (row: nat, col: nat)
    requires k < 2 * (rows * width)
    ensures row < rows && col < width
    ensures k == 2 * Flat(width, row, col) || k == 2 * Flat(width, row, col) + 1
  {
    var m := k / 2;
    FlatCovers(width, rows, m);
    row, col := m / width, m % width;
  }
}
