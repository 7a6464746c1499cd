/** Coordinates and the row-major map between a coordinate and a flat index.
    Both maps read only the grid's width, so they take it as a parameter. */
module Coords {

  /** A (row, column) pair; its constructor plays the part of `Coord::new`. */
  datatype Coord = Coord(row: nat, col: nat)

  /** Flat index of a coordinate: column plus width times row. */
  function CoordToIdx(width: nat, c: Coord): nat {
    c.col + width * c.row
  }

  /** Coordinate of a flat index; undefined (a division by zero) for width 0. */
  function IdxToCoords(width: nat, i: nat): (c: Coord)
    requires width > 0
    ensures c.col < width
    ensures CoordToIdx(width, c) == i
  {
    Coord(i / width, i % width)
  }

  /** Division by a positive width recovers the quotient and remainder of
      a row-major index. */
  lemma DivModOfIndex(width: nat, q: nat, r: nat)
    requires r < width
    ensures (r + width * q) / width == q
    ensures (r + width * q) % width == r
  {
    var a := r + width * q;
    var d := a / width - q;
    assert width * d == r - a % width;
    MultipleBelowWidth(width, d);
  }

  /** The only multiple of a positive width strictly between -width and
      width is zero. */
  lemma MultipleBelowWidth(width: nat, d: int)
    requires -(width as int) < width * d < width
    ensures d == 0
  {
  }

  /** The index of a column that fits the width maps back to the same coordinate. */
  lemma CoordRoundTrip(width: nat, c: Coord)
    requires c.col < width
    ensures IdxToCoords(width, CoordToIdx(width, c)) == c
  {
    DivModOfIndex(width, c.row, c.col);
  }

  /** A coordinate whose column is past the width names the same flat index
      as the coordinate that carries the excess columns over into the
      following rows. */
  lemma CoordWraps(width: nat, c: Coord)
    requires width > 0
    ensures IdxToCoords(width, CoordToIdx(width, c)) == Coord(c.row + c.col / width, c.col % width)
  {
    var q, r := c.col / width, c.col % width;
    assert c.col == r + width * q;
    assert r + width * (c.row + q) == c.col + width * c.row;
    DivModOfIndex(width, c.row + q, r);
  }

  /** A coordinate inside a height-by-width grid has an index inside the grid. */
  lemma CoordInGrid(height: nat, width: nat, c: Coord)
    requires c.row < height && c.col < width
    ensures CoordToIdx(width, c) < height * width
  {
    assert width * c.row + width <= width * height by {
      assert width * (c.row + 1) <= width * height;
    }
  }

  /** An index inside a height-by-width grid lies in a row below the height. */
  lemma IdxInGrid(height: nat, width: nat, i: nat)
    requires width > 0 && i < height * width
    ensures IdxToCoords(width, i).row < height
  {
  }
}
