/** The grid that `set_dimensions` builds, as a function of the old cells and
    the old and new dimensions. */
module Resizing {
  import opened Cells
  import opened Coords
  import opened Generation

  /** The new cell at coordinate `c` (already inside the new grid): the old
      cell when `c` also lies inside the old grid, `Dead` otherwise. */
  function Carried(g: seq<Cell>, oldHeight: nat, oldWidth: nat, c: Coord): Cell
    requires |g| == oldHeight * oldWidth
  {
    if c.row < oldHeight && c.col < oldWidth then At(g, oldHeight, oldWidth, c) else Dead
  }

  /** Cells of the resized grid, row-major with the new width. */
  function Resized(g: seq<Cell>, oldHeight: nat, oldWidth: nat, newHeight: nat, newWidth: nat): (r: seq<Cell>)
    requires |g| == oldHeight * oldWidth
    ensures |r| == newHeight * newWidth
  {
    if newWidth == 0 then []
    else
      seq(newHeight * newWidth, i requires 0 <= i < newHeight * newWidth =>
        Carried(g, oldHeight, oldWidth, IdxToCoords(newWidth, i)))
  }

  /** A coordinate inside both grids keeps its old cell. */
  lemma ResizedKeepsOverlap(g: seq<Cell>, oldHeight: nat, oldWidth: nat, newHeight: nat, newWidth: nat, c: Coord)
    requires |g| == oldHeight * oldWidth
    requires c.row < oldHeight && c.row < newHeight
    requires c.col < oldWidth && c.col < newWidth
    ensures CoordToIdx(newWidth, c) < newHeight * newWidth
    ensures Resized(g, oldHeight, oldWidth, newHeight, newWidth)[CoordToIdx(newWidth, c)] == At(g, oldHeight, oldWidth, c)
  {
    CoordInGrid(newHeight, newWidth, c);
    CoordRoundTrip(newWidth, c);
  }

  /** A coordinate of the new grid outside the old grid is `Dead`. */
  lemma ResizedOutsideIsDead(g: seq<Cell>, oldHeight: nat, oldWidth: nat, newHeight: nat, newWidth: nat, c: Coord)
    requires |g| == oldHeight * oldWidth
    requires c.row < newHeight && c.col < newWidth
    requires c.row >= oldHeight || c.col >= oldWidth
    ensures CoordToIdx(newWidth, c) < newHeight * newWidth
    ensures Resized(g, oldHeight, oldWidth, newHeight, newWidth)[CoordToIdx(newWidth, c)] == Dead
  {
    CoordInGrid(newHeight, newWidth, c);
    CoordRoundTrip(newWidth, c);
  }

  /** Resizing to the current dimensions changes nothing. */
  lemma ResizedSameDimensions(g: seq<Cell>, height: nat, width: nat)
    requires |g| == height * width
    ensures Resized(g, height, width, height, width) == g
  {
    var r := Resized(g, height, width, height, width);
    forall i | 0 <= i < |g|
      ensures r[i] == g[i]
    {
      IdxInGrid(height, width, i);
    }
  }

  /** Growing a grid and shrinking it back gives the original cells. */
  lemma ResizedGrowThenShrink(g: seq<Cell>, height: nat, width: nat, newHeight: nat, newWidth: nat)
    requires |g| == height * width
    requires height <= newHeight && width <= newWidth
    ensures Resized(Resized(g, height, width, newHeight, newWidth), newHeight, newWidth, height, width) == g
  {
    var big := Resized(g, height, width, newHeight, newWidth);
    var r := Resized(big, newHeight, newWidth, height, width);
    forall i | 0 <= i < |g|
      ensures r[i] == g[i]
    {
      var c := IdxToCoords(width, i);
      IdxInGrid(height, width, i);
      ResizedKeepsOverlap(big, newHeight, newWidth, height, width, c);
      ResizedKeepsOverlap(g, height, width, newHeight, newWidth, c);
    }
  }
}
