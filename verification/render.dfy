/** The text form of a grid (`Display for Universe`): one glyph per cell in
    row-major order, with a line break after the last column of every row. */
module Rendering {
  import opened Cells
  import opened Coords

  /** The glyphs of a run of cells, without line breaks. */
  function Glyphs(cs: seq<Cell>): string {
    seq(|cs|, k requires 0 <= k < |cs| => Glyph(cs[k]))
  }

  /** The text produced by the first `n` iterations of the rendering loop:
      each index pushes its cell's glyph, then a line break when the index
      is the last column of its row. */
  function RenderPrefix(g: seq<Cell>, width: nat, n: nat): string
    requires n <= |g|
    requires width > 0 || n == 0
  {
    if n == 0 then ""
    else
      RenderPrefix(g, width, n - 1) + [Glyph(g[n - 1])]
        + (if (n - 1) % width == width - 1 then "\n" else "")
  }

  /** The whole rendering of a grid of the given width. */
  function Rendered(g: seq<Cell>, width: nat): (s: string)
    requires width > 0 || |g| == 0
    ensures |s| == |g| + (if width > 0 then |g| / width else 0)
  {
    assert width > 0 ==> |RenderPrefix(g, width, |g|)| == |g| + |g| / width by {
      if width > 0 {
        RenderLength(g, width, |g|);
      }
    }
    RenderPrefix(g, width, |g|)
  }

  /** Reference layout, row by row: the glyphs of each of the first `rows`
      rows, each followed by a line break. */
  function RowsText(g: seq<Cell>, width: nat, rows: nat): string
    requires width * rows <= |g|
  {
    if rows == 0 then ""
    else
      assert width * (rows - 1) + width == width * rows;
      RowsText(g, width, rows - 1) + Glyphs(g[width * (rows - 1) .. width * rows]) + "\n"
  }

  /** Advancing a flat index by one crosses into the next row exactly when
      the index was in the last column. */
  lemma DivStep(width: nat, m: nat)
    requires width > 0
    ensures (m + 1) / width == m / width + (if m % width == width - 1 then 1 else 0)
  {
    var q, r := m / width, m % width;
    assert m == r + width * q;
    assert width * (q + 1) == width * q + width;
    if r == width - 1 {
      DivModOfIndex(width, q + 1, 0);
    } else {
      DivModOfIndex(width, q, r + 1);
    }
  }

  /** The rendering of `n` cells has `n` glyphs and `n / width` line breaks. */
  lemma {:induction false} RenderLength(g: seq<Cell>, width: nat, n: nat)
    requires width > 0 && n <= |g|
    ensures |RenderPrefix(g, width, n)| == n + n / width
  {
    if n > 0 {
      RenderLength(g, width, n - 1);
      DivStep(width, n - 1);
    }
  }

  /** Within a row that starts at a multiple of the width, the column of
      an index is its offset from the row start. */
  lemma ColumnInRow(width: nat, start: nat, j: nat)
    requires j < width && start % width == 0
    ensures (start + j) % width == j
  {
    assert start == 0 + width * (start / width);
    DivModOfIndex(width, start / width, j);
  }

  /** Inside a row the loop only appends glyphs. */
  lemma {:induction false} RenderWithinRow(g: seq<Cell>, width: nat, start: nat, j: nat)
    requires j < width && start % width == 0 && start + j <= |g|
    ensures RenderPrefix(g, width, start + j)
         == RenderPrefix(g, width, start) + Glyphs(g[start .. start + j])
  {
    if j > 0 {
      RenderWithinRow(g, width, start, j - 1);
      ColumnInRow(width, start, j - 1);
      assert Glyphs(g[start .. start + j]) == Glyphs(g[start .. start + j - 1]) + [Glyph(g[start + j - 1])];
    }
  }

  /** A complete row renders as its glyphs followed by one line break. */
  lemma RenderRow(g: seq<Cell>, width: nat, start: nat)
    requires 0 < width && start % width == 0 && start + width <= |g|
    ensures RenderPrefix(g, width, start + width)
         == RenderPrefix(g, width, start) + Glyphs(g[start .. start + width]) + "\n"
  {
    var end := start + width;
    RenderWithinRow(g, width, start, width - 1);
    ColumnInRow(width, start, width - 1);
    assert Glyphs(g[start .. end]) == Glyphs(g[start .. end - 1]) + [Glyph(g[end - 1])];
  }

  /** Where the last of `rows` rows starts, and that it is a row start. */
  lemma LastRowStart(width: nat, rows: nat) returns (start: nat)
    requires 0 < width && 0 < rows
    ensures start == width * (rows - 1) && start + width == width * rows
    ensures start % width == 0
  {
    start := width * (rows - 1);
    DivModOfIndex(width, rows - 1, 0);
  }

  /** The flat rendering loop produces the grid row by row. */
  lemma {:induction false} RenderedByRows(g: seq<Cell>, width: nat, rows: nat)
    requires 0 < width && width * rows <= |g|
    ensures RenderPrefix(g, width, width * rows) == RowsText(g, width, rows)
  {
    if rows > 0 {
      var start := LastRowStart(width, rows);
      RenderedByRows(g, width, rows - 1);
      RenderRow(g, width, start);
    }
  }

  /** A height-by-width grid renders as `height` lines of `width` glyphs. */
  lemma RenderedGrid(g: seq<Cell>, height: nat, width: nat)
    requires 0 < width && |g| == height * width
    ensures Rendered(g, width) == RowsText(g, width, height)
    ensures |Rendered(g, width)| == height * width + height
  {
    assert |g| == width * height;
    RenderedByRows(g, width, height);
    RenderLength(g, width, |g|);
    DivModOfIndex(width, height, 0);
  }
}
