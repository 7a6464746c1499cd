/** The grid engine (`Universe`): a toroidal Game of Life grid whose cells
    live row-major in a flat array, with a second array of the same shape
    that `tick` writes the next generation into before the two are swapped. */
module GameOfLife {
  import opened Cells
  import opened Coords
  import opened Generation
  import opened Resizing
  import opened Rendering

  /** The grid after flipping the cell at flat index `i`. */
  function Toggled(g: seq<Cell>, i: nat): (r: seq<Cell>)
    requires i < |g|
    ensures |r| == |g|
    ensures Cells.IsAlive(r[i]) == !Cells.IsAlive(g[i])
    ensures forall k :: 0 <= k < |g| && k != i ==> r[k] == g[k]
  {
    g[i := Not(g[i])]
  }

  /** Toggling the same cell twice restores the whole grid. */
  lemma ToggledTwice(g: seq<Cell>, i: nat)
    requires i < |g|
    ensures Toggled(Toggled(g, i), i) == g
  {
    NotInvolution(g[i]);
  }

  /** How many of the eight offsets the nested `dy`/`dx` loops have visited
      when they reach row `i`, column `j` of the 3x3 block of offsets (the
      centre, (0, 0), is skipped). */
  function Visited(i: nat, j: nat): nat {
    if 3 * i + j > 4 then 3 * i + j - 1 else 3 * i + j
  }

  /** The offset the loops are at in row `i`, column `j` of the 3x3 block is
      the next one of `Offsets` to be counted. */
  lemma VisitedOffset(i: nat, j: nat)
    requires i < 3 && j < 3 && !(i == 1 && j == 1)
    ensures Visited(i, j) < 8 && Visited(i, j + 1) == Visited(i, j) + 1
    ensures Offsets[Visited(i, j)] == ([-1, 0, 1][i], [-1, 0, 1][j])
  {
  }

  /** One pass of the inner loop of `alive_neighbor_count`, at row `i`,
      column `j` of the 3x3 block of offsets: the position it looks at is
      the next of the wrapped neighbour positions, so adding its liveness
      to the count of those before it counts one position more. */
  lemma CountNeighborStep(g: seq<Cell>, height: nat, width: nat, c: Coord, i: nat, j: nat, n: Coord, cnt: nat)
    requires height > 0 && width > 0 && |g| == height * width
    requires i < 3 && j < 3 && !(i == 1 && j == 1)
    requires n == Coord((c.row + [-1, 0, 1][i]) % height, (c.col + [-1, 0, 1][j]) % width)
    requires cnt == CountAlive(g, height, width, Neighbors(height, width, c)[..Visited(i, j)])
    ensures n.row < height && n.col < width
    ensures CountAlive(g, height, width, Neighbors(height, width, c)[..Visited(i, j + 1)])
         == cnt + if IsAlive(At(g, height, width, n)) then 1 else 0
  {
    VisitedOffset(i, j);
    CountOneMore(g, height, width, Neighbors(height, width, c), Visited(i, j));
  }

  /** Row `y` of a height-by-width grid ends inside the grid. */
  lemma RowFits(height: nat, width: nat, y: nat)
    requires y < height
    ensures width * (y + 1) == width * y + width
    ensures width * y + width <= height * width
  {
    assert width * y + width == width * (y + 1);
  }

  /** Writing `v` at index `i` makes the first `i + 1` elements the first
      `i` followed by `v`. */
  lemma AppendAt(a: seq<Cell>, i: nat, v: Cell)
    requires i < |a|
    ensures a[i := v][..i + 1] == a[..i] + [v]
  {
  }

  /** After the last row, the rows written cover the whole grid. */
  lemma AllRows(height: nat, width: nat, rowStart: nat)
    requires rowStart == width * height
    ensures rowStart == height * width
  {
  }

  /** The prefix of a sequence as long as the sequence is all of it. */
  lemma WholeSlice(a: seq<Cell>, n: nat)
    requires n == |a|
    ensures a[..n] == a
  {
  }

  class Universe {
    /** The current generation, row-major. */
    var cells: array<Cell>
    /** Scratch buffer of the same shape, written by `Tick`. */
    var backBuffer: array<Cell>
    var height: nat
    var width: nat

    /** Both buffers hold height * width cells and are different arrays. */
    ghost predicate Valid()
      reads this
    {
      cells.Length == height * width &&
      backBuffer.Length == height * width &&
      cells != backBuffer
    }

    /** `Universe::new`: a height-by-width grid whose two buffers are all Dead. */
    constructor (height: nat, width: nat)
      ensures Valid() && fresh(cells) && fresh(backBuffer)
      ensures this.height == height && this.width == width
      ensures forall k :: 0 <= k < cells.Length ==> cells[k] == Dead
      ensures forall k :: 0 <= k < backBuffer.Length ==> backBuffer[k] == Dead
    {
      this.height := height;
      this.width := width;
      cells := new Cell[height * width](_ => Dead);
      backBuffer := new Cell[height * width](_ => Dead);
    }

    /** `Index<usize>`: the cell at a flat index of the current generation,
        which is the grid cell at the coordinate of that index. */
    function Get(i: nat): (r: Cell)
      reads this, cells
      requires Valid() && i < cells.Length
      ensures width > 0 && IdxToCoords(width, i).row < height
      ensures r == At(cells[..], height, width, IdxToCoords(width, i))
    {
      IdxInGrid(height, width, i);
      cells[i]
    }

    /** `Index<Coord>`: the cell at a coordinate, found through its flat
        index. The column is not checked against the width: only the flat
        index has to fall inside the buffer, so a column past the width
        reads a cell of a following row. */
    function GetAt(c: Coord): (r: Cell)
      reads this, cells
      requires Valid() && CoordToIdx(width, c) < cells.Length
      ensures width > 0 && c.row + c.col / width < height
      ensures r == At(cells[..], height, width, Coord(c.row + c.col / width, c.col % width))
      ensures c.row < height && c.col < width ==> r == At(cells[..], height, width, c)
    {
      CoordWraps(width, c);
      IdxInGrid(height, width, CoordToIdx(width, c));
      cells[CoordToIdx(width, c)]
    }

    /** `is_alive`: whether the cell at `c` is Alive. */
    function IsAliveAt(c: Coord): bool
      reads this, cells
      requires Valid() && CoordToIdx(width, c) < cells.Length
    {
      Cells.IsAlive(GetAt(c))
    }

    /** `IndexMut<usize>` followed by an assignment: overwrites one cell. */
    method SetIndex(i: nat, v: Cell)
      requires Valid() && i < cells.Length
      modifies cells
      ensures Valid()
      ensures cells[..] == old(cells[..])[i := v]
    {
      cells[i] := v;
    }

    /** `set_pixel`: the cell at `c` becomes `v`; no other cell of either
        buffer and neither dimension changes. */
    method SetPixel(c: Coord, v: Cell)
      requires Valid() && CoordToIdx(width, c) < cells.Length
      modifies cells
      ensures Valid()
      ensures cells[CoordToIdx(width, c)] == v
      ensures forall k :: 0 <= k < cells.Length && k != CoordToIdx(width, c) ==> cells[k] == old(cells[k])
    {
      SetIndex(CoordToIdx(width, c), v);
    }

    /** `toggle_pixel`: the cell at `c` becomes its negation; no other cell
        of either buffer and neither dimension changes. */
    method TogglePixel(c: Coord)
      requires Valid() && CoordToIdx(width, c) < cells.Length
      modifies cells
      ensures Valid()
      ensures cells[..] == Toggled(old(cells[..]), CoordToIdx(width, c))
    {
      var i := CoordToIdx(width, c);
      SetIndex(i, Not(GetAt(c)));
    }

    /** `alive_neighbor_count`: counts the live cells among the eight
        wrapped neighbour positions of `c`, in the order of the nested
        `dy`/`dx` loops. */
    method AliveNeighborCount(c: Coord) returns (cnt: nat)
      requires Valid() && height > 0 && width > 0
      ensures cnt == NeighborCount(cells[..], height, width, c)
      ensures cnt <= 8
    {
      ghost var g := cells[..];
      ghost var ns := Neighbors(height, width, c);
      var deltas := [-1, 0, 1];
      cnt := 0;
      for i := 0 to 3
        invariant cnt == CountAlive(g, height, width, ns[..Visited(i, 0)])
      {
        var dy := deltas[i];
        for j := 0 to 3
          invariant cnt == CountAlive(g, height, width, ns[..Visited(i, j)])
        {
          var dx := deltas[j];
          if dx == 0 && dy == 0 {
            continue;
          }
          var newX := (c.col + dx) % width;
          var newY := (c.row + dy) % height;
          var n := Coord(newY, newX);
          CountNeighborStep(g, height, width, c, i, j, n, cnt);
          CoordInGrid(height, width, n);
          if IsAliveAt(n) {
            cnt := cnt + 1;
          }
        }
      }
      assert ns[..Visited(3, 0)] == ns;
    }

    /** The body of `tick`'s loops for one coordinate: the rule applied to
        the current cell and its neighbour count, which is the cell of the
        next generation at that coordinate. */
    method NextCell(c: Coord) returns (cell: Cell)
      requires Valid() && c.row < height && c.col < width
      ensures CoordToIdx(width, c) < cells.Length
      ensures cell == NextCellAt(cells[..], height, width, CoordToIdx(width, c))
      ensures cell == NextGen(cells[..], height, width)[CoordToIdx(width, c)]
    {
      NextGenAt(cells[..], height, width, c);
      var n := AliveNeighborCount(c);
      cell := Rule(GetAt(c), n);
      CoordRoundTrip(width, c);
    }

    /** `tick`: writes the next generation into the scratch buffer cell by
        cell, reading only the current generation, then swaps the two
        buffers. Afterwards the live buffer holds the next generation and
        the scratch buffer the previous one. */
    method Tick()
      requires Valid()
      modifies this, backBuffer
      ensures Valid()
      ensures height == old(height) && width == old(width)
      ensures cells == old(backBuffer) && backBuffer == old(cells)
      ensures cells[..] == NextGen(old(cells[..]), height, width)
      ensures backBuffer[..] == old(cells[..])
    {
      WriteNext();
      cells, backBuffer := backBuffer, cells;
    }

    /** The loops of `tick`: fill the scratch buffer with the next
        generation of the current one, which they only read. */
    method WriteNext()
      requires Valid()
      modifies backBuffer
      ensures backBuffer[..] == NextGen(cells[..], height, width)
    {
      ghost var g := cells[..];
      ghost var rowStart := 0;
      for y := 0 to height
        invariant cells[..] == g
        invariant rowStart == width * y && rowStart <= |g|
        invariant backBuffer[..rowStart] == NextGenPrefix(g, height, width, rowStart)
      {
        RowFits(height, width, y);
        TickRow(y, g, rowStart);
        rowStart := rowStart + width;
      }
      AllRows(height, width, rowStart);
      WholeSlice(backBuffer[..], rowStart);
    }

    /** One pass of `tick`'s inner loop: writes row `y` of the next
        generation of `g`, the current one, into the scratch buffer after
        the rows before it. */
    method TickRow(y: nat, ghost g: seq<Cell>, ghost rowStart: nat)
      requires Valid() && cells[..] == g && y < height && rowStart == width * y
      requires rowStart + width <= |g|
      requires backBuffer[..rowStart] == NextGenPrefix(g, height, width, rowStart)
      modifies backBuffer
      ensures backBuffer[..rowStart + width] == NextGenPrefix(g, height, width, rowStart + width)
    {
      for x := 0 to width
        invariant cells[..] == g
        invariant backBuffer[..rowStart + x] == NextGenPrefix(g, height, width, rowStart + x)
      {
        TickCell(Coord(y, x), g, rowStart);
      }
    }

    /** The body of `tick`'s inner loop: writes the next state of the cell at
        `c` of `g`, the current generation, into the scratch buffer,
        extending by one the prefix of it that already holds the next
        generation. */
    method TickCell(c: Coord, ghost g: seq<Cell>, ghost rowStart: nat)
      requires Valid() && cells[..] == g && c.row < height && c.col < width && rowStart == width * c.row
      requires rowStart + width <= |g|
      requires backBuffer[..rowStart + c.col] == NextGenPrefix(g, height, width, rowStart + c.col)
      modifies backBuffer
      ensures backBuffer[..rowStart + (c.col + 1)] == NextGenPrefix(g, height, width, rowStart + (c.col + 1))
    {
      var i := CoordToIdx(width, c);
      var cell := NextCell(c);
      AppendAt(backBuffer[..], i, cell);
      backBuffer[i] := cell;
    }

    /** `set_dimensions`: builds two fresh all-Dead buffers of the new shape,
        copies the cells of the overlap of the old and new grids, and
        replaces the whole state. */
    method SetDimensions(newDims: Coord)
      requires Valid()
      modifies this
      ensures Valid() && fresh(cells) && fresh(backBuffer)
      ensures height == newDims.row && width == newDims.col
      ensures cells[..] == Resized(old(cells[..]), old(height), old(width), height, width)
      ensures forall k :: 0 <= k < backBuffer.Length ==> backBuffer[k] == Dead
    {
      var newHeight, newWidth := newDims.row, newDims.col;
      var newCells := new Cell[newHeight * newWidth](_ => Dead);
      var newBack := new Cell[newHeight * newWidth](_ => Dead);
      CopyOverlap(newCells, newHeight, newWidth);
      height, width := newHeight, newWidth;
      cells, backBuffer := newCells, newBack;
    }

    /** The copy loops of `set_dimensions`: into an all-Dead buffer of the
        new shape, copies every cell of the current generation that lies in
        both the old and the new grid, which yields the resized grid. */
    method CopyOverlap(newCells: array<Cell>, newHeight: nat, newWidth: nat)
      requires Valid() && newCells != cells && newCells.Length == newHeight * newWidth
      requires forall k :: 0 <= k < newCells.Length ==> newCells[k] == Dead
      modifies newCells
      ensures newCells[..] == Resized(cells[..], height, width, newHeight, newWidth)
    {
      ghost var target := Resized(cells[..], height, width, newHeight, newWidth);
      var rows := if height < newHeight then height else newHeight;
      var cols := if width < newWidth then width else newWidth;
      NoneCopied(target, newWidth, cols, newCells[..]);
      for oldY := 0 to rows
        invariant newCells[..] == PartlyCopied(target, newWidth, oldY, 0, cols)
      {
        CopyRow(newCells, newHeight, newWidth, oldY, cols);
        NextRow(target, newWidth, oldY, cols);
      }
      AllCopied(cells[..], height, width, newHeight, newWidth);
    }

    /** One pass of `set_dimensions`'s inner loop: copies the first `cols`
        cells of row `y` into the same coordinates of the new buffer. */
    method CopyRow(newCells: array<Cell>, newHeight: nat, newWidth: nat, y: nat, cols: nat)
      requires Valid() && newCells != cells && newCells.Length == newHeight * newWidth
      requires y < height && y < newHeight && cols <= width && cols <= newWidth
      requires newCells[..] == PartlyCopied(Resized(cells[..], height, width, newHeight, newWidth), newWidth, y, 0, cols)
      modifies newCells
      ensures newCells[..] == PartlyCopied(Resized(cells[..], height, width, newHeight, newWidth), newWidth, y, cols, cols)
    {
      ghost var target := Resized(cells[..], height, width, newHeight, newWidth);
      for x := 0 to cols
        modifies newCells
        invariant newCells[..] == PartlyCopied(target, newWidth, y, x, cols)
      {
        var coords := Coord(y, x);
        CoordInGrid(height, width, coords);
        CoordInGrid(newHeight, newWidth, coords);
        ResizedKeepsOverlap(cells[..], height, width, newHeight, newWidth, coords);
        CopyStep(target, newWidth, y, x, cols);
        var i, v := CoordToIdx(newWidth, coords), GetAt(coords);
        assert v == target[i];
        newCells[i] := v;
      }
    }

    /** `Display`: the text of the grid, one glyph per cell in row-major
        order, a line break after each index in the last column. */
    method Render() returns (s: string)
      requires Valid()
      ensures s == Rendered(cells[..], width)
      ensures width > 0 ==> s == RowsText(cells[..], width, height)
      ensures |s| == height * width + (if width > 0 then height else 0)
    {
      s := "";
      for idx := 0 to width * height
        invariant s == RenderPrefix(cells[..], width, idx)
      {
        s := s + [Glyph(Get(idx))];
        if idx % width == width - 1 {
          s := s + "\n";
        }
      }
      if width > 0 {
        RenderedGrid(cells[..], height, width);
      }
    }
  }

  /** Whether flat index `k` of a grid of width `width` has been copied once
      the copy loops of `SetDimensions` reach row `y`, column `x`, where each
      row copies its first `cols` columns. */
  ghost predicate Copied(width: nat, k: nat, y: nat, x: nat, cols: nat) {
    width > 0 &&
    var c := IdxToCoords(width, k);
    (c.row < y && c.col < cols) || (c.row == y && c.col < x)
  }

  /** The new buffer while the copy loops run: copied cells hold their final
      value `t[k]`, all others are still Dead. */
  ghost function PartlyCopied(t: seq<Cell>, width: nat, y: nat, x: nat, cols: nat): (r: seq<Cell>)
    ensures |r| == |t|
  {
    seq(|t|, k requires 0 <= k < |t| => if Copied(width, k, y, x, cols) then t[k] else Dead)
  }

  /** Before the copy loops run, the new buffer is all Dead. */
  lemma NoneCopied(t: seq<Cell>, width: nat, cols: nat, s: seq<Cell>)
    requires |s| == |t| && forall k :: 0 <= k < |s| ==> s[k] == Dead
    ensures s == PartlyCopied(t, width, 0, 0, cols)
  {
  }

  /** One iteration of the inner copy loop writes exactly the cell at
      (`y`, `x`). */
  lemma CopyStep(t: seq<Cell>, width: nat, y: nat, x: nat, cols: nat)
    requires x < cols <= width && CoordToIdx(width, Coord(y, x)) < |t|
    ensures PartlyCopied(t, width, y, x + 1, cols)
         == PartlyCopied(t, width, y, x, cols)[CoordToIdx(width, Coord(y, x)) := t[CoordToIdx(width, Coord(y, x))]]
  {
    var i := CoordToIdx(width, Coord(y, x));
    CoordRoundTrip(width, Coord(y, x));
    var before, after := PartlyCopied(t, width, y, x, cols), PartlyCopied(t, width, y, x + 1, cols);
    forall k | 0 <= k < |t|
      ensures after[k] == before[i := t[i]][k]
    {
      if k != i {
        assert IdxToCoords(width, k) != Coord(y, x);
      }
    }
  }

  /** Finishing a row of the copy is starting the next one. */
  lemma NextRow(t: seq<Cell>, width: nat, y: nat, cols: nat)
    ensures PartlyCopied(t, width, y, cols, cols) == PartlyCopied(t, width, y + 1, 0, cols)
  {
  }

  /** Once every row of the overlap is copied, the buffer is the resized grid. */
  lemma AllCopied(g: seq<Cell>, oldHeight: nat, oldWidth: nat, newHeight: nat, newWidth: nat)
    requires |g| == oldHeight * oldWidth
    ensures var t := Resized(g, oldHeight, oldWidth, newHeight, newWidth);
      PartlyCopied(t, newWidth, if oldHeight < newHeight then oldHeight else newHeight, 0,
                   if oldWidth < newWidth then oldWidth else newWidth) == t
  {
    var t := Resized(g, oldHeight, oldWidth, newHeight, newWidth);
    forall k | 0 <= k < |t|
      ensures PartlyCopied(t, newWidth, if oldHeight < newHeight then oldHeight else newHeight, 0,
                           if oldWidth < newWidth then oldWidth else newWidth)[k] == t[k]
    {
      IdxInGrid(newHeight, newWidth, k);
    }
  }
}
