# Game of Life universe, modelled in Dafny

This project models the grid engine of a Game of Life program (`src/lib.rs`).
A `Universe` is a toroidal grid of `height` rows and `width` columns. Its cells
(`Dead` or `Alive`) are stored row-major in a flat buffer, beside a scratch
back buffer of the same shape. The engine offers:

- point reads and writes through a flat index or a `(row, col)` coordinate;
- `set_pixel` and `toggle_pixel`;
- `alive_neighbor_count`, which counts the eight wrapped neighbours with the
  Euclidean remainder;
- `tick`, which writes the next generation into the back buffer using the
  B3/S23 rule and then swaps the two buffers;
- `set_dimensions`, which builds a fresh grid and copies over the overlap
  of the old and new shapes;
- rendering to text: one glyph per cell and a line break after each row.

The model follows the source's own form:

- `Cells`, `Coords` and `Generation` hold the pure parts: the cell type,
  negation, the rule, the coordinate/index maps, and the neighbour count and
  next generation as functions of a cell sequence.
- `Resizing` and `Rendering` define, as functions, the grid that
  `set_dimensions` builds and the text that `Display` produces.
- `GameOfLife.Universe` is a class with `cells` and `backBuffer` arrays and
  `height` and `width` fields. Its loop-based methods are proved against
  those functions, and facts about the functions are proved as lemmas:
  round trips, bounds, locality of the rule, and overlap preservation.
- `Patterns` works out the next generation exactly for an all-Dead grid, and
  works out the wrap-around on two small grids: a 3x3 grid and a 1x1 grid.

Coordinate indexing (`Index<Coord>`) checks only that the flat index
`col + width * row` falls inside the buffer, not that `col < width`. The
model keeps this: `GetAt`, `SetPixel` and `TogglePixel` require only the
flat index to be in range, so a column past the width reaches into a
following row, and `GetAt` states which cell it reads. The flat index is
computed without the machine-word wrap-around (see "Left out").

After `tick` the back buffer holds the previous generation, and after
`set_dimensions` it is all `Dead`; `Universe.Tick` and
`Universe.SetDimensions` state both.

## Model

| member | source | states |
|---|---|---|
| Cells.Not | src/lib.rs:157-166 | negation always changes the cell and flips its liveness |
| Cells.NotInvolution | src/lib.rs:157-166 | negating twice gives back the original cell |
| Cells.Rule | src/lib.rs:71-78 | the match arms of `tick` amount to B3/S23: the next cell is alive exactly when the count is 3, or the cell is alive and the count is 2 |
| Cells.RuleLonelyOrCrowded | src/lib.rs:73-75 | with fewer than 2 or more than 3 live neighbours, the next cell is Dead whatever the current one |
| Cells.Glyph | src/lib.rs:105-113 | a cell renders as a single glyph that is never a line break |
| Cells.GlyphsDistinct | src/lib.rs:107-110 | Alive and Dead render as different glyphs |
| Coords.IdxToCoords | src/lib.rs:102 | for a positive width, the coordinate of an index has a column below the width and maps back to the same index |
| Coords.CoordRoundTrip | src/lib.rs:101-102 | `coord_to_idx` of a coordinate whose column is below the width is undone by `idx_to_coords` |
| Coords.CoordWraps | src/lib.rs:101-102 | `coord_to_idx` of a coordinate whose column is past the width names the cell at row + col / width, column col % width |
| Coords.CoordInGrid | src/lib.rs:101 | `coord_to_idx` of a coordinate inside a height-by-width grid is below height*width |
| Coords.IdxInGrid | src/lib.rs:102 | an index below height*width lies in a row below the height |
| Generation.Neighbor | src/lib.rs:91-92 | a wrapped neighbour, using the Euclidean remainder, always lies inside the grid |
| Generation.Neighbors | src/lib.rs:88-92 | a cell has exactly eight neighbour positions, all inside the grid |
| Generation.CountAlive | src/lib.rs:85-94 | the number of live cells at a list of positions is at most the list's length |
| Generation.CountAliveExtremes | src/lib.rs:85-94 | the count is 0 exactly when every listed cell is dead, and equals the length exactly when every one is alive |
| Generation.NeighborCount | src/lib.rs:84-99 | the neighbour count of any cell is between 0 and 8 |
| Generation.NeighborsDistinct | src/lib.rs:88-92 | on a grid at least 3x3, the eight neighbours are pairwise distinct and none is the cell itself |
| Generation.NextCellAt | src/lib.rs:69-78 | the next state of the cell at a flat index is alive exactly when its neighbour count is 3, or it is alive and the count is 2 |
| Generation.NextGen | src/lib.rs:66-82 | the next generation has as many cells as the current one; its cells are given by `NextGenCells` |
| Generation.NextGenPrefix | src/lib.rs:67-80 | the first n cells of the next generation, in row-major loop order, have length n |
| Generation.NextGenPrefixAt | src/lib.rs:67-80 | every cell of a prefix of the next generation is the rule applied to the old cell at that index |
| Generation.NextGenCells | src/lib.rs:66-82 | the next generation has as many cells as the current one, and each is the rule applied to the old cell and its old count |
| Generation.NextGenAt | src/lib.rs:69-78 | at each in-grid coordinate, the next cell is the rule applied to the old cell and its old neighbour count |
| Generation.NextGenIsLocal | src/lib.rs:66-82 | two generations that agree on a cell and its eight neighbours produce the same next cell there |
| Resizing.Resized | src/lib.rs:42-58 | the resized grid has newHeight*newWidth cells |
| Resizing.ResizedKeepsOverlap | src/lib.rs:50-55 | a coordinate inside both the old and the new grid keeps its old cell |
| Resizing.ResizedOutsideIsDead | src/lib.rs:44-48 | a coordinate of the new grid outside the old grid is Dead |
| Resizing.ResizedSameDimensions | src/lib.rs:42-58 | resizing to the current dimensions changes nothing |
| Resizing.ResizedGrowThenShrink | src/lib.rs:42-58 | growing a grid and then shrinking it back restores the original cells |
| Rendering.RenderLength | src/lib.rs:118-122 | after n iterations of the rendering loop (`RenderPrefix`) the text has n glyphs plus n / width line breaks |
| Rendering.Rendered | src/lib.rs:115-126 | the whole rendering of a grid has one glyph per cell plus one line break per complete row |
| Rendering.RenderRow | src/lib.rs:118-122 | rendering a complete row appends its glyphs and then one line break |
| Rendering.RenderedByRows | src/lib.rs:118-122 | the flat rendering loop produces the grid row by row |
| Rendering.RenderedGrid | src/lib.rs:115-126 | a height-by-width grid renders as height lines of width glyphs, height*width + height characters in all |
| GameOfLife.Toggled | src/lib.rs:63 | toggling flips the liveness of one cell and leaves every other cell as it was |
| GameOfLife.ToggledTwice | src/lib.rs:63 | toggling the same cell twice restores the whole grid |
| GameOfLife.CountNeighborStep | src/lib.rs:88-94 | one pass of the inner loop of `alive_neighbor_count` counts the next neighbour in offset order |
| GameOfLife.Universe.constructor | src/lib.rs:35-38 | both buffers are fresh, height*width long and all Dead, and the dimensions are the given ones |
| GameOfLife.Universe.Get | src/lib.rs:128-134 | flat indexing at an index inside the buffer reads the grid cell at `idx_to_coords` of that index, whose row is below the height |
| GameOfLife.Universe.GetAt | src/lib.rs:141-148 | coordinate indexing reads the grid cell at row + col / width, column col % width (a column past the width reaches into a following row), which is the cell at the coordinate itself when it lies in the grid |
| GameOfLife.Universe.SetIndex | src/lib.rs:136-140 | the cell at the flat index becomes the value and every other cell is unchanged |
| GameOfLife.Universe.SetPixel | src/lib.rs:64 | the cell at the coordinate becomes the value; no other cell, buffer or dimension changes |
| GameOfLife.Universe.TogglePixel | src/lib.rs:63 | the new grid is the old one with that cell negated; nothing else changes |
| GameOfLife.Universe.AliveNeighborCount | src/lib.rs:84-99 | the loops return the number of live cells among the eight wrapped neighbours, which is at most 8 |
| GameOfLife.Universe.NextCell | src/lib.rs:69-78 | the value `tick` writes for a coordinate is the next generation's cell at its index |
| GameOfLife.Universe.Tick | src/lib.rs:66-82 | the live buffer becomes the next generation and the back buffer holds the previous one; dimensions and shapes are unchanged, and the two arrays are exchanged rather than copied |
| GameOfLife.Universe.WriteNext | src/lib.rs:67-80 | the nested loops fill the back buffer with the next generation of the current cells, which they only read |
| GameOfLife.Universe.TickRow | src/lib.rs:68-79 | one row of the loops extends the next-generation prefix in the back buffer by that row |
| GameOfLife.Universe.TickCell | src/lib.rs:69-78 | one cell of the loops extends the next-generation prefix in the back buffer by that cell |
| GameOfLife.Universe.SetDimensions | src/lib.rs:42-58 | the dimensions become the new ones, both buffers are fresh, the cells are the resized grid (overlap kept, the rest Dead), and the back buffer is all Dead |
| GameOfLife.Universe.CopyOverlap | src/lib.rs:50-55 | the copy loops turn the all-Dead new buffer into the resized grid |
| GameOfLife.Universe.CopyRow | src/lib.rs:51-54 | one row of the copy loops copies that row's overlap columns and nothing else |
| GameOfLife.Universe.Render | src/lib.rs:115-126 | the text is the rendering of the cells: one glyph per cell, a line break after each last column, height lines of width glyphs |
| Patterns.CountAliveOfEight | src/lib.rs:88-96 | a count over eight positions is the sum of their eight liveness values |
| Patterns.CornerSeesCentre | src/lib.rs:88-96 | on a 3x3 grid with only the centre alive, the corner (0, 0) counts exactly one live neighbour, the centre at its direct (+1, +1) offset, so the five positions it reaches by wrapping around an edge count nothing |
| Patterns.SingleCellCount | src/lib.rs:88-96 | on a 1x1 grid every offset wraps back to the cell itself, so the count is 8 for a live cell and 0 for a dead one |
| Patterns.DeadGridStaysDead | src/lib.rs:66-82 | a grid with no live cell, of any shape, still has no live cell after one generation |
| Patterns.SingleCellTorus | src/lib.rs:66-82 | the next generation of any 1x1 grid is a single Dead cell |

## Left out

- `CoordToIdx`, `Resized` and the constructor do not model `usize` overflow in the index and size arithmetic (`c.col + self.width * c.row`, `width*height`, `row*col` at src/lib.rs:36, 45-46 and 101). The source panics there in a debug build and wraps in a release build; the model computes with unbounded naturals, so a coordinate whose index wraps into the buffer (width 2, row 2^63, column 0 reads cell 0 in a release build) is excluded by the requirement that the index be inside the buffer.
- `IsAliveAt` is a plain read: `Cells.IsAlive` of the cell `GetAt` returns, with no contract of its own; `GetAt` states which cell that is.
- The `usize as i32` casts in `alive_neighbor_count` (src/lib.rs:91-92) are not modelled. Coordinates are unbounded naturals and offsets are unbounded integers, so i32 overflow and truncation do not arise.
- Panics are not modelled as faults. This covers out-of-range indexing and `rem_euclid` or division by a zero dimension. Each becomes a `requires`: the flat index is inside the buffer, and both dimensions are positive for the neighbour count.
- The `Debug` and `Clone` derives are not modelled. `set_dimensions` clones `self` only to read the old cells, and the model reads them in place.
- The `std::fmt::Formatter` plumbing and the `fmt::Result` error path of `Display` are not modelled. Only the produced text is modelled, as a `string` built by a loop.
- `get_width` and `get_height` (src/lib.rs:60-61) only return a field; the model's `height` and `width` fields are read directly.
- `Coord::new` is the `Coord` datatype constructor, and `Cell::is_alive` is the predicate `Cells.IsAlive`. Neither needs a contract of its own.
- The macroquad window, drawing and input handling are not part of this model.
- A block still life and a blinker are not worked out as fixed grids. `Patterns` covers the all-Dead grid of any shape and two smaller grids, 3x3 and 1x1, and `Generation.NextGenAt` states the rule for every grid.
