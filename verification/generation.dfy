/** The generation rule of the toroidal grid, as functions of a row-major
    sequence of cells: the eight wrapped neighbour positions of a coordinate,
    the count of live cells among them, and the whole next generation. */
module Generation {
  import opened Cells
  import opened Coords

  /** The eight non-zero (row, column) offsets, in the order the nested
      `dy`/`dx` loops of `alive_neighbor_count` visit them. */
  const Offsets: seq<(int, int)> :=
    [(-1, -1), (-1, 0), (-1, 1), (0, -1), (0, 1), (1, -1), (1, 0), (1, 1)]

  /** All coordinates of `cs` lie inside a height-by-width grid. */
  predicate InGrid(height: nat, width: nat, cs: seq<Coord>) {
    forall k :: 0 <= k < |cs| ==> cs[k].row < height && cs[k].col < width
  }

  /** The cell at an in-grid coordinate of a row-major grid. */
  function At(g: seq<Cell>, height: nat, width: nat, c: Coord): Cell
    requires |g| == height * width
    requires c.row < height && c.col < width
  {
    assert CoordToIdx(width, c) < |g| by { CoordInGrid(height, width, c); }
    g[c.col + width * c.row]
  }

  /** The position reached from `c` by one offset, wrapping around both
      edges with the Euclidean (never negative) remainder, as `rem_euclid`. */
  function Neighbor(height: nat, width: nat, c: Coord, offset: (int, int)): (n: Coord)
    requires height > 0 && width > 0
    ensures n.row < height && n.col < width
  {
    Coord((c.row + offset.0) % height, (c.col + offset.1) % width)
  }

  /** The neighbour positions of `c`, one per offset. */
  function Neighbors(height: nat, width: nat, c: Coord): (ns: seq<Coord>)
    requires height > 0 && width > 0
    ensures |ns| == 8
    ensures InGrid(height, width, ns)
  {
    seq(|Offsets|, k requires 0 <= k < |Offsets| => Neighbor(height, width, c, Offsets[k]))
  }

  /** Number of live cells at the positions `cs` (a position listed twice
      counts twice). */
  function CountAlive(g: seq<Cell>, height: nat, width: nat, cs: seq<Coord>): (n: nat)
    requires |g| == height * width
    requires InGrid(height, width, cs)
    ensures n <= |cs|
  {
    if cs == [] then 0
    else
      var last := cs[|cs| - 1];
      CountAlive(g, height, width, cs[..|cs| - 1]) + (if IsAlive(At(g, height, width, last)) then 1 else 0)
  }

  /** The count is zero exactly when every listed position is dead, and
      equals the number of positions exactly when every one is alive. */
  lemma {:induction false} CountAliveExtremes(g: seq<Cell>, height: nat, width: nat, cs: seq<Coord>)
    requires |g| == height * width
    requires InGrid(height, width, cs)
    ensures CountAlive(g, height, width, cs) == 0 <==> forall k :: 0 <= k < |cs| ==> !IsAlive(At(g, height, width, cs[k]))
    ensures CountAlive(g, height, width, cs) == |cs| <==> forall k :: 0 <= k < |cs| ==> IsAlive(At(g, height, width, cs[k]))
  {
    if cs != [] {
      var prefix := cs[..|cs| - 1];
      CountAliveExtremes(g, height, width, prefix);
      assert forall k :: 0 <= k < |prefix| ==> prefix[k] == cs[k];
    }
  }

  /** Counting one more position adds one exactly when it holds a live cell. */
  lemma CountOneMore(g: seq<Cell>, height: nat, width: nat, cs: seq<Coord>, v: nat)
    requires |g| == height * width && InGrid(height, width, cs) && v < |cs|
    ensures CountAlive(g, height, width, cs[..v + 1])
         == CountAlive(g, height, width, cs[..v]) + if IsAlive(At(g, height, width, cs[v])) then 1 else 0
  {
    assert cs[..v + 1][..v] == cs[..v];
  }

  /** `alive_neighbor_count`: live cells among the eight wrapped neighbour
      positions of `c`. */
  function NeighborCount(g: seq<Cell>, height: nat, width: nat, c: Coord): (n: nat)
    requires height > 0 && width > 0 && |g| == height * width
    ensures n <= 8
  {
    CountAlive(g, height, width, Neighbors(height, width, c))
  }

  /** The next state of the cell at flat index `i` of `g`: the rule applied
      to that cell and to its neighbour count in `g`. */
  function NextCellAt(g: seq<Cell>, height: nat, width: nat, i: nat): (r: Cell)
    requires |g| == height * width && i < |g|
    ensures height > 0 && width > 0
    ensures var n := NeighborCount(g, height, width, IdxToCoords(width, i));
      IsAlive(r) <==> n == 3 || (IsAlive(g[i]) && n == 2)
  {
    assert height > 0 && width > 0;
    Rule(g[i], NeighborCount(g, height, width, IdxToCoords(width, i)))
  }

  /** The first `n` cells of the generation after `g`, in row-major order. */
  function NextGenPrefix(g: seq<Cell>, height: nat, width: nat, n: nat): (r: seq<Cell>)
    requires |g| == height * width && n <= |g|
    ensures |r| == n
  {
    if n == 0 then [] else NextGenPrefix(g, height, width, n - 1) + [NextCellAt(g, height, width, n - 1)]
  }

  /** The generation after `g`: every cell of `g` replaced by its next state. */
  function NextGen(g: seq<Cell>, height: nat, width: nat): (r: seq<Cell>)
    requires |g| == height * width
    ensures |r| == |g|
  {
    NextGenPrefix(g, height, width, |g|)
  }

  /** Every cell of a prefix of the next generation is the next state of the
      cell at the same index. */
  lemma {:induction false} NextGenPrefixAt(g: seq<Cell>, height: nat, width: nat, n: nat, i: nat)
    requires |g| == height * width && i < n <= |g|
    ensures NextGenPrefix(g, height, width, n)[i] == NextCellAt(g, height, width, i)
  {
    if i < n - 1 {
      NextGenPrefixAt(g, height, width, n - 1, i);
    }
  }

  /** The next generation has as many cells as the current one, and each is
      the next state of the cell at the same index. */
  lemma NextGenCells(g: seq<Cell>, height: nat, width: nat)
    requires |g| == height * width
    ensures |NextGen(g, height, width)| == |g|
    ensures forall i :: 0 <= i < |g| ==> NextGen(g, height, width)[i] == NextCellAt(g, height, width, i)
  {
    forall i | 0 <= i < |g|
      ensures NextGen(g, height, width)[i] == NextCellAt(g, height, width, i)
    {
      NextGenPrefixAt(g, height, width, |g|, i);
    }
  }

  /** The next generation at a coordinate depends on the old cell and old
      neighbour count at that same coordinate. */
  lemma NextGenAt(g: seq<Cell>, height: nat, width: nat, c: Coord)
    requires |g| == height * width
    requires c.row < height && c.col < width
    ensures CoordToIdx(width, c) < |NextGen(g, height, width)| == |g|
    ensures NextGen(g, height, width)[CoordToIdx(width, c)]
         == Rule(At(g, height, width, c), NeighborCount(g, height, width, c))
  {
    CoordInGrid(height, width, c);
    CoordRoundTrip(width, c);
    NextGenPrefixAt(g, height, width, |g|, CoordToIdx(width, c));
  }

  /** Two grids that agree on a list of positions have the same count there. */
  lemma {:induction false} CountAliveAgree(g1: seq<Cell>, g2: seq<Cell>, height: nat, width: nat, cs: seq<Coord>)
    requires |g1| == |g2| == height * width
    requires InGrid(height, width, cs)
    requires forall k :: 0 <= k < |cs| ==> At(g1, height, width, cs[k]) == At(g2, height, width, cs[k])
    ensures CountAlive(g1, height, width, cs) == CountAlive(g2, height, width, cs)
  {
    if cs != [] {
      var prefix := cs[..|cs| - 1];
      assert forall k :: 0 <= k < |prefix| ==> prefix[k] == cs[k];
      CountAliveAgree(g1, g2, height, width, prefix);
      assert At(g1, height, width, cs[|cs| - 1]) == At(g2, height, width, cs[|cs| - 1]);
    }
  }

  /** Locality: the next state of a cell is fixed by the old cell and its
      eight neighbours; nothing else in the old generation matters. */
  lemma NextGenIsLocal(g1: seq<Cell>, g2: seq<Cell>, height: nat, width: nat, c: Coord)
    requires |g1| == |g2| == height * width
    requires c.row < height && c.col < width
    requires At(g1, height, width, c) == At(g2, height, width, c)
    requires forall k :: 0 <= k < 8 ==>
      At(g1, height, width, Neighbors(height, width, c)[k]) == At(g2, height, width, Neighbors(height, width, c)[k])
    ensures CoordToIdx(width, c) < |g1|
    ensures NextGen(g1, height, width)[CoordToIdx(width, c)] == NextGen(g2, height, width)[CoordToIdx(width, c)]
  {
    NextGenAt(g1, height, width, c);
    NextGenAt(g2, height, width, c);
    CountAliveAgree(g1, g2, height, width, Neighbors(height, width, c));
  }

  /** Wrapping one step in either direction, or none, on a ring of at least
      three positions, lands on three different positions. */
  lemma WrapDistinct(v: nat, n: nat, a: int, b: int)
    requires v < n && n >= 3
    requires -1 <= a <= 1 && -1 <= b <= 1 && a != b
    ensures (v + a) % n != (v + b) % n
  {
    WrapValue(v, n, a);
    WrapValue(v, n, b);
  }

  /** The wrapped position of one step from `v` on a ring of `n` positions. */
  lemma WrapValue(v: nat, n: nat, a: int)
    requires v < n && -1 <= a <= 1
    ensures (v + a) % n == if v + a < 0 then n - 1 else if v + a >= n then 0 else v + a
  {
    if v + a < 0 {
      DivModOfIndex(n, 0, n - 1);
      assert v + a == n - 1 + n * -1;
    } else if v + a >= n {
      DivModOfIndex(n, 1, 0);
    } else {
      DivModOfIndex(n, 0, v + a);
    }
  }

  /** On a grid at least three cells high and wide, a cell has exactly eight
      distinct neighbour positions, none of which is the cell itself. */
  lemma NeighborsDistinct(height: nat, width: nat, c: Coord)
    requires height >= 3 && width >= 3
    requires c.row < height && c.col < width
    ensures forall k :: 0 <= k < 8 ==> Neighbors(height, width, c)[k] != c
    ensures forall j, k :: 0 <= j < k < 8 ==> Neighbors(height, width, c)[j] != Neighbors(height, width, c)[k]
  {
    var ns := Neighbors(height, width, c);
    forall k | 0 <= k < 8
      ensures ns[k] != c
    {
      var (dy, dx) := Offsets[k];
      if dy != 0 {
        WrapDistinct(c.row, height, dy, 0);
      } else {
        WrapDistinct(c.col, width, dx, 0);
      }
    }
    forall j, k | 0 <= j < k < 8
      ensures ns[j] != ns[k]
    {
      if Offsets[j].0 != Offsets[k].0 {
        WrapDistinct(c.row, height, Offsets[j].0, Offsets[k].0);
      } else {
        WrapDistinct(c.col, width, Offsets[j].1, Offsets[k].1);
      }
    }
  }
}
