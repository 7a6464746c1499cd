/** Counts and generations worked out on particular grids: an all-Dead grid
    of any shape stays all Dead, the corner of a 3x3 grid with a lone live
    centre counts one live neighbour, and a 1x1 torus, whose only cell is
    its own eight neighbours, always steps to a Dead cell. */
module Patterns {
  import opened Cells
  import opened Coords
  import opened Generation

  /** 1 for a live cell at an in-grid coordinate, 0 for a dead one. */
  function Live(g: seq<Cell>, height: nat, width: nat, c: Coord): nat
    requires |g| == height * width && c.row < height && c.col < width
  {
    if IsAlive(At(g, height, width, c)) then 1 else 0
  }

  /** Counting one more position adds that position's liveness to the
      count so far. */
  lemma CountStep(g: seq<Cell>, height: nat, width: nat, cs: seq<Coord>, v: nat, sum: nat)
    requires |g| == height * width && InGrid(height, width, cs) && v < |cs|
    requires CountAlive(g, height, width, cs[..v]) == sum
    ensures CountAlive(g, height, width, cs[..v + 1]) == sum + Live(g, height, width, cs[v])
  {
    CountOneMore(g, height, width, cs, v);
  }

  /** The count over eight positions written out as a sum. */
  lemma CountAliveOfEight(g: seq<Cell>, height: nat, width: nat, cs: seq<Coord>)
    requires |g| == height * width && |cs| == 8 && InGrid(height, width, cs)
    ensures CountAlive(g, height, width, cs)
         == Live(g, height, width, cs[0]) + Live(g, height, width, cs[1])
          + Live(g, height, width, cs[2]) + Live(g, height, width, cs[3])
          + Live(g, height, width, cs[4]) + Live(g, height, width, cs[5])
          + Live(g, height, width, cs[6]) + Live(g, height, width, cs[7])
  {
    var l0, l1, l2, l3 := Live(g, height, width, cs[0]), Live(g, height, width, cs[1]),
                          Live(g, height, width, cs[2]), Live(g, height, width, cs[3]);
    var l4, l5, l6, l7 := Live(g, height, width, cs[4]), Live(g, height, width, cs[5]),
                          Live(g, height, width, cs[6]), Live(g, height, width, cs[7]);
    assert cs[..0] == [];
    CountStep(g, height, width, cs, 0, 0);
    CountStep(g, height, width, cs, 1, l0);
    CountStep(g, height, width, cs, 2, l0 + l1);
    CountStep(g, height, width, cs, 3, l0 + l1 + l2);
    CountStep(g, height, width, cs, 4, l0 + l1 + l2 + l3);
    CountStep(g, height, width, cs, 5, l0 + l1 + l2 + l3 + l4);
    CountStep(g, height, width, cs, 6, l0 + l1 + l2 + l3 + l4 + l5);
    CountStep(g, height, width, cs, 7, l0 + l1 + l2 + l3 + l4 + l5 + l6);
    assert cs[..8] == cs;
  }

  /** A 3x3 grid whose only live cell is the centre. */
  const Centre: seq<Cell> := [Dead, Dead, Dead, Dead, Alive, Dead, Dead, Dead, Dead]

  /** The wrapped neighbour positions of the corner (0, 0) of a 3x3 grid. */
  lemma CornerNeighbors()
    ensures Neighbors(3, 3, Coord(0, 0))
         == [Coord(2, 2), Coord(2, 0), Coord(2, 1), Coord(0, 2), Coord(0, 1), Coord(1, 2), Coord(1, 0), Coord(1, 1)]
  {
    WrapValue(0, 3, -1);
  }

  /** The corner (0, 0) sees the centre through its (1, 1) offset. */
  lemma CornerSeesCentre()
    ensures NeighborCount(Centre, 3, 3, Coord(0, 0)) == 1
  {
    CornerNeighbors();
    CountAliveOfEight(Centre, 3, 3, Neighbors(3, 3, Coord(0, 0)));
  }

  /** A sequence of one element is that element alone. */
  lemma SingletonSeq(s: seq<Cell>)
    requires |s| == 1
    ensures s == [s[0]]
  {
  }

  /** Counting one position listed over and over gives the length of the
      list when that position is alive, and zero when it is dead. */
  lemma {:induction false} CountAliveRepeated(g: seq<Cell>, height: nat, width: nat, cs: seq<Coord>, c: Coord)
    requires |g| == height * width && c.row < height && c.col < width
    requires forall k :: 0 <= k < |cs| ==> cs[k] == c
    ensures InGrid(height, width, cs)
    ensures CountAlive(g, height, width, cs) == if IsAlive(At(g, height, width, c)) then |cs| else 0
  {
    if cs != [] {
      CountAliveRepeated(g, height, width, cs[..|cs| - 1], c);
    }
  }

  /** On a grid of a single cell all eight offsets wrap back to the cell
      itself, so a live cell counts itself eight times and dies of
      overpopulation, and a dead one counts nothing and stays dead. */
  lemma SingleCellCount(g: seq<Cell>, height: nat, width: nat, c: Coord)
    requires |g| == height * width == 1 && c == Coord(0, 0)
    ensures height == 1 && width == 1
    ensures NeighborCount(g, height, width, c) == if g[0] == Alive then 8 else 0
    ensures Rule(g[0], NeighborCount(g, height, width, c)) == Dead
  {
    assert height == 1 && width == 1;
    var ns := Neighbors(height, width, c);
    forall k | 0 <= k < |ns|
      ensures ns[k] == c
    {
      assert Neighbor(height, width, c, Offsets[k]) == c;
    }
    CountAliveRepeated(g, height, width, ns, c);
    RuleLonelyOrCrowded(g[0], NeighborCount(g, height, width, c));
  }

  /** The only cell of a grid of a single cell is Dead in the next
      generation: a live one dies of overpopulation and a dead one stays
      dead. */
  lemma SingleCellTorus(g: seq<Cell>, height: nat, width: nat)
    requires |g| == height * width == 1
    ensures NextGen(g, height, width) == [Dead]
  {
    var c := Coord(0, 0);
    SingleCellCount(g, height, width, c);
    NextGenAt(g, height, width, c);
    var next := NextGen(g, height, width);
    assert CoordToIdx(width, c) == 0 && |next| == 1;
    assert next[0] == Dead;
    SingletonSeq(next);
  }

  /** A grid with no live cell has no live cell in the next generation
      either: every count is zero and nothing is born. */
  lemma DeadGridStaysDead(g: seq<Cell>, height: nat, width: nat)
    requires |g| == height * width
    requires forall k :: 0 <= k < |g| ==> g[k] == Dead
    ensures |NextGen(g, height, width)| == |g|
    ensures forall k :: 0 <= k < |g| ==> NextGen(g, height, width)[k] == Dead
  {
    NextGenCells(g, height, width);
    forall k | 0 <= k < |g|
      ensures NextCellAt(g, height, width, k) == Dead
    {
      assert height > 0 && width > 0;
      var ns := Neighbors(height, width, IdxToCoords(width, k));
      forall j | 0 <= j < |ns|
        ensures !IsAlive(At(g, height, width, ns[j]))
      {
        CoordInGrid(height, width, ns[j]);
      }
      CountAliveExtremes(g, height, width, ns);
    }
  }
}
