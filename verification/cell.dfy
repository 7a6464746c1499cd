/** The two-state cell of the Game of Life and the pure operations on it:
    liveness, negation (the `!` operator), the rule that gives a cell's next
    state, and the glyph a cell is rendered as. */
module Cells {

  /** A grid position's state. */
  datatype Cell = Dead | Alive

  /** `Cell::is_alive`. */
  predicate IsAlive(c: Cell) {
    c == Alive
  }

  /** `!c`: swaps the two states. */
  function Not(c: Cell): (r: Cell)
    ensures r != c
    ensures IsAlive(r) == !IsAlive(c)
  {
    match c
    case Dead => Alive
    case Alive => Dead
  }

  /** Negation is an involution, so toggling a cell twice restores it. */
  lemma NotInvolution(c: Cell)
    ensures Not(Not(c)) == c
  {
  }

  /** The guarded match that `tick` applies to a cell and its count of live
      neighbours, arm by arm. */
  function Rule(current: Cell, n: nat): (r: Cell)
    // Birth on exactly 3, survival on 2 or 3 (B3/S23), death otherwise.
    ensures IsAlive(r) <==> n == 3 || (IsAlive(current) && n == 2)
  {
    if current == Alive && n < 2 then Dead
    else if current == Alive && (n == 2 || n == 3) then Alive
    else if current == Alive && n > 3 then Dead
    else if current == Dead && n == 3 then Alive
    else current
  }

  /** A cell with fewer than two or more than three live neighbours is Dead
      in the next generation, whatever it was before. */
  lemma RuleLonelyOrCrowded(current: Cell, n: nat)
    requires n < 2 || n > 3
    ensures Rule(current, n) == Dead
  {
  }

  /** Display for a cell: one printable glyph. */
  function Glyph(c: Cell): (ch: char)
    ensures ch != '\n'
  {
    match c
    case Alive => '\U{25FC}'  // filled square
    case Dead => '\U{25FB}'   // empty square
  }

  /** The two states render differently. */
  lemma GlyphsDistinct()
    ensures Glyph(Alive) != Glyph(Dead)
  {
  }
}
