/** Value-level view of the board update made by handleInput. */
module Input {
  import opened Grid

  /** What the player typed into a cell: nothing, text that parses as the
      integer `value`, or text that does not parse as a number. */
  datatype Entry = Blank | Number(value: int) | NotANumber

  /** The entry is a digit 1..9 that the legality check allows at (r, c). */
  ghost predicate Accepted(g: Board, r: int, c: int, e: Entry)
    requires IsBoard(g) && InRange(r, c)
  {
    e.Number? && 1 <= e.value <= 9 && Safe(g, r, c, e.value)
  }

  /** The board after handleInput: a blank entry empties the cell, an accepted
      digit is written, anything else leaves the board as it was. */
  ghost function AfterInput(g: Board, r: int, c: int, e: Entry): (h: Board)
    requires IsBoard(g) && InRange(r, c)
    ensures IsBoard(h)
  {
    if e.Blank? then Assign(g, r, c, 0)
    else if Accepted(g, r, c, e) then Assign(g, r, c, e.value)
    else g
  }

  /** No input can make a consistent, well-formed board break a rule or hold
      anything but 0..9. */
  lemma InputKeepsConsistent(g: Board, r: int, c: int, e: Entry)
    requires IsBoard(g) && InRange(r, c) && Consistent(g) && WellFormed(g)
    ensures Consistent(AfterInput(g, r, c, e)) && WellFormed(AfterInput(g, r, c, e))
  {
    var h := AfterInput(g, r, c, e);
    if e.Blank? {
      ClearingKeepsConsistent(g, h);
    } else if Accepted(g, r, c, e) {
      SafePlacementKeepsConsistent(g, r, c, e.value);
    }
  }

  /** The check compares against the cell itself, so typing the digit a cell
      already holds is rejected. */
  lemma SameDigitRejected(g: Board, r: int, c: int, e: Entry)
    requires IsBoard(g) && InRange(r, c) && e.Number? && g[r][c] == e.value
    ensures !Accepted(g, r, c, e) && AfterInput(g, r, c, e) == g
  {
    assert Sees(r, c, r, c);
  }
}
