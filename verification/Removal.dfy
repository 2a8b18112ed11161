/** Clue removal (removeNumbers) over a caller-supplied sequence of random
    coordinates: a coordinate that hits a filled cell clears it, one that hits
    an empty cell is re-rolled, i.e. skipped. */
module Removal {
  import opened Grid

  ghost predicate PicksInRange(picks: seq<Coord>) {
    forall k | 0 <= k < |picks| :: InRange(picks[k].0, picks[k].1)
  }

  /** The board after removeNumbers(k) has consumed `picks`, and how many cells it
      cleared; it stops as soon as k cells are cleared. */
  ghost function Removed(g: Board, k: int, picks: seq<Coord>): (res: (Board, nat))
    requires IsBoard(g) && PicksInRange(picks)
    ensures IsBoard(res.0)
    decreases |picks|
  {
    if k <= 0 || picks == [] then (g, 0)
    else
      var (r, c) := picks[0];
      if g[r][c] != 0 then
        var rest := Removed(Assign(g, r, c, 0), k - 1, picks[1..]);
        (rest.0, rest.1 + 1)
      else Removed(g, k, picks[1..])
  }

  /** The nonzero cells of a board. */
  ghost function Clues(g: Board): set<Coord>
    requires IsBoard(g)
  {
    set i, j | 0 <= i < N && 0 <= j < N && g[i][j] != 0 :: (i, j)
  }

  /** Cells that are nonzero in g and zero in h. */
  ghost function ClearedCells(g: Board, h: Board): set<Coord>
    requires IsBoard(g) && IsBoard(h)
  {
    set i, j | 0 <= i < N && 0 <= j < N && g[i][j] != 0 && h[i][j] == 0 :: (i, j)
  }

  /** Clearing the clue at (r, c) first adds exactly (r, c) to the cells cleared
      on the way to h. */
  lemma ClearedAfterClear(g: Board, h: Board, r: int, c: int)
    requires IsBoard(g) && IsBoard(h) && InRange(r, c) && g[r][c] != 0 && h[r][c] == 0
    ensures ClearedCells(g, h) == ClearedCells(Assign(g, r, c, 0), h) + {(r, c)}
    ensures (r, c) !in ClearedCells(Assign(g, r, c, 0), h)
  {
    var g' := Assign(g, r, c, 0);
    forall p ensures p in ClearedCells(g, h) <==> p in ClearedCells(g', h) + {(r, c)} {
      if p in ClearedCells(g, h) {
        var i, j :| InRange(i, j) && g[i][j] != 0 && h[i][j] == 0 && p == (i, j);
      }
      if p in ClearedCells(g', h) {
        var i, j :| InRange(i, j) && g'[i][j] != 0 && h[i][j] == 0 && p == (i, j);
      }
    }
  }

  /** Removal only turns clues into empty cells, never clears more than k, and the
      number it reports is exactly the number of clues it turned into empty cells. */
  lemma {:induction false} RemovedClearsExactly(g: Board, k: int, picks: seq<Coord>)
    requires IsBoard(g) && PicksInRange(picks)
    ensures var (h, n) := Removed(g, k, picks);
      && (forall i, j | 0 <= i < N && 0 <= j < N :: h[i][j] == g[i][j] || (g[i][j] != 0 && h[i][j] == 0))
      && n <= (if k > 0 then k else 0)
      && |ClearedCells(g, h)| == n
    decreases |picks|
  {
    var (h, n) := Removed(g, k, picks);
    if k <= 0 || picks == [] {
      assert ClearedCells(g, h) == {};
    } else {
      var (r, c) := picks[0];
      if g[r][c] != 0 {
        var g' := Assign(g, r, c, 0);
        RemovedClearsExactly(g', k - 1, picks[1..]);
        assert h == Removed(g', k - 1, picks[1..]).0;
        assert h[r][c] == 0;
        ClearedAfterClear(g, h, r, c);
      } else {
        RemovedClearsExactly(g, k, picks[1..]);
      }
    }
  }

  /** Removal can only complete when the board holds at least k clues. */
  lemma RemovalNeedsClues(g: Board, k: int, picks: seq<Coord>)
    requires IsBoard(g) && PicksInRange(picks)
    ensures Removed(g, k, picks).1 <= |Clues(g)|
  {
    var (h, n) := Removed(g, k, picks);
    RemovedClearsExactly(g, k, picks);
    var cleared := ClearedCells(g, h);
    var clues := Clues(g);
    assert cleared <= clues by {
      forall p | p in cleared ensures p in clues {
        var i, j :| InRange(i, j) && g[i][j] != 0 && h[i][j] == 0 && p == (i, j);
      }
    }
    assert clues == cleared + (clues - cleared);
  }
}
