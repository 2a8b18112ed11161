/** Value-level view of a 9x9 Sudoku board: the legality rule shared by the
    solver and the live input check, board consistency, and the functional
    specification of the backtracking solver (same cell order, same value order). */
module Grid {

  datatype Option<T> = None | Some(value: T)

  /** A board: 9 rows of 9 cells, 0 meaning empty. */
  type Board = seq<seq<int>>

  /** A cell coordinate (row, col). */
  type Coord = (int, int)

  const N := 9

  /** The digits 1..9 in ascending order, as `[...Array(N).keys()].map(x => x + 1)` builds them. */
  const Digits: seq<int> := [1, 2, 3, 4, 5, 6, 7, 8, 9]

  lemma DigitsAt()
    ensures |Digits| == N
    ensures forall i | 0 <= i < N :: Digits[i] == i + 1
    ensures forall v :: v in Digits <==> 1 <= v <= 9
  {
    forall v | 1 <= v <= 9 ensures v in Digits {
      assert Digits[v - 1] == v;
    }
  }

  ghost predicate IsBoard(g: Board) {
    |g| == N && forall r | 0 <= r < N :: |g[r]| == N
  }

  ghost predicate InRange(r: int, c: int) {
    0 <= r < N && 0 <= c < N
  }

  /** Cells hold 0 (empty) or a digit 1..9. */
  ghost predicate WellFormed(g: Board)
    requires IsBoard(g)
  {
    forall r, c | 0 <= r < N && 0 <= c < N :: 0 <= g[r][c] <= 9
  }

  ghost predicate NoZeros(g: Board)
    requires IsBoard(g)
  {
    forall r, c | 0 <= r < N && 0 <= c < N :: g[r][c] != 0
  }

  /** First row (and column) of the 3x3 box that holds index x. */
  ghost function BoxStart(x: int): int {
    x / 3 * 3
  }

  /** (i, j) lies in the row, the column or the 3x3 box of (r, c); (r, c) itself included. */
  ghost predicate Sees(r: int, c: int, i: int, j: int) {
    i == r || j == c ||
    (BoxStart(r) <= i < BoxStart(r) + 3 && BoxStart(c) <= j < BoxStart(c) + 3)
  }

  /** `num` may be placed at (row, col): it occurs nowhere in that row, column or box,
      the cell itself included. */
  ghost predicate Safe(g: Board, row: int, col: int, num: int)
    requires IsBoard(g) && InRange(row, col)
  {
    forall i, j | 0 <= i < N && 0 <= j < N && Sees(row, col, i, j) :: g[i][j] != num
  }

  /** No nonzero value is repeated in any row, column or box. */
  ghost predicate Consistent(g: Board)
    requires IsBoard(g)
  {
    forall r, c, i, j {:trigger Sees(r, c, i, j)} | 0 <= r < N && 0 <= c < N && 0 <= i < N && 0 <= j < N && (i != r || j != c) && Sees(r, c, i, j) && g[r][c] != 0 ::
      g[i][j] != g[r][c]
  }

  /** A complete valid Sudoku. */
  ghost predicate IsSolved(g: Board)
    requires IsBoard(g)
  {
    WellFormed(g) && NoZeros(g) && Consistent(g)
  }

  /** `s` keeps every nonzero cell of `g`. */
  ghost predicate Extends(s: Board, g: Board)
    requires IsBoard(s) && IsBoard(g)
  {
    forall r, c | 0 <= r < N && 0 <= c < N && g[r][c] != 0 :: s[r][c] == g[r][c]
  }

  ghost function Assign(g: Board, r: int, c: int, v: int): (h: Board)
    requires IsBoard(g) && InRange(r, c)
    ensures IsBoard(h)
    ensures h[r][c] == v
    ensures forall i, j | 0 <= i < N && 0 <= j < N && (i != r || j != c) :: h[i][j] == g[i][j]
  {
    g[r := g[r][c := v]]
  }

  /** Two boards that agree on every cell are equal. */
  lemma BoardExt(a: Board, b: Board)
    requires IsBoard(a) && IsBoard(b)
    requires forall i, j | 0 <= i < N && 0 <= j < N :: a[i][j] == b[i][j]
    ensures a == b
  {
    forall i | 0 <= i < N ensures a[i] == b[i] {
      assert forall j | 0 <= j < N :: a[i][j] == b[i][j];
    }
  }

  /** Sees is symmetric: the box relation only depends on BoxStart. */
  lemma SeesSymmetric(r: int, c: int, i: int, j: int)
    requires InRange(r, c) && InRange(i, j) && Sees(r, c, i, j)
    ensures Sees(i, j, r, c)
  {
  }

  /** Empty cells, the measure that the solver's recursion decreases. */
  ghost function ZeroCells(g: Board): set<Coord>
    requires IsBoard(g)
  {
    set i, j | 0 <= i < N && 0 <= j < N && g[i][j] == 0 :: (i, j)
  }

  lemma FillShrinksZeroCells(g: Board, r: int, c: int, v: int)
    requires IsBoard(g) && InRange(r, c) && g[r][c] == 0 && v != 0
    ensures ZeroCells(Assign(g, r, c, v)) < ZeroCells(g)
  {
    var h := Assign(g, r, c, v);
    assert (r, c) in ZeroCells(g);
    assert (r, c) !in ZeroCells(h);
    forall p | p in ZeroCells(h) ensures p in ZeroCells(g) {
      var i, j :| InRange(i, j) && h[i][j] == 0 && p == (i, j);
    }
  }

  /** The first empty cell at or after (r, c) in row-major order. */
  ghost function FirstEmptyFrom(g: Board, r: int, c: int): (p: Option<Coord>)
    requires IsBoard(g) && 0 <= r <= N && 0 <= c <= N
    ensures p.Some? ==> InRange(p.value.0, p.value.1) && g[p.value.0][p.value.1] == 0
    ensures p.None? ==> forall i, j | 0 <= i < N && 0 <= j < N && (i > r || (i == r && j >= c)) :: g[i][j] != 0
    decreases N - r, N - c
  {
    if r == N then None
    else if c == N then FirstEmptyFrom(g, r + 1, 0)
    else if g[r][c] == 0 then Some((r, c))
    else FirstEmptyFrom(g, r, c + 1)
  }

  /** The cell found is the first empty one: it lies at or after (r, c) and every
      cell from (r, c) up to it in row-major order is filled. */
  lemma {:induction false} FirstEmptyFromIsFirst(g: Board, r: int, c: int)
    requires IsBoard(g) && 0 <= r <= N && 0 <= c <= N
    ensures var p := FirstEmptyFrom(g, r, c);
      p.Some? ==> (
        (p.value.0 > r || (p.value.0 == r && p.value.1 >= c)) &&
        forall i, j | 0 <= i < N && 0 <= j < N && (i > r || (i == r && j >= c)) &&
          (i < p.value.0 || (i == p.value.0 && j < p.value.1)) :: g[i][j] != 0)
    decreases N - r, N - c
  {
    if r < N {
      if c == N {
        FirstEmptyFromIsFirst(g, r + 1, 0);
      } else if g[r][c] != 0 {
        FirstEmptyFromIsFirst(g, r, c + 1);
      }
    }
  }

  /** solveSudoku as a function of the board it starts from: Some(completed board)
      when the search succeeds, None when it is exhausted. */
  ghost function Solve(g: Board): (res: Option<Board>)
    requires IsBoard(g)
    ensures res.Some? ==> IsBoard(res.value) && NoZeros(res.value) && Extends(res.value, g)
    decreases ZeroCells(g), 10
  {
    match FirstEmptyFrom(g, 0, 0)
    case None => Some(g)
    case Some(p) => TryValues(g, p.0, p.1, 1)
  }

  /** The candidate loop at the empty cell (r, c), from value v upwards. */
  ghost function TryValues(g: Board, r: int, c: int, v: int): (res: Option<Board>)
    requires IsBoard(g) && InRange(r, c) && g[r][c] == 0 && 1 <= v <= 10
    ensures res.Some? ==> IsBoard(res.value) && NoZeros(res.value) && Extends(res.value, g)
    decreases ZeroCells(g), 10 - v
  {
    if v == 10 then None
    else if Safe(g, r, c, v) then
      FillShrinksZeroCells(g, r, c, v);
      match Solve(Assign(g, r, c, v))
      case Some(s) => Some(s)
      case None => TryValues(g, r, c, v + 1)
    else TryValues(g, r, c, v + 1)
  }

  /** The board after one call of solveSudoku: completed on success, untouched on failure. */
  ghost function SolveOrKeep(g: Board): (h: Board)
    requires IsBoard(g)
    ensures IsBoard(h)
  {
    match Solve(g)
    case Some(s) => s
    case None => g
  }

  /** One turn of the candidate loop: a safe value whose search succeeds ends the
      loop with that search's board; otherwise the loop goes on with v + 1. */
  lemma TryValuesStep(g: Board, r: int, c: int, v: int)
    requires IsBoard(g) && InRange(r, c) && g[r][c] == 0 && 1 <= v <= 9
    ensures Safe(g, r, c, v) ==> ZeroCells(Assign(g, r, c, v)) < ZeroCells(g)
    ensures Safe(g, r, c, v) && Solve(Assign(g, r, c, v)).Some? ==>
      TryValues(g, r, c, v) == Solve(Assign(g, r, c, v))
    ensures !(Safe(g, r, c, v) && Solve(Assign(g, r, c, v)).Some?) ==>
      TryValues(g, r, c, v) == TryValues(g, r, c, v + 1)
  {
    if Safe(g, r, c, v) {
      FillShrinksZeroCells(g, r, c, v);
    }
  }

  /** The value u, written at (r, c), passes the check and its search succeeds. */
  ghost predicate Succeeds(g: Board, r: int, c: int, u: int)
    requires IsBoard(g) && InRange(r, c)
  {
    Safe(g, r, c, u) && Solve(Assign(g, r, c, u)).Some?
  }

  /** The candidate loop from v succeeds exactly when some value in v..9
      passes the check and its search succeeds. */
  lemma TryValuesSomeIff(g: Board, r: int, c: int, v: int)
    requires IsBoard(g) && InRange(r, c) && g[r][c] == 0 && 1 <= v <= 10
    ensures TryValues(g, r, c, v).Some? <==> exists u | v <= u <= 9 :: Succeeds(g, r, c, u)
  {
    if exists u | v <= u <= 9 :: Succeeds(g, r, c, u) {
      var u :| v <= u <= 9 && Succeeds(g, r, c, u);
      TryValuesStep(g, r, c, u);
      TryValuesMonotone(g, r, c, v, u);
    } else {
      TryValuesNoneFrom(g, r, c, v);
    }
  }

  /** If the candidate loop succeeds from u, it succeeds from any earlier start v. */
  lemma {:induction false} TryValuesMonotone(g: Board, r: int, c: int, v: int, u: int)
    requires IsBoard(g) && InRange(r, c) && g[r][c] == 0 && 1 <= v <= u <= 10
    requires TryValues(g, r, c, u).Some?
    ensures TryValues(g, r, c, v).Some?
    decreases u - v
  {
    if v < u {
      TryValuesMonotone(g, r, c, v + 1, u);
      TryValuesStep(g, r, c, v);
    }
  }

  /** When no value in v..9 succeeds, the candidate loop from v fails. */
  lemma {:induction false} TryValuesNoneFrom(g: Board, r: int, c: int, v: int)
    requires IsBoard(g) && InRange(r, c) && g[r][c] == 0 && 1 <= v <= 10
    requires forall u | v <= u <= 9 :: !Succeeds(g, r, c, u)
    ensures TryValues(g, r, c, v).None?
    decreases 10 - v
  {
    if v < 10 {
      assert !Succeeds(g, r, c, v);
      TryValuesStep(g, r, c, v);
      TryValuesNoneFrom(g, r, c, v + 1);
    }
  }

  /** The candidate loop from v returns the search of the least value in v..9
      that passes the check and whose search succeeds. */
  lemma {:induction false} TryValuesFirstSuccess(g: Board, r: int, c: int, v: int)
    requires IsBoard(g) && InRange(r, c) && g[r][c] == 0 && 1 <= v <= 10
    ensures forall u | v <= u <= 9 && Succeeds(g, r, c, u) && (forall w | v <= w < u :: !Succeeds(g, r, c, w)) ::
      TryValues(g, r, c, v) == Solve(Assign(g, r, c, u))
    decreases 10 - v
  {
    if v < 10 {
      TryValuesStep(g, r, c, v);
      TryValuesFirstSuccess(g, r, c, v + 1);
      if Succeeds(g, r, c, v) {
        assert TryValues(g, r, c, v) == Solve(Assign(g, r, c, v));
        forall u | v <= u <= 9 && Succeeds(g, r, c, u) && (forall w | v <= w < u :: !Succeeds(g, r, c, w))
          ensures TryValues(g, r, c, v) == Solve(Assign(g, r, c, u))
        {
          assert Succeeds(g, r, c, v);
          assert u == v;
        }
      } else {
        assert TryValues(g, r, c, v) == TryValues(g, r, c, v + 1);
        forall u | v <= u <= 9 && Succeeds(g, r, c, u) && (forall w | v <= w < u :: !Succeeds(g, r, c, w))
          ensures TryValues(g, r, c, v) == Solve(Assign(g, r, c, u))
        {
          assert v + 1 <= u;
        }
      }
    }
  }

  /** Completeness of the search: whenever some complete valid Sudoku keeps every
      given of g, the search from g succeeds. */
  lemma {:induction false} SolveFindsSolution(g: Board, s: Board)
    requires IsBoard(g) && IsBoard(s) && IsSolved(s) && Extends(s, g)
    ensures Solve(g).Some?
    decreases ZeroCells(g), 10
  {
    match FirstEmptyFrom(g, 0, 0)
    case None =>
    case Some(p) => TryValuesFindsSolution(g, s, p.0, p.1, 1);
  }

  /** The candidate loop at an empty cell succeeds when started at or below the
      value a completion s holds there: that value passes the check, and s
      completes the board it leads to. */
  lemma {:induction false} TryValuesFindsSolution(g: Board, s: Board, r: int, c: int, v: int)
    requires IsBoard(g) && IsBoard(s) && IsSolved(s) && Extends(s, g)
    requires InRange(r, c) && g[r][c] == 0 && 1 <= v <= s[r][c]
    ensures TryValues(g, r, c, v).Some?
    decreases ZeroCells(g), 10 - v
  {
    TryValuesStep(g, r, c, v);
    if v == s[r][c] {
      assert Safe(g, r, c, v) by {
        forall i, j | 0 <= i < N && 0 <= j < N && Sees(r, c, i, j) ensures g[i][j] != v {
          if g[i][j] != 0 {
            assert s[i][j] == g[i][j];
          }
        }
      }
      var h := Assign(g, r, c, v);
      assert Extends(s, h);
      SolveFindsSolution(h, s);
    } else if !(Safe(g, r, c, v) && Solve(Assign(g, r, c, v)).Some?) {
      TryValuesFindsSolution(g, s, r, c, v + 1);
    }
  }

  /** Writing a safe value into a cell keeps the board consistent (the cell may
      hold a digit already: safety compares against the cell itself too). */
  lemma SafePlacementKeepsConsistent(g: Board, r: int, c: int, v: int)
    requires IsBoard(g) && InRange(r, c)
    requires Consistent(g) && Safe(g, r, c, v)
    ensures Consistent(Assign(g, r, c, v))
  {
    var h := Assign(g, r, c, v);
    forall r1, c1, i, j | 0 <= r1 < N && 0 <= c1 < N && 0 <= i < N && 0 <= j < N && (i != r1 || j != c1) && Sees(r1, c1, i, j) && h[r1][c1] != 0
      ensures h[i][j] != h[r1][c1]
    {
      if (i, j) == (r, c) {
        SeesSymmetric(r1, c1, i, j);
      }
    }
  }

  /** Emptying any cells of a consistent board keeps it consistent. */
  lemma ClearingKeepsConsistent(g: Board, h: Board)
    requires IsBoard(g) && IsBoard(h) && Consistent(g)
    requires forall i, j | 0 <= i < N && 0 <= j < N :: h[i][j] == g[i][j] || h[i][j] == 0
    ensures Consistent(h)
  {
  }

  /** A successful search from a consistent board yields a consistent board. */
  lemma {:induction false} SolveKeepsConsistent(g: Board)
    requires IsBoard(g) && Consistent(g) && Solve(g).Some?
    ensures Consistent(Solve(g).value)
    decreases ZeroCells(g), 10
  {
    match FirstEmptyFrom(g, 0, 0)
    case None =>
    case Some(p) => TryValuesKeepsConsistent(g, p.0, p.1, 1);
  }

  lemma {:induction false} TryValuesKeepsConsistent(g: Board, r: int, c: int, v: int)
    requires IsBoard(g) && InRange(r, c) && g[r][c] == 0 && 1 <= v <= 10
    requires Consistent(g) && TryValues(g, r, c, v).Some?
    ensures Consistent(TryValues(g, r, c, v).value)
    decreases ZeroCells(g), 10 - v
  {
    if v < 10 {
      TryValuesStep(g, r, c, v);
      if Safe(g, r, c, v) && Solve(Assign(g, r, c, v)).Some? {
        PlacementKeepsConsistent(g, r, c, v);
      } else {
        TryValuesKeepsConsistent(g, r, c, v + 1);
      }
    }
  }

  /** A safe value written into a consistent board leads to a consistent solution. */
  lemma {:induction false} PlacementKeepsConsistent(g: Board, r: int, c: int, v: int)
    requires IsBoard(g) && InRange(r, c) && g[r][c] == 0 && 1 <= v <= 9
    requires Consistent(g) && Safe(g, r, c, v) && Solve(Assign(g, r, c, v)).Some?
    ensures Consistent(Solve(Assign(g, r, c, v)).value)
    decreases ZeroCells(g), 0
  {
    FillShrinksZeroCells(g, r, c, v);
    SafePlacementKeepsConsistent(g, r, c, v);
    SolveKeepsConsistent(Assign(g, r, c, v));
  }

  /** The search only writes digits 1..9, so it keeps a well-formed board well-formed. */
  lemma {:induction false} SolveKeepsWellFormed(g: Board)
    requires IsBoard(g) && WellFormed(g) && Solve(g).Some?
    ensures WellFormed(Solve(g).value)
    decreases ZeroCells(g), 10
  {
    match FirstEmptyFrom(g, 0, 0)
    case None =>
    case Some(p) => TryValuesKeepsWellFormed(g, p.0, p.1, 1);
  }

  lemma {:induction false} TryValuesKeepsWellFormed(g: Board, r: int, c: int, v: int)
    requires IsBoard(g) && InRange(r, c) && g[r][c] == 0 && 1 <= v <= 10
    requires WellFormed(g) && TryValues(g, r, c, v).Some?
    ensures WellFormed(TryValues(g, r, c, v).value)
    decreases ZeroCells(g), 10 - v
  {
    if v < 10 {
      TryValuesStep(g, r, c, v);
      if Safe(g, r, c, v) && Solve(Assign(g, r, c, v)).Some? {
        PlacementKeepsWellFormed(g, r, c, v);
      } else {
        TryValuesKeepsWellFormed(g, r, c, v + 1);
      }
    }
  }

  /** A digit written into a well-formed board leads to a well-formed solution. */
  lemma {:induction false} PlacementKeepsWellFormed(g: Board, r: int, c: int, v: int)
    requires IsBoard(g) && InRange(r, c) && g[r][c] == 0 && 1 <= v <= 9
    requires WellFormed(g) && Safe(g, r, c, v) && Solve(Assign(g, r, c, v)).Some?
    ensures WellFormed(Solve(Assign(g, r, c, v)).value)
    decreases ZeroCells(g), 0
  {
    var h := Assign(g, r, c, v);
    FillShrinksZeroCells(g, r, c, v);
    assert WellFormed(h) by {
      forall i, j | 0 <= i < N && 0 <= j < N ensures 0 <= h[i][j] <= 9 {
        if (i, j) != (r, c) { assert h[i][j] == g[i][j]; }
      }
    }
    SolveKeepsWellFormed(h);
  }

  /** Starting from a consistent well-formed board, a successful search yields a
      complete valid Sudoku that keeps every given. */
  lemma SolveYieldsSolution(g: Board)
    requires IsBoard(g) && WellFormed(g) && Consistent(g) && Solve(g).Some?
    ensures IsSolved(Solve(g).value) && Extends(Solve(g).value, g)
  {
    SolveKeepsConsistent(g);
    SolveKeepsWellFormed(g);
  }

  /** A board without empty cells is returned as it is. */
  lemma FullBoardIsSolved(g: Board)
    requires IsBoard(g) && NoZeros(g)
    ensures Solve(g) == Some(g)
  {
    assert FirstEmptyFrom(g, 0, 0).None?;
  }

  /** Running the solver a second time changes nothing. */
  lemma SolveOrKeepIdempotent(g: Board)
    requires IsBoard(g)
    ensures SolveOrKeep(SolveOrKeep(g)) == SolveOrKeep(g)
  {
    if Solve(g).Some? {
      FullBoardIsSolved(Solve(g).value);
    }
  }
}
